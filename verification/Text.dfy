module Options {
  datatype Option<+T> = None | Some(value: T)
}

module Numbers {
  function Max(a: nat, b: nat): nat { if a < b then b else a }

  function Min(a: nat, b: nat): nat { if a < b then a else b }
}

/** ASCII and substring helpers over `string`. */
module Text {
  import opened Options

  function LowerChar(c: char): char
  {
    if 'A' <= c <= 'Z' then (c as int + 32) as char else c
  }

  function AsciiLower(s: string): string
  {
    if s == "" then "" else [LowerChar(s[0])] + AsciiLower(s[1..])
  }

  predicate StartsWith(s: string, p: string) { |p| <= |s| && s[..|p|] == p }

  predicate EndsWith(s: string, p: string) { s == p || (|p| < |s| && EndsWith(s[1..], p)) }

  function TrimStart(s: string, drop: char -> bool): string
  {
    if s != "" && drop(s[0]) then TrimStart(s[1..], drop) else s
  }

  function TrimEnd(s: string, drop: char -> bool): string
  {
    if s != "" && drop(s[|s| - 1]) then TrimEnd(s[..|s| - 1], drop) else s
  }

  function Trim(s: string, drop: char -> bool): string { TrimEnd(TrimStart(s, drop), drop) }

  predicate IsDot(c: char) { c == '.' }

  predicate IsBracket(c: char) { c == '[' || c == ']' }

  predicate IsCloser(c: char) { c == ']' }

  /** Trimming drops the longest stretch of such characters, and only that. */
  lemma {:induction false} TrimStartMeaning(s: string, drop: char -> bool) returns (n: nat)
    ensures n <= |s| && TrimStart(s, drop) == s[n..]
    ensures (forall i :: 0 <= i < n ==> drop(s[i])) && (n < |s| ==> !drop(s[n]))
  {
    if s != "" && drop(s[0]) {
      n := TrimStartMeaning(s[1..], drop);
      assert forall i :: 0 < i <= n ==> s[i] == s[1..][i - 1];
      n := n + 1;
    } else {
      n := 0;
      assert s[0..] == s;
    }
  }

  lemma {:induction false} TrimEndMeaning(s: string, drop: char -> bool) returns (n: nat)
    ensures n <= |s| && TrimEnd(s, drop) == s[..n]
    ensures (forall i :: n <= i < |s| ==> drop(s[i])) && (n > 0 ==> !drop(s[n - 1]))
  {
    if s != "" && drop(s[|s| - 1]) {
      var front := s[..|s| - 1];
      n := TrimEndMeaning(front, drop);
      assert forall i :: 0 <= i < |front| ==> s[i] == front[i];
      assert front[..n] == s[..n];
    } else {
      n := |s|;
      assert s[..n] == s;
    }
  }

  /** Unicode White_Space, which Rust's `char::is_whitespace` tests. */
  predicate IsWhitespace(c: char)
  {
    var n := c as int;
    || 0x9 <= n <= 0xD || n == 0x20 || n == 0x85 || n == 0xA0 || n == 0x1680
    || 0x2000 <= n <= 0x200A || n == 0x2028 || n == 0x2029 || n == 0x202F
    || n == 0x205F || n == 0x3000
  }

  /** Position of the first character satisfying `p`. */
  function FindChar(s: string, p: char -> bool): (r: Option<nat>)
    ensures r.Some? ==> r.value < |s| && p(s[r.value]) && forall i :: 0 <= i < r.value ==> !p(s[i])
    ensures r.None? ==> forall i :: 0 <= i < |s| ==> !p(s[i])
  {
    if s == "" then None
    else if p(s[0]) then Some(0)
    else
      var r := FindChar(s[1..], p);
      if r.None? then None else Some(r.value + 1)
  }

  /** Position of the first occurrence of `pat`. */
  function Find(s: string, pat: string): (r: Option<nat>)
    ensures r.Some? ==> r.value + |pat| <= |s|
  {
    if StartsWith(s, pat) then Some(0)
    else if s == "" then None
    else
      var r := Find(s[1..], pat);
      if r.None? then None else Some(r.value + 1)
  }

  /** `pat` occurs nowhere before `n`. */
  predicate NoneBefore(s: string, pat: string, n: nat)
    requires n <= |s| + 1
  {
    forall i :: 0 <= i < n ==> !StartsWith(s[i..], pat)
  }

  lemma {:induction false} NoneBeforeTail(s: string, pat: string, n: nat)
    requires s != "" && n <= |s|
    ensures NoneBefore(s, pat, n + 1) <==> !StartsWith(s, pat) && NoneBefore(s[1..], pat, n)
  {
    assert s[0..] == s;
    forall i | 0 <= i < n
      ensures s[1..][i..] == s[i + 1..]
    {
    }
    if !StartsWith(s, pat) && NoneBefore(s[1..], pat, n) {
      forall i | 0 <= i < n + 1
        ensures !StartsWith(s[i..], pat)
      {
        if i > 0 { assert s[i..] == s[1..][i - 1..]; }
      }
    }
    if NoneBefore(s, pat, n + 1) {
      assert !StartsWith(s[0..], pat);
    }
  }

  /** Characters before the first occurrence can be dropped. */
  lemma {:induction false} FindFrom(s: string, pat: string, n: nat)
    requires n <= |s| && NoneBefore(s, pat, n)
    ensures var r := Find(s[n..], pat);
      Find(s, pat) == if r.None? then None else Some(n + r.value)
    decreases n
  {
    if n == 0 {
      assert s[0..] == s;
    } else {
      NoneBeforeTail(s, pat, n - 1);
      FindFrom(s[1..], pat, n - 1);
      assert s[1..][n - 1..] == s[n..];
    }
  }

  lemma {:induction false} FindMeaning(s: string, pat: string)
    requires pat != ""
    ensures var r := Find(s, pat);
      if r.None? then NoneBefore(s, pat, |s| + 1)
      else NoneBefore(s, pat, r.value) && s[r.value..r.value + |pat|] == pat
  {
    var r := Find(s, pat);
    if !StartsWith(s, pat) && s != "" {
      FindMeaning(s[1..], pat);
      if r.None? {
        NoneBeforeTail(s, pat, |s|);
      } else {
        var k := r.value - 1;
        NoneBeforeTail(s, pat, k);
        SliceTail(s, k, k + |pat|);
      }
    }
  }

  lemma {:induction false} SliceTail(s: string, i: nat, j: nat)
    requires i <= j < |s|
    ensures s[i + 1..j + 1] == s[1..][i..j]
  {
    var a, b := s[i + 1..j + 1], s[1..][i..j];
    assert |a| == |b|;
    assert forall m :: 0 <= m < |a| ==> a[m] == s[i + 1 + m] == s[1..][i + m] == b[m];
  }

  /** The pieces of `s` between occurrences of `sep`; never empty. */
  function SplitOn(s: string, sep: char): (r: seq<string>)
    ensures |r| >= 1
  {
    if s == "" then [""]
    else
      var rest := SplitOn(s[1..], sep);
      if s[0] == sep then [""] + rest else [[s[0]] + rest[0]] + rest[1..]
  }

  function JoinWith(parts: seq<string>, sep: string): string
  {
    if parts == [] then ""
    else if |parts| == 1 then parts[0]
    else parts[0] + sep + JoinWith(parts[1..], sep)
  }

  /** Lexicographic order by character code, the order of Rust strings. */
  predicate StringLe(a: string, b: string)
  {
    if a == "" then true
    else if b == "" then false
    else if a[0] == b[0] then StringLe(a[1..], b[1..])
    else a[0] < b[0]
  }

  lemma {:induction false} StringLeAntisym(a: string, b: string)
    requires StringLe(a, b) && StringLe(b, a)
    ensures a == b
  {
    if a != "" && b != "" {
      StringLeAntisym(a[1..], b[1..]);
      assert a == [a[0]] + a[1..] && b == [b[0]] + b[1..];
    }
  }

  lemma {:induction false} StringLeTrans(a: string, b: string, c: string)
    requires StringLe(a, b) && StringLe(b, c)
    ensures StringLe(a, c)
  {
    if a != "" && b != "" && c != "" && a[0] == b[0] == c[0] {
      StringLeTrans(a[1..], b[1..], c[1..]);
    }
  }

  lemma StringLeTotal(a: string, b: string)
    ensures StringLe(a, b) || StringLe(b, a)
  {
  }

  lemma {:induction false} SplitNoSep(s: string, sep: char)
    ensures forall i :: 0 <= i < |SplitOn(s, sep)| ==> sep !in SplitOn(s, sep)[i]
  {
    if s != "" {
      SplitNoSep(s[1..], sep);
    }
  }
}
