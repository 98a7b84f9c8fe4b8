/** Decoding UTF-8 as Buffer.toString does: one replacement character for each
    longest prefix of a character that the bytes break off. */
module Utf8 {

  type Byte = x: int | 0 <= x < 256

  const REPLACEMENT: char := '\U{FFFD}'

  predicate IsTail(b: Byte) { 0x80 <= b < 0xC0 }

  /** How many more bytes the character that `b` starts needs. */
  function Need(b: Byte): nat
  {
    if 0xC2 <= b < 0xE0 then 1 else if 0xE0 <= b < 0xF0 then 2 else if 0xF0 <= b < 0xF5 then 3 else 0
  }

  /** The bytes that may come second leave out overlong forms, surrogates and
      what lies past the last code point. */
  predicate SecondFits(first: Byte, b: Byte)
  {
    IsTail(b) && (first == 0xE0 ==> b >= 0xA0) && (first == 0xED ==> b < 0xA0)
    && (first == 0xF0 ==> b >= 0x90) && (first == 0xF4 ==> b < 0x90)
  }

  /** How many bytes the decoder takes for one character, good or bad. */
  function UnitLen(s: seq<Byte>): (n: nat)
    requires s != []
    ensures 1 <= n <= |s| && n <= 1 + Need(s[0])
    ensures forall i :: 1 <= i < n ==> IsTail(s[i])
  {
    if Need(s[0]) == 0 || |s| == 1 || !SecondFits(s[0], s[1]) then 1
    else if Need(s[0]) == 1 || |s| == 2 || !IsTail(s[2]) then 2
    else if Need(s[0]) == 2 || |s| == 3 || !IsTail(s[3]) then 3
    else 4
  }

  function UnitChar(u: seq<Byte>): char
    requires u != [] && UnitLen(u) == |u|
  {
    if |u| == 1 then if u[0] < 0x80 then u[0] as char else REPLACEMENT
    else if |u| < 1 + Need(u[0]) then REPLACEMENT
    else
      var b0: int, b1: int := u[0], u[1];
      if |u| == 2 then (64 * (b0 - 0xC0) + (b1 - 0x80)) as char
      else
        var b2: int := u[2];
        if |u| == 3 then (4096 * (b0 - 0xE0) + 64 * (b1 - 0x80) + (b2 - 0x80)) as char
        else
          var b3: int := u[3];
          (262144 * (b0 - 0xF0) + 4096 * (b1 - 0x80) + 64 * (b2 - 0x80) + (b3 - 0x80)) as char
  }

  lemma {:induction false} UnitAlone(s: seq<Byte>)
    requires s != []
    ensures UnitLen(s[..UnitLen(s)]) == UnitLen(s)
  {
  }

  function Decode(s: seq<Byte>): string
    decreases |s|
  {
    if s == [] then ""
    else
      UnitAlone(s);
      [UnitChar(s[..UnitLen(s)])] + Decode(s[UnitLen(s)..])
  }

  /** Every character is complete. */
  predicate WellFormed(s: seq<Byte>)
    decreases |s|
  {
    s == [] || (UnitLen(s) == 1 + Need(s[0]) && (Need(s[0]) == 0 ==> s[0] < 0x80) && WellFormed(s[UnitLen(s)..]))
  }

  function Chars(s: seq<Byte>): string { seq(|s|, i requires 0 <= i < |s| => s[i] as char) }

  lemma {:induction false} AsciiDecodes(s: seq<Byte>)
    requires forall i :: 0 <= i < |s| ==> s[i] < 0x80
    ensures WellFormed(s) && Decode(s) == Chars(s)
    decreases |s|
  {
    if s != [] {
      assert UnitLen(s) == 1;
      AsciiDecodes(s[1..]);
      assert Chars(s) == [s[0] as char] + Chars(s[1..]);
    }
  }

  /** Position `n` lies between what the decoder takes for characters. */
  predicate Border(s: seq<Byte>, n: nat)
    decreases |s|
  {
    n == 0 || (s != [] && UnitLen(s) <= n && Border(s[UnitLen(s)..], n - UnitLen(s)))
  }

  /** More text does not change what was complete, and a unit that reaches into
      it takes all there is. */
  lemma {:induction false} UnitOfPrefix(a: seq<Byte>, b: seq<Byte>)
    requires a != []
    ensures UnitLen(a + b) <= |a| ==> UnitLen(a) == UnitLen(a + b)
    ensures UnitLen(a + b) > |a| ==> UnitLen(a) == |a|
  {
    var s := a + b;
    assert forall i :: 0 <= i < |a| ==> s[i] == a[i];
  }

  lemma {:induction false} DecodeStep(s: seq<Byte>)
    requires s != []
    ensures |Decode(s)| == 1 + |Decode(s[UnitLen(s)..])|
  {
  }

  /** Bytes that only continue a character decode to one character each. */
  lemma {:induction false} StrayTails(s: seq<Byte>, k: nat)
    requires k <= |s| && forall i :: 0 <= i < k ==> IsTail(s[i])
    ensures |Decode(s)| == k + |Decode(s[k..])|
    decreases k
  {
    if k > 0 {
      assert UnitLen(s) == 1;
      StrayTails(s[1..], k - 1);
      assert s[1..][k - 1..] == s[k..];
    } else {
      assert s[0..] == s;
    }
  }

  /** Cut between characters, the parts decode to the whole. */
  lemma {:induction false} CleanCut(a: seq<Byte>, b: seq<Byte>)
    requires Border(a + b, |a|)
    ensures Decode(a + b) == Decode(a) + Decode(b)
    decreases |a|
  {
    if a == [] {
      assert a + b == b;
    } else {
      var n := UnitLen(a + b);
      BorderStep(a + b, |a|);
      UnitOfPrefix(a, b);
      PastUnit(a, b, n);
      CleanCut(a[n..], b);
      DecodeCons(a + b);
      DecodeCons(a);
      Reassociate([UnitChar(a[..n])], Decode(a[n..]), Decode(b));
    }
  }

  lemma {:induction false} DecodeCons(s: seq<Byte>)
    requires s != []
    ensures UnitLen(s[..UnitLen(s)]) == UnitLen(s)
    ensures Decode(s) == [UnitChar(s[..UnitLen(s)])] + Decode(s[UnitLen(s)..])
  {
    UnitAlone(s);
  }

  lemma {:induction false} Reassociate(a: string, b: string, c: string)
    ensures a + (b + c) == (a + b) + c
  {
  }

  /** Cut inside one, they decode to more characters; cut anywhere, to no
      fewer. */
  lemma {:induction false} CutAdds(a: seq<Byte>, b: seq<Byte>)
    ensures |Decode(a)| + |Decode(b)| >= |Decode(a + b)|
    ensures !Border(a + b, |a|) ==> |Decode(a)| + |Decode(b)| > |Decode(a + b)|
    decreases |a|
  {
    if a == [] {
      assert a + b == b;
    } else {
      var n := UnitLen(a + b);
      BorderStep(a + b, |a|);
      if n <= |a| {
        UnitOfPrefix(a, b);
        PastUnit(a, b, n);
        DecodeStep(a + b);
        DecodeStep(a);
        CutAdds(a[n..], b);
      } else {
        SplitUnit(a, b);
      }
    }
  }

  lemma {:induction false} SplitUnit(a: seq<Byte>, b: seq<Byte>)
    requires a != [] && UnitLen(a + b) > |a|
    ensures |Decode(a)| + |Decode(b)| > |Decode(a + b)|
  {
    var s, n := a + b, UnitLen(a + b);
    var k := n - |a|;
    UnitOfPrefix(a, b);
    DecodeStep(s);
    DecodeStep(a);
    assert a[|a|..] == [] && Decode([]) == "";
    TailsOfUnit(a, b, k);
    StrayTails(b, k);
    assert s[n..] == b[k..];
  }

  lemma {:induction false} TailsOfUnit(a: seq<Byte>, b: seq<Byte>, k: nat)
    requires a != [] && UnitLen(a + b) == |a| + k
    ensures k <= |b| && forall i :: 0 <= i < k ==> IsTail(b[i])
  {
    forall i | 0 <= i < k ensures IsTail(b[i]) {
      assert (a + b)[|a| + i] == b[i];
    }
  }

  // ---- Chunks ----

  function Whole(chunks: seq<seq<Byte>>): seq<Byte>
    decreases |chunks|
  {
    if chunks == [] then [] else chunks[0] + Whole(chunks[1..])
  }

  /** What decoding each chunk on its own gives. */
  function Decoded(chunks: seq<seq<Byte>>): string
    decreases |chunks|
  {
    if chunks == [] then "" else Decode(chunks[0]) + Decoded(chunks[1..])
  }

  /** No chunk ends inside a character of what it begins. */
  predicate NoneSplit(chunks: seq<seq<Byte>>)
    decreases |chunks|
  {
    chunks == [] || (Border(Whole(chunks), |chunks[0]|) && NoneSplit(chunks[1..]))
  }

  /** Decoding chunk by chunk gives the decoded whole exactly when no chunk ends
      inside a character, on any bytes, well-formed or not. */
  lemma {:induction false} DecodesWholeIff(chunks: seq<seq<Byte>>)
    ensures Decoded(chunks) == Decode(Whole(chunks)) <==> NoneSplit(chunks)
    ensures |Decoded(chunks)| >= |Decode(Whole(chunks))|
    ensures !NoneSplit(chunks) ==> |Decoded(chunks)| > |Decode(Whole(chunks))|
    decreases |chunks|
  {
    if chunks != [] {
      var a, rest := chunks[0], chunks[1..];
      DecodesWholeIff(rest);
      CutAdds(a, Whole(rest));
      if NoneSplit(chunks) {
        CleanCut(a, Whole(rest));
      }
    }
  }

  /** The ends of the chunks are borders of the whole, each one. */
  lemma {:induction false} NoneSplitMeans(chunks: seq<seq<Byte>>)
    ensures NoneSplit(chunks) <==> forall k :: 0 <= k <= |chunks| ==> Border(Whole(chunks), |Whole(chunks[..k])|)
    decreases |chunks|
  {
    assert Whole(chunks[..0]) == [];
    if chunks != [] {
      var a, rest := chunks[0], chunks[1..];
      NoneSplitMeans(rest);
      forall k | 1 <= k <= |chunks| ensures Whole(chunks[..k]) == a + Whole(rest[..k - 1]) {
        assert chunks[..k][1..] == rest[..k - 1];
      }
      assert Whole(chunks[..1]) == a + Whole(rest[..0]) && rest[..0] == [];
      if Border(Whole(chunks), |a|) {
        forall k | 1 <= k <= |chunks|
          ensures Border(Whole(chunks), |Whole(chunks[..k])|) <==> Border(Whole(rest), |Whole(rest[..k - 1])|)
        {
          BorderBehind(a, Whole(rest), |Whole(rest[..k - 1])|);
        }
        forall k | 0 <= k <= |rest| ensures Border(Whole(chunks), |Whole(chunks[..k + 1])|) <==> Border(Whole(rest), |Whole(rest[..k])|) {
        }
      } else {
        assert Whole(chunks[..1]) == a;
      }
    }
  }

  lemma {:induction false} BorderBehind(a: seq<Byte>, b: seq<Byte>, m: nat)
    requires Border(a + b, |a|)
    ensures Border(a + b, |a| + m) <==> Border(b, m)
    decreases |a|
  {
    if a == [] {
      assert a + b == b;
    } else {
      var s, n := a + b, UnitLen(a + b);
      BorderStep(s, |a|);
      PastUnit(a, b, n);
      assert s[n..] == a[n..] + b && |a[n..]| == |a| - n;
      BorderStep(s, |a| + m);
      assert |a| + m - n == |a[n..]| + m;
      BorderBehind(a[n..], b, m);
    }
  }

  lemma {:induction false} PastUnit(a: seq<Byte>, b: seq<Byte>, n: nat)
    requires n <= |a|
    ensures (a + b)[n..] == a[n..] + b && (a + b)[..n] == a[..n] && |a[n..]| == |a| - n
  {
  }

  lemma {:induction false} BorderStep(s: seq<Byte>, n: nat)
    requires s != [] && n > 0
    ensures Border(s, n) <==> UnitLen(s) <= n && Border(s[UnitLen(s)..], n - UnitLen(s))
  {
  }
}
