/** The lens laws of the TOML edit: what is set is read back, a second set
    overrides the first, and every other key reads as before. */
module TomlLens {
  import opened Options
  import opened Text
  import opened TomlEdit

  // ---- Reading ----

  /** The line that assigns `key` inside `section`. */
  function Found(lines: seq<string>, inside: bool, section: string, key: string): (r: Option<string>)
    ensures r.Some? ==> IsAssignment(r.value, key)
  {
    if lines == [] then None
    else if Holds(lines[0], inside, key) then Some(lines[0])
    else Found(lines[1..], Target(lines[0], inside, section), section, key)
  }

  /** Whether the scan stands inside `section` after `lines`. */
  predicate Inside(lines: seq<string>, inside: bool, section: string)
  {
    if lines == [] then inside else Inside(lines[1..], Target(lines[0], inside, section), section)
  }

  /** The text assigned to `key` in `section`. */
  function Read(text: string, section: string, key: string): Option<string>
  {
    var line := Found(Lines(text), false, section, key);
    if line.None? then None else Some(Assigned(line.value, key))
  }

  lemma {:induction false} FoundConcat(a: seq<string>, b: seq<string>, inside: bool, section: string, key: string)
    ensures Found(a + b, inside, section, key) ==
      if Found(a, inside, section, key).Some? then Found(a, inside, section, key)
      else Found(b, Inside(a, inside, section), section, key)
  {
    if a == [] {
      assert a + b == b;
    } else {
      assert (a + b)[1..] == a[1..] + b;
      FoundConcat(a[1..], b, Target(a[0], inside, section), section, key);
    }
  }

  lemma {:induction false} KeyAtCons(line: string, rest: seq<string>, inside: bool, section: string, key: string)
    requires !Holds(line, inside, key)
    ensures KeyAt([line] + rest, inside, section, key) == Later(KeyAt(rest, Target(line, inside, section), section, key))
  {
  }

  lemma {:induction false} KeyAtConcat(a: seq<string>, b: seq<string>, inside: bool, section: string, key: string)
    requires Found(a, inside, section, key).None?
    ensures KeyAt(a + b, inside, section, key) == Shift(KeyAt(b, Inside(a, inside, section), section, key), |a|)
    decreases |a|
  {
    if a == [] {
      assert a + b == b;
    } else {
      var flag, rest := Target(a[0], inside, section), a[1..] + b;
      FoundNoneCons(a, inside, section, key);
      KeyAtConcat(a[1..], b, flag, section, key);
      assert a + b == [a[0]] + rest && Inside(a, inside, section) == Inside(a[1..], flag, section);
      KeyAtCons(a[0], rest, inside, section, key);
      LaterShift(KeyAt(b, Inside(a, inside, section), section, key), |a| - 1);
    }
  }

  lemma {:induction false} LaterShift(r: Option<nat>, n: nat)
    ensures Later(Shift(r, n)) == Shift(r, n + 1)
  {
  }

  lemma {:induction false} FoundNoneCons(a: seq<string>, inside: bool, section: string, key: string)
    requires a != [] && Found(a, inside, section, key).None?
    ensures var flag := Target(a[0], inside, section);
      && !Holds(a[0], inside, key) && Found(a[1..], flag, section, key).None?
      && Inside(a, inside, section) == Inside(a[1..], flag, section)
  {
  }

  lemma {:induction false} KeyAtFound(lines: seq<string>, inside: bool, section: string, key: string)
    ensures var k := KeyAt(lines, inside, section, key);
      if k.None? then Found(lines, inside, section, key).None?
      else (
        && Found(lines[..k.value], inside, section, key).None?
        && Holds(lines[k.value], Inside(lines[..k.value], inside, section), key))
  {
    if lines != [] && !Holds(lines[0], inside, key) {
      var inside' := Target(lines[0], inside, section);
      KeyAtFound(lines[1..], inside', section, key);
      var k := KeyAt(lines[1..], inside', section, key);
      if k.Some? {
        assert lines[..k.value + 1][1..] == lines[1..][..k.value];
      }
    }
  }

  /** Up to its first header, a section is not entered. */
  lemma {:induction false} HeaderAtInside(lines: seq<string>, section: string, key: string)
    ensures var h := HeaderAt(lines, section);
      if h.None? then !Inside(lines, false, section)
      else Found(lines[..h.value + 1], false, section, key).None? && Inside(lines[..h.value + 1], false, section)
  {
    if lines != [] {
      if SectionInHeader(lines[0]) == Some(section) {
        assert lines[..1][1..] == [];
      } else {
        HeaderAtInside(lines[1..], section, key);
        var h := HeaderAt(lines[1..], section);
        if h.Some? {
          assert lines[..h.value + 2][1..] == lines[1..][..h.value + 1];
        }
      }
    }
  }

  lemma {:induction false} InsideOne(lines: seq<string>, a: bool, section: string, b: bool, other: string)
    requires section != other && !(a && b)
    ensures !(Inside(lines, a, section) && Inside(lines, b, other))
  {
    if lines != [] {
      InsideOne(lines[1..], Target(lines[0], a, section), section, Target(lines[0], b, other), other);
    }
  }

  // ---- The lines written ----

  lemma {:induction false} TrimClean(s: string)
    requires s != "" && !IsWhitespace(s[0]) && !IsWhitespace(s[|s| - 1])
    ensures Trim(s, IsWhitespace) == s && TrimStart(s, IsWhitespace) == s
  {
  }

  lemma {:induction false} NameCharIsPlain(c: char)
    requires IsNameChar(c)
    ensures !IsWhitespace(c) && c != '[' && c != ']' && c != '#' && c != '=' && c != '\n'
  {
  }

  lemma {:induction false} HeaderLineNames(section: string)
    requires IsName(section)
    ensures SectionInHeader(HeaderLine(section)) == Some(section) && OneLine(HeaderLine(section)) && !EndsCr(HeaderLine(section))
  {
    var t := HeaderLine(section);
    TrimClean(t);
    assert t[1..] == section + "]";
    FindCloser(section);
    NameCharIsPlain(section[0]);
    forall i | 0 <= i < |t| ensures t[i] != '\n' {
      if 0 < i < |t| - 1 { NameCharIsPlain(section[i - 1]); }
    }
  }

  lemma {:induction false} FindCloser(section: string)
    requires forall i :: 0 <= i < |section| ==> IsNameChar(section[i])
    ensures FindChar(section + "]", IsCloser) == Some(|section|)
  {
    if section != "" {
      NameCharIsPlain(section[0]);
      assert (section + "]")[1..] == section[1..] + "]";
      FindCloser(section[1..]);
    }
  }

  lemma {:induction false} CanonicalAssigns(key: string, value: bool)
    requires IsName(key)
    ensures var line := Canonical(key, value);
      && SectionInHeader(line).None? && OneLine(line) && !EndsCr(line)
      && IsAssignment(line, key) && Assigned(line, key) == Literal(value)
  {
    var line := Canonical(key, value);
    NameCharIsPlain(key[0]);
    assert line[0] == key[0];
    TrimClean(line);
    assert line[|key|..] == " = " + Literal(value);
    CanonicalRest(value);
    CanonicalOneLine(key, value);
  }

  lemma {:induction false} CanonicalOneLine(key: string, value: bool)
    requires IsName(key)
    ensures OneLine(Canonical(key, value)) && !EndsCr(Canonical(key, value))
  {
  }

  lemma {:induction false} CanonicalRest(value: bool)
    ensures var rest := TrimStart(" = " + Literal(value), IsWhitespace);
      StartsWith(rest, "=") && Trim(rest[1..], IsWhitespace) == Literal(value)
  {
    var word := Literal(value);
    TrimClean(word);
    Unspace("= " + word);
    assert TrimStart("= " + word, IsWhitespace) == "= " + word;
    assert " = " + word == " " + ("= " + word);
    assert ("= " + word)[1..] == " " + word;
    Unspace(word);
  }

  lemma {:induction false} Unspace(s: string)
    ensures TrimStart(" " + s, IsWhitespace) == TrimStart(s, IsWhitespace)
  {
  }

  // ---- The laws, on lines ----

  /** Where the edit puts its line, between what stays before and after. */
  datatype Cut = Cut(pre: seq<string>, gone: seq<string>, post: seq<string>)

  function CutOf(lines: seq<string>, section: string, key: string): Cut
  {
    var k, h := KeyAt(lines, false, section, key), HeaderAt(lines, section);
    if k.Some? then Cut(lines[..k.value], [lines[k.value]], lines[k.value + 1..])
    else if h.Some? then Cut(lines[..h.value + 1], [], lines[h.value + 1..])
    else Cut(lines + (if AnyText(lines) then [""] else []) + [HeaderLine(section)], [], [])
  }

  /** The edit writes one line; every other line survives, in order, and a
      section that was missing is appended. */
  lemma {:induction false} EditKeepsLines(lines: seq<string>, section: string, key: string, value: bool)
    ensures var c := CutOf(lines, section, key);
      && Edit(lines, section, key, value) == c.pre + [Canonical(key, value)] + c.post
      && (HeaderAt(lines, section).Some? || KeyAt(lines, false, section, key).Some? ==> lines == c.pre + c.gone + c.post)
      && (HeaderAt(lines, section).None? && KeyAt(lines, false, section, key).None? ==> lines <= c.pre && c.post == [])
  {
  }

  lemma {:induction false} HeaderIsNothing(section: string, inside: bool, other: string, key: string)
    requires IsName(section)
    ensures Found([HeaderLine(section)], inside, other, key).None?
    ensures Inside([HeaderLine(section)], inside, other) == (section == other)
  {
    HeaderLineNames(section);
    assert [HeaderLine(section)][1..] == [];
  }

  lemma {:induction false} GapIsNothing(inside: bool, other: string, key: string)
    requires IsName(key)
    ensures Found([""], inside, other, key).None? && Inside([""], inside, other) == inside
  {
  }

  lemma {:induction false} InsideConcat(a: seq<string>, b: seq<string>, inside: bool, section: string)
    ensures Inside(a + b, inside, section) == Inside(b, Inside(a, inside, section), section)
  {
    if a == [] {
      assert a + b == b;
    } else {
      assert (a + b)[1..] == a[1..] + b;
      InsideConcat(a[1..], b, Target(a[0], inside, section), section);
    }
  }

  /** What is appended before the new key holds no key, and ends inside the
      section. */
  lemma {:induction false} Appended(lines: seq<string>, section: string, other: string, key: string)
    requires IsName(section) && IsName(key)
    ensures var pre := lines + (if AnyText(lines) then [""] else []) + [HeaderLine(section)];
      && Found(pre, false, other, key) == Found(lines, false, other, key)
      && Inside(pre, false, other) == (section == other)
  {
    var gap := if AnyText(lines) then [""] else [];
    FoundConcat(lines, gap, false, other, key);
    InsideConcat(lines, gap, false, other);
    GapIsNothing(Inside(lines, false, other), other, key);
    FoundConcat(lines + gap, [HeaderLine(section)], false, other, key);
    InsideConcat(lines + gap, [HeaderLine(section)], false, other);
    HeaderIsNothing(section, Inside(lines + gap, false, other), other, key);
  }

  /** The line is written inside its section, behind no other line for it. */
  lemma {:induction false} CutInside(lines: seq<string>, section: string, key: string)
    requires IsName(section) && IsName(key)
    ensures var c := CutOf(lines, section, key);
      Found(c.pre, false, section, key).None? && Inside(c.pre, false, section)
  {
    KeyAtFound(lines, false, section, key);
    HeaderAtInside(lines, section, key);
    if KeyAt(lines, false, section, key).None? && HeaderAt(lines, section).None? {
      Appended(lines, section, section, key);
    }
  }

  /** The edited lines read back the value, at the place of the edit. */
  lemma {:induction false} EditReads(lines: seq<string>, section: string, key: string, value: bool)
    requires IsName(section) && IsName(key)
    ensures var c, e := CutOf(lines, section, key), Edit(lines, section, key, value);
      && Found(e, false, section, key) == Some(Canonical(key, value))
      && KeyAt(e, false, section, key) == Some(|c.pre|)
  {
    var c, line := CutOf(lines, section, key), Canonical(key, value);
    EditKeepsLines(lines, section, key, value);
    CutInside(lines, section, key);
    CanonicalAssigns(key, value);
    ReadsBehind(c.pre, line, c.post, section, key);
  }

  /** A line that holds the key, behind lines that do not but enter its section. */
  lemma {:induction false} ReadsBehind(pre: seq<string>, line: string, post: seq<string>, section: string, key: string)
    requires Found(pre, false, section, key).None? && Inside(pre, false, section) && Holds(line, true, key)
    ensures Found(pre + [line] + post, false, section, key) == Some(line)
    ensures KeyAt(pre + [line] + post, false, section, key) == Some(|pre|)
  {
    assert pre + [line] + post == pre + ([line] + post);
    FoundConcat(pre, [line] + post, false, section, key);
    KeyAtConcat(pre, [line] + post, false, section, key);
    HoldsFirst(line, post, section, key);
  }

  lemma {:induction false} HoldsFirst(line: string, post: seq<string>, section: string, key: string)
    requires Holds(line, true, key)
    ensures Found([line] + post, true, section, key) == Some(line) && KeyAt([line] + post, true, section, key) == Some(0)
  {
  }

  /** A second edit overrides the first. */
  lemma {:induction false} EditTwice(lines: seq<string>, section: string, key: string, first: bool, second: bool)
    requires IsName(section) && IsName(key)
    ensures Edit(Edit(lines, section, key, first), section, key, second) == Edit(lines, section, key, second)
  {
    var c, e := CutOf(lines, section, key), Edit(lines, section, key, first);
    EditKeepsLines(lines, section, key, first);
    EditKeepsLines(lines, section, key, second);
    EditReads(lines, section, key, first);
    assert e[..|c.pre|] == c.pre && e[|c.pre| + 1..] == c.post;
  }

  lemma {:induction false} Skipped(line: string, post: seq<string>, inside: bool, section: string, key: string)
    requires SectionInHeader(line).None? && !(inside && IsAssignment(line, key))
    ensures Found([line] + post, inside, section, key) == Found(post, inside, section, key)
  {
  }

  /** Any other key, or the key in any other section, is read from the line it
      was read from. */
  lemma {:induction false} EditOther(lines: seq<string>, section: string, key: string, value: bool, section2: string, key2: string)
    requires IsName(section) && IsName(key) && IsName(key2) && (section != section2 || key != key2)
    ensures Found(Edit(lines, section, key, value), false, section2, key2) == Found(lines, false, section2, key2)
  {
    var c, line := CutOf(lines, section, key), Canonical(key, value);
    EditKeepsLines(lines, section, key, value);
    CutInside(lines, section, key);
    var inside := Inside(c.pre, false, section2);
    if section != section2 {
      InsideOne(c.pre, false, section, false, section2);
    }
    CanonicalAssigns(key, value);
    OtherName(line, key, key2);
    Skipped(line, c.post, inside, section2, key2);
    GoneSkipped(lines, section, key, inside, section2, key2);
    Through(c.pre, [line], c.gone, c.post, section2, key2);
    if KeyAt(lines, false, section, key).None? && HeaderAt(lines, section).None? {
      Appended(lines, section, section2, key2);
      assert c.pre + c.gone + c.post == c.pre;
    }
  }

  lemma {:induction false} Through(pre: seq<string>, a: seq<string>, b: seq<string>, post: seq<string>, section: string, key: string)
    requires var inside := Inside(pre, false, section);
      Found(a + post, inside, section, key) == Found(b + post, inside, section, key)
    ensures Found(pre + a + post, false, section, key) == Found(pre + b + post, false, section, key)
  {
    FoundConcat(pre, a + post, false, section, key);
    FoundConcat(pre, b + post, false, section, key);
    assert pre + a + post == pre + (a + post) && pre + b + post == pre + (b + post);
  }

  lemma {:induction false} OtherName(line: string, key: string, key2: string)
    requires IsName(key) && IsName(key2) && IsAssignment(line, key)
    ensures key != key2 ==> !IsAssignment(line, key2)
  {
  }

  /** The line replaced meant nothing to another key. */
  lemma {:induction false} GoneSkipped(lines: seq<string>, section: string, key: string, inside: bool, section2: string, key2: string)
    requires IsName(key) && IsName(key2) && (inside ==> key != key2)
    ensures var c := CutOf(lines, section, key);
      Found(c.gone + c.post, inside, section2, key2) == Found(c.post, inside, section2, key2)
  {
    var c := CutOf(lines, section, key);
    KeyAtFound(lines, false, section, key);
    if c.gone == [] {
      assert c.gone + c.post == c.post;
    } else {
      OtherName(c.gone[0], key, key2);
      Skipped(c.gone[0], c.post, inside, section2, key2);
    }
  }
}
