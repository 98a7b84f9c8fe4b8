/** The lens laws on whole texts, carriage returns included. */
module TomlLaws {
  import opened Options
  import opened Text
  import opened TomlEdit
  import opened TomlLens

  // ---- A trailing carriage return means nothing to the scan ----

  lemma {:induction false} TrimStartSnoc(s: string, c: char)
    requires IsWhitespace(c)
    ensures TrimStart(s + [c], IsWhitespace) ==
      if TrimStart(s, IsWhitespace) == "" then "" else TrimStart(s, IsWhitespace) + [c]
    decreases |s|
  {
    if s == "" {
      assert ([c])[1..] == "";
      assert s + [c] == [c];
    } else {
      assert (s + [c])[1..] == s[1..] + [c];
      if IsWhitespace(s[0]) { TrimStartSnoc(s[1..], c); }
    }
  }

  lemma {:induction false} TrimSnoc(s: string, c: char)
    requires IsWhitespace(c)
    ensures Trim(s + [c], IsWhitespace) == Trim(s, IsWhitespace)
  {
    TrimStartSnoc(s, c);
    var t := TrimStart(s, IsWhitespace);
    assert (t + [c])[..|t|] == t;
  }

  lemma {:induction false} StripSplit(line: string)
    requires EndsCr(line)
    ensures line == StripCr(line) + ['\r']
  {
  }

  lemma {:induction false} StripHeader(line: string)
    ensures SectionInHeader(StripCr(line)) == SectionInHeader(line)
    ensures IsBlank(StripCr(line)) == IsBlank(line)
  {
    if EndsCr(line) {
      StripSplit(line);
      TrimSnoc(StripCr(line), '\r');
    }
  }

  lemma {:induction false} NameHasNoCr(key: string)
    requires IsName(key)
    ensures !EndsCr(key)
  {
  }

  lemma {:induction false} StripAssignment(line: string, key: string)
    requires IsName(key)
    ensures IsAssignment(StripCr(line), key) == IsAssignment(line, key)
    ensures IsAssignment(line, key) ==> Assigned(StripCr(line), key) == Assigned(line, key)
  {
    if EndsCr(line) {
      var s := StripCr(line);
      StripSplit(line);
      TrimStartSnoc(s, '\r');
      var t := TrimStart(s, IsWhitespace);
      if t != "" {
        StripStart(t, "#");
        StripStart(t, key);
        NameHasNoCr(key);
        if StartsWith(t, key) {
          assert (t + ['\r'])[|key|..] == t[|key|..] + ['\r'];
          StripRest(t[|key|..]);
        } else {
          assert t + ['\r'] != key;
        }
      }
    }
  }

  lemma {:induction false} StripStart(t: string, p: string)
    requires p != "" && !EndsCr(p)
    ensures StartsWith(t + ['\r'], p) == StartsWith(t, p)
  {
  }

  lemma {:induction false} StripRest(rest: string)
    ensures var a, b := TrimStart(rest + ['\r'], IsWhitespace), TrimStart(rest, IsWhitespace);
      && StartsWith(a, "=") == StartsWith(b, "=")
      && (StartsWith(b, "=") ==> Trim(a[1..], IsWhitespace) == Trim(b[1..], IsWhitespace))
  {
    TrimStartSnoc(rest, '\r');
    var b := TrimStart(rest, IsWhitespace);
    StripStart(b, "=");
    if StartsWith(b, "=") {
      assert (b + ['\r'])[1..] == b[1..] + ['\r'];
      TrimSnoc(b[1..], '\r');
    }
  }

  lemma {:induction false} FoundStripped(lines: seq<string>, inside: bool, section: string, key: string)
    requires IsName(key)
    ensures KeyAt(StripAll(lines), inside, section, key) == KeyAt(lines, inside, section, key)
    ensures var line := Found(lines, inside, section, key);
      Found(StripAll(lines), inside, section, key) == if line.None? then None else Some(StripCr(line.value))
    decreases |lines|
  {
    if lines != [] {
      StripHeader(lines[0]);
      StripAssignment(lines[0], key);
      FoundStripped(lines[1..], Target(lines[0], inside, section), section, key);
      assert StripAll(lines)[1..] == StripAll(lines[1..]);
    }
  }

  /** What a key reads as does not depend on trailing carriage returns. */
  lemma {:induction false} ReadLines(lines: seq<string>, section: string, key: string)
    requires IsName(key) && lines != [] && AllOneLine(lines)
    ensures var line := Found(lines, false, section, key);
      Read(Unlines(lines), section, key) == if line.None? then None else Some(Assigned(line.value, key))
  {
    LinesUnlines(lines);
    FoundStripped(lines, false, section, key);
    var line := Found(lines, false, section, key);
    if line.Some? { StripAssignment(line.value, key); }
  }

  // ---- The laws ----

  predicate AllOf(lines: seq<string>, p: string -> bool) { forall i :: 0 <= i < |lines| ==> p(lines[i]) }

  lemma {:induction false} AllOfConcat(a: seq<string>, b: seq<string>, p: string -> bool)
    ensures AllOf(a + b, p) <==> AllOf(a, p) && AllOf(b, p)
  {
    assert forall i :: 0 <= i < |a| ==> (a + b)[i] == a[i];
    assert forall i :: 0 <= i < |b| ==> (a + b)[|a| + i] == b[i];
  }

  lemma {:induction false} AllOfPrefix(a: seq<string>, n: nat, p: string -> bool)
    requires n <= |a|
    ensures AllOf(a, p) <==> AllOf(a[..n], p) && AllOf(a[n..], p)
  {
  }

  lemma {:induction false} AllOfOne(line: string, p: string -> bool)
    ensures AllOf([line], p) <==> p(line)
  {
    assert [line][0] == line;
  }

  lemma {:induction false} AllOfMiddle(a: seq<string>, line: string, b: seq<string>, p: string -> bool)
    requires p(line)
    ensures AllOf(a + [line] + b, p) <==> AllOf(a, p) && AllOf(b, p)
  {
    AllOfConcat(a + [line], b, p);
    AllOfConcat(a, [line], p);
    AllOfOne(line, p);
  }

  /** The lines of an edit are good when those it keeps are, and its own. */
  lemma {:induction false} AllOfEdit(lines: seq<string>, section: string, key: string, value: bool, p: string -> bool)
    requires p("") && p(HeaderLine(section)) && p(Canonical(key, value))
    ensures var k := KeyAt(lines, false, section, key);
      AllOf(Edit(lines, section, key, value), p) <==>
      if k.Some? then AllOf(lines[..k.value], p) && AllOf(lines[k.value + 1..], p) else AllOf(lines, p)
  {
    var c := CutOf(lines, section, key);
    EditKeepsLines(lines, section, key, value);
    AllOfMiddle(c.pre, Canonical(key, value), c.post, p);
    AllOfCut(lines, section, key, p);
  }

  /** What an edit keeps is good when the lines it does not replace are. */
  lemma {:induction false} AllOfCut(lines: seq<string>, section: string, key: string, p: string -> bool)
    requires p("") && p(HeaderLine(section))
    ensures var c, k := CutOf(lines, section, key), KeyAt(lines, false, section, key);
      (AllOf(c.pre, p) && AllOf(c.post, p)) <==>
      (if k.Some? then AllOf(lines[..k.value], p) && AllOf(lines[k.value + 1..], p) else AllOf(lines, p))
  {
    var k, h := KeyAt(lines, false, section, key), HeaderAt(lines, section);
    if k.None? && h.Some? {
      AllOfPrefix(lines, h.value + 1, p);
    } else if k.None? {
      AllOfAppended(lines, if AnyText(lines) then [""] else [], HeaderLine(section), p);
    }
  }

  lemma {:induction false} AllOfAppended(lines: seq<string>, gap: seq<string>, header: string, p: string -> bool)
    requires p(header) && AllOf(gap, p)
    ensures AllOf(lines + gap + [header], p) <==> AllOf(lines, p)
  {
    AllOfConcat(lines, gap, p);
    AllOfConcat(lines + gap, [header], p);
    AllOfOne(header, p);
  }

  predicate NoCr(line: string) { !EndsCr(line) }

  lemma {:induction false} EditOneLine(lines: seq<string>, section: string, key: string, value: bool)
    requires IsName(section) && IsName(key) && AllOneLine(lines)
    ensures AllOneLine(Edit(lines, section, key, value)) && Edit(lines, section, key, value) != []
  {
    CanonicalAssigns(key, value);
    HeaderLineNames(section);
    OneLines(lines);
    AllOfEdit(lines, section, key, value, OneLine);
    var k := KeyAt(lines, false, section, key);
    if k.Some? {
      AllOfPrefix(lines, k.value, OneLine);
      AllOfPrefix(lines, k.value + 1, OneLine);
    }
    assert AllOf(Edit(lines, section, key, value), OneLine);
    OneLines(Edit(lines, section, key, value));
    EditKeepsLines(lines, section, key, value);
    assert Canonical(key, value) in Edit(lines, section, key, value);
  }

  lemma {:induction false} OneLines(lines: seq<string>)
    ensures AllOneLine(lines) <==> AllOf(lines, OneLine)
  {
    if AllOf(lines, OneLine) {
      forall i | 0 <= i < |lines| ensures OneLine(lines[i]) {
      }
    }
  }

  /** What was set is read back, from any text. */
  lemma {:induction false} SetThenRead(text: string, section: string, key: string, value: bool)
    requires IsName(section) && IsName(key)
    ensures Read(SetBool(text, section, key, value), section, key) == Some(if value then "true" else "false")
  {
    var lines := Lines(text);
    LinesAreLines(text);
    EditOneLine(lines, section, key, value);
    EditReads(lines, section, key, value);
    CanonicalAssigns(key, value);
    ReadLines(Edit(lines, section, key, value), section, key);
  }

  /** Every other key, and the same key in every other section, reads as before. */
  lemma {:induction false} SetKeepsOthers(text: string, section: string, key: string, value: bool, section2: string, key2: string)
    requires IsName(section) && IsName(key) && IsName(key2) && (section != section2 || key != key2)
    ensures Read(SetBool(text, section, key, value), section2, key2) == Read(text, section2, key2)
  {
    var lines := Lines(text);
    LinesAreLines(text);
    EditOneLine(lines, section, key, value);
    EditOther(lines, section, key, value, section2, key2);
    ReadLines(Edit(lines, section, key, value), section2, key2);
  }

  /** No line that the edit keeps still ends with a carriage return. */
  predicate KeepsNoCr(text: string, section: string, key: string)
  {
    var lines, k := Lines(text), KeyAt(Lines(text), false, section, key);
    forall i :: 0 <= i < |lines| && Some(i) != k ==> !EndsCr(lines[i])
  }

  lemma {:induction false} KeepsNoCrOf(text: string, section: string, key: string, value: bool)
    requires IsName(section) && IsName(key)
    ensures AllOf(Edit(Lines(text), section, key, value), NoCr) <==> KeepsNoCr(text, section, key)
  {
    CanonicalAssigns(key, value);
    HeaderLineNames(section);
    AllOfEdit(Lines(text), section, key, value, NoCr);
    AllButOne(Lines(text), KeyAt(Lines(text), false, section, key));
  }

  lemma {:induction false} AllButOne(lines: seq<string>, k: Option<nat>)
    requires k.Some? ==> k.value < |lines|
    ensures (if k.Some? then AllOf(lines[..k.value], NoCr) && AllOf(lines[k.value + 1..], NoCr) else AllOf(lines, NoCr))
       <==> (forall i :: 0 <= i < |lines| && Some(i) != k ==> !EndsCr(lines[i]))
  {
  }

  lemma {:induction false} StripNothing(lines: seq<string>)
    ensures StripAll(lines) == lines <==> AllOf(lines, NoCr)
  {
    StripAllAt(lines);
    if AllOf(lines, NoCr) {
      assert forall i :: 0 <= i < |lines| ==> NoCr(lines[i]);
      assert StripAll(lines) == lines;
    }
    if StripAll(lines) == lines {
      forall i | 0 <= i < |lines| ensures NoCr(lines[i]) {
        assert StripAll(lines)[i] == StripCr(lines[i]);
      }
    }
  }

  /** Writing the first value and then the second gives the stripped lines of
      writing the second alone. */
  lemma {:induction false} TwiceIsStripped(lines: seq<string>, section: string, key: string, first: bool, second: bool)
    requires IsName(section) && IsName(key)
    ensures Edit(StripAll(Edit(lines, section, key, first)), section, key, second)
         == StripAll(Edit(lines, section, key, second))
  {
    var c, m, e := CutOf(lines, section, key), Edit(lines, section, key, first), Edit(lines, section, key, second);
    EditKeepsLines(lines, section, key, first);
    EditKeepsLines(lines, section, key, second);
    EditReads(lines, section, key, first);
    FoundStripped(m, false, section, key);
    CanonicalAssigns(key, second);
    StripAllAt(m);
    StripAllAt(e);
    Replaced(c.pre, c.post, Canonical(key, first), Canonical(key, second));
  }

  lemma {:induction false} Replaced(pre: seq<string>, post: seq<string>, a: string, b: string)
    requires !EndsCr(b)
    ensures var m, e, n := StripAll(pre + [a] + post), StripAll(pre + [b] + post), |pre|;
      n < |m| && m[..n] + [b] + m[n + 1..] == e
  {
    StripAllAt(pre + [a] + post);
    StripAllAt(pre + [b] + post);
  }

  lemma {:induction false} UnlinesInjective(a: seq<string>, b: seq<string>)
    requires a != [] && b != [] && AllOneLine(a) && AllOneLine(b) && Unlines(a) == Unlines(b)
    ensures a == b
  {
    SplitUnlines(a);
    SplitUnlines(b);
    assert (a + [""])[..|a|] == a && (b + [""])[..|b|] == b;
  }

  lemma {:induction false} StripAllOneLine(lines: seq<string>)
    requires AllOneLine(lines)
    ensures AllOneLine(StripAll(lines))
  {
    StripAllAt(lines);
  }

  /** A second set overrides the first textually exactly when no line that is
      kept still ends with a carriage return; text without any always does. */
  lemma {:induction false} SetTwiceIff(text: string, section: string, key: string, first: bool, second: bool)
    requires IsName(section) && IsName(key)
    ensures SetBool(SetBool(text, section, key, first), section, key, second) == SetBool(text, section, key, second)
        <==> KeepsNoCr(text, section, key)
  {
    var lines := Lines(text);
    var m, e := Edit(lines, section, key, first), Edit(lines, section, key, second);
    LinesAreLines(text);
    EditOneLine(lines, section, key, first);
    EditOneLine(lines, section, key, second);
    LinesUnlines(m);
    TwiceIsStripped(lines, section, key, first, second);
    StripAllOneLine(e);
    StripNothing(e);
    KeepsNoCrOf(text, section, key, second);
    if Unlines(StripAll(e)) == Unlines(e) {
      UnlinesInjective(StripAll(e), e);
    }
  }

  lemma {:induction false} NoCrText(text: string, section: string, key: string)
    requires '\r' !in text
    ensures KeepsNoCr(text, section, key)
  {
    var pieces := SplitOn(text, '\n');
    PiecesOf(text);
    StripAllAt(pieces[..|pieces| - 1]);
    var lines := Lines(text);
    forall i | 0 <= i < |lines| ensures !EndsCr(lines[i]) {
      assert '\r' !in lines[i];
    }
  }

  lemma {:induction false} PiecesOf(text: string)
    requires '\r' !in text
    ensures forall i :: 0 <= i < |SplitOn(text, '\n')| ==> '\r' !in SplitOn(text, '\n')[i]
  {
    if text != "" {
      PiecesOf(text[1..]);
    }
  }

  /** On text without carriage returns, setting the same value again changes
      nothing. */
  lemma {:induction false} SetIsIdempotent(text: string, section: string, key: string, value: bool)
    requires IsName(section) && IsName(key) && '\r' !in text
    ensures SetBool(SetBool(text, section, key, value), section, key, value) == SetBool(text, section, key, value)
  {
    NoCrText(text, section, key);
    SetTwiceIff(text, section, key, value, value);
  }

  /** A kept line that ends in two carriage returns loses one at each set. */
  lemma {:induction false} StrayReturnBreaksOverride()
    ensures var text := "\r\r\n";
      SetBool(SetBool(text, "s", "k", true), "s", "k", false) != SetBool(text, "s", "k", false)
  {
    var text := "\r\r\n";
    assert text == "\r\r" + "\n" + "";
    SplitLine("\r\r", "");
    assert SplitOn(text, '\n') == ["\r\r", ""];
    assert ["\r\r", ""][..1] == ["\r\r"] && ["\r\r"][1..] == [];
    assert StripCr("\r\r") == "\r";
    assert StripAll(["\r\r"]) == ["\r"] + StripAll([]);
    var lines := Lines(text);
    assert lines == ["\r"];
    assert !KeepsNoCr(text, "s", "k") by {
      assert EndsCr(lines[0]);
      assert KeyAt(lines, false, "s", "k").None? by { assert lines[1..] == []; }
    }
    assert IsName("s") && IsName("k");
    SetTwiceIff(text, "s", "k", true, false);
  }
}
