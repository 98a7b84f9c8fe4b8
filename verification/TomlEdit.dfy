/** The line-level TOML edit of src/config.rs: set one boolean in one section
    and leave every other line as it was. */
module TomlEdit {
  import opened Options
  import opened Text

  // ---- Lines of a text ----

  predicate EndsCr(line: string) { line != "" && line[|line| - 1] == '\r' }

  function StripCr(line: string): string { if EndsCr(line) then line[..|line| - 1] else line }

  function StripAll(lines: seq<string>): seq<string>
  {
    if lines == [] then [] else [StripCr(lines[0])] + StripAll(lines[1..])
  }

  /** Rust's `str::lines`: each '\n' ends a line and takes one '\r' before it
      along; a last piece without '\n' is a line unless empty. */
  function Lines(text: string): seq<string>
  {
    var pieces := SplitOn(text, '\n');
    var n := |pieces| - 1;
    StripAll(pieces[..n]) + if pieces[n] == "" then [] else [pieces[n]]
  }

  function Unlines(lines: seq<string>): string { JoinWith(lines, "\n") + "\n" }

  predicate OneLine(line: string) { '\n' !in line }

  predicate AllOneLine(lines: seq<string>) { forall i :: 0 <= i < |lines| ==> OneLine(lines[i]) }

  lemma {:induction false} SplitLine(line: string, rest: string)
    requires OneLine(line)
    ensures SplitOn(line + "\n" + rest, '\n') == [line] + SplitOn(rest, '\n')
  {
    var s := line + "\n" + rest;
    if line == "" {
      assert s[1..] == rest;
    } else {
      assert s[1..] == line[1..] + "\n" + rest;
      SplitLine(line[1..], rest);
      assert s[0] == line[0] != '\n';
      assert [line[0]] + line[1..] == line;
      assert ([line[1..]] + SplitOn(rest, '\n'))[1..] == SplitOn(rest, '\n');
    }
  }

  lemma {:induction false} UnlinesCons(lines: seq<string>)
    requires lines != []
    ensures Unlines(lines) == lines[0] + "\n" + if |lines| == 1 then "" else Unlines(lines[1..])
  {
  }

  lemma {:induction false} SplitUnlines(lines: seq<string>)
    requires lines != [] && AllOneLine(lines)
    ensures SplitOn(Unlines(lines), '\n') == lines + [""]
  {
    UnlinesCons(lines);
    if |lines| == 1 {
      SplitLine(lines[0], "");
    } else {
      SplitLine(lines[0], Unlines(lines[1..]));
      SplitUnlines(lines[1..]);
    }
  }

  /** Writing lines and reading them back costs each at most one '\r'. */
  lemma {:induction false} LinesUnlines(lines: seq<string>)
    requires lines != [] && AllOneLine(lines)
    ensures Lines(Unlines(lines)) == StripAll(lines)
  {
    SplitUnlines(lines);
    assert (lines + [""])[..|lines|] == lines;
  }

  lemma {:induction false} StripAllAt(lines: seq<string>)
    ensures |StripAll(lines)| == |lines| && forall i :: 0 <= i < |lines| ==> StripAll(lines)[i] == StripCr(lines[i])
  {
    if lines != [] {
      StripAllAt(lines[1..]);
    }
  }

  lemma {:induction false} LinesAreLines(text: string)
    ensures AllOneLine(Lines(text))
  {
    var pieces := SplitOn(text, '\n');
    SplitNoSep(text, '\n');
    StripAllAt(pieces[..|pieces| - 1]);
  }

  // ---- Recognizing lines ----

  /** The name in a `[name]` header; none for `[[name]]` and other lines. */
  function SectionInHeader(line: string): Option<string>
  {
    var t := Trim(line, IsWhitespace);
    if t == "" || t[0] != '[' then None
    else
      var close := FindChar(t[1..], IsCloser);
      if close.None? || close.value == 0 || t[1] == '[' then None else Some(t[1..][..close.value])
  }

  predicate IsAssignment(line: string, key: string)
  {
    var t := TrimStart(line, IsWhitespace);
    && !StartsWith(t, "#") && StartsWith(t, key)
    && StartsWith(TrimStart(t[|key|..], IsWhitespace), "=")
  }

  /** What an assignment line assigns, as text. */
  function Assigned(line: string, key: string): string
    requires IsAssignment(line, key)
  {
    Trim(TrimStart(TrimStart(line, IsWhitespace)[|key|..], IsWhitespace)[1..], IsWhitespace)
  }

  predicate IsBlank(line: string) { Trim(line, IsWhitespace) == "" }

  predicate IsNameChar(c: char)
  {
    'a' <= c <= 'z' || 'A' <= c <= 'Z' || '0' <= c <= '9' || c == '_' || c == '-' || c == '.'
  }

  predicate IsName(s: string) { s != "" && forall i :: 0 <= i < |s| ==> IsNameChar(s[i]) }

  function Literal(value: bool): string { if value then "true" else "false" }

  function Canonical(key: string, value: bool): string { key + " = " + Literal(value) }

  function HeaderLine(section: string): string { "[" + section + "]" }

  // ---- The scan ----

  predicate Target(line: string, inside: bool, section: string)
  {
    var name := SectionInHeader(line);
    if name.Some? then name.value == section else inside
  }

  predicate Holds(line: string, inside: bool, key: string)
  {
    inside && SectionInHeader(line).None? && IsAssignment(line, key)
  }

  function Later(r: Option<nat>): Option<nat> { if r.None? then None else Some(r.value + 1) }

  /** The first assignment to `key` inside `section`. */
  function KeyAt(lines: seq<string>, inside: bool, section: string, key: string): (r: Option<nat>)
    ensures r.Some? ==> r.value < |lines|
  {
    if lines == [] then None
    else if Holds(lines[0], inside, key) then Some(0)
    else Later(KeyAt(lines[1..], Target(lines[0], inside, section), section, key))
  }

  function HeaderAt(lines: seq<string>, section: string): (r: Option<nat>)
    ensures r.Some? ==> r.value < |lines|
  {
    if lines == [] then None
    else if SectionInHeader(lines[0]) == Some(section) then Some(0)
    else Later(HeaderAt(lines[1..], section))
  }

  predicate AnyText(lines: seq<string>)
  {
    lines != [] && (!IsBlank(lines[0]) || AnyText(lines[1..]))
  }

  function Edit(lines: seq<string>, section: string, key: string, value: bool): seq<string>
  {
    var k, h, line := KeyAt(lines, false, section, key), HeaderAt(lines, section), Canonical(key, value);
    if k.Some? then lines[..k.value] + [line] + lines[k.value + 1..]
    else if h.Some? then lines[..h.value + 1] + [line] + lines[h.value + 1..]
    else lines + (if AnyText(lines) then [""] else []) + [HeaderLine(section), line]
  }

  function SetBool(text: string, section: string, key: string, value: bool): string
  {
    Unlines(Edit(Lines(text), section, key, value))
  }

  /** One pass over the lines, then one edit. */
  method SetTomlBool(text: string, section: string, key: string, value: bool) returns (out: string)
    ensures out == SetBool(text, section, key, value)
  {
    var lines := EditLines(Lines(text), section, key, value);
    out := Unlines(lines);
  }

  method EditLines(before: seq<string>, section: string, key: string, value: bool) returns (lines: seq<string>)
    ensures lines == Edit(before, section, key, value)
  {
    lines := before;
    var k, h := Scan(lines, section, key);
    var line := Canonical(key, value);
    if k.Some? {
      lines := lines[..k.value] + [line] + lines[k.value + 1..];
    } else if h.Some? {
      lines := lines[..h.value + 1] + [line] + lines[h.value + 1..];
    } else {
      var gap := if AnyText(lines) then [""] else [];
      lines := lines + gap + [HeaderLine(section), line];
    }
  }

  method Scan(lines: seq<string>, section: string, key: string) returns (k: Option<nat>, h: Option<nat>)
    ensures k == KeyAt(lines, false, section, key) && h == HeaderAt(lines, section)
  {
    k, h := None, None;
    var inside, i := false, 0;
    assert lines[0..] == lines;
    while i < |lines|
      invariant i <= |lines|
      invariant KeyAt(lines, false, section, key) == if k.Some? then k else Shift(KeyAt(lines[i..], inside, section, key), i)
      invariant HeaderAt(lines, section) == if h.Some? then h else Shift(HeaderAt(lines[i..], section), i)
    {
      var line := lines[i];
      KeyAtStep(lines, i, inside, section, key);
      var name := SectionInHeader(line);
      if name.Some? {
        inside := name.value == section;
        if inside && h.None? {
          h := Some(i);
        }
      } else if inside && k.None? && IsAssignment(line, key) {
        k := Some(i);
      }
      i := i + 1;
    }
  }

  lemma {:induction false} KeyAtStep(lines: seq<string>, i: nat, inside: bool, section: string, key: string)
    requires i < |lines|
    ensures Shift(KeyAt(lines[i..], inside, section, key), i) ==
      if Holds(lines[i], inside, key) then Some(i)
      else Shift(KeyAt(lines[i + 1..], Target(lines[i], inside, section), section, key), i + 1)
    ensures Shift(HeaderAt(lines[i..], section), i) ==
      if SectionInHeader(lines[i]) == Some(section) then Some(i) else Shift(HeaderAt(lines[i + 1..], section), i + 1)
  {
  }

  function Shift(r: Option<nat>, n: nat): Option<nat> { if r.None? then None else Some(n + r.value) }
}
