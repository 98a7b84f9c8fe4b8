/** Which lines the TOML edit takes for headers and assignments. */
module TomlLines {
  import opened Options
  import opened Text
  import opened TomlEdit
  import opened TomlLens

  predicate Blanks(s: string) { forall i :: 0 <= i < |s| ==> IsWhitespace(s[i]) }

  lemma {:induction false} TrimPad(pad: string, s: string)
    requires Blanks(pad) && (s == "" || !IsWhitespace(s[0]))
    ensures TrimStart(pad + s, IsWhitespace) == s
    decreases |pad|
  {
    if pad == "" {
      assert pad + s == s;
    } else {
      assert (pad + s)[1..] == pad[1..] + s;
      TrimPad(pad[1..], s);
    }
  }

  /** Trimming behind leaves a text that ends in no blank where it is. */
  lemma {:induction false} TrimKeeps(a: string, b: string)
    requires a != "" && !IsWhitespace(a[|a| - 1])
    ensures exists c :: TrimEnd(a + b, IsWhitespace) == a + c
  {
    var n := TrimEndMeaning(a + b, IsWhitespace);
    assert (a + b)[|a| - 1] == a[|a| - 1];
    assert (a + b)[..n] == a + b[..n - |a|];
  }

  lemma {:induction false} FindCloserAt(name: string, rest: string)
    requires ']' !in name
    ensures FindChar(name + "]" + rest, IsCloser) == Some(|name|)
  {
    var s := name + "]" + rest;
    if name == "" {
      assert s[0] == ']';
    } else {
      assert s[1..] == name[1..] + "]" + rest && s[0] == name[0];
      FindCloserAt(name[1..], rest);
    }
  }

  predicate HeaderName(name: string) { name != "" && name[0] != '[' && ']' !in name }

  /** A header with anything behind it, a comment for one, names its section. */
  lemma {:induction false} HeaderReads(pad: string, name: string, rest: string)
    requires Blanks(pad) && HeaderName(name)
    ensures SectionInHeader(pad + "[" + name + "]" + rest) == Some(name)
  {
    var line, a := pad + "[" + name + "]" + rest, "[" + name + "]";
    assert line == pad + (a + rest);
    TrimPad(pad, a + rest);
    TrimKeeps(a, rest);
    var c :| TrimEnd(a + rest, IsWhitespace) == a + c;
    var t := Trim(line, IsWhitespace);
    assert t == a + c && t[1..] == name + "]" + c && t[1] == name[0];
    FindCloserAt(name, c);
    assert (name + "]" + c)[..|name|] == name;
  }

  /** And nothing else is a header. */
  lemma {:induction false} HeaderIff(line: string, name: string)
    ensures SectionInHeader(line) == Some(name) <==>
      HeaderName(name) && exists pad, rest :: Blanks(pad) && line == pad + "[" + name + "]" + rest
  {
    if SectionInHeader(line) == Some(name) {
      var n := TrimStartMeaning(line, IsWhitespace);
      var m := TrimEndMeaning(line[n..], IsWhitespace);
      HeaderParts(line, n, m, name);
    } else if HeaderName(name) {
      forall pad, rest | Blanks(pad) && line == pad + "[" + name + "]" + rest ensures false {
        HeaderReads(pad, name, rest);
      }
    }
  }

  lemma {:induction false} HeaderParts(line: string, n: nat, m: nat, name: string)
    requires n <= |line| && m <= |line| - n && Trim(line, IsWhitespace) == line[n..][..m]
    requires Blanks(line[..n]) && SectionInHeader(line) == Some(name)
    ensures HeaderName(name) && exists pad, rest :: Blanks(pad) && line == pad + "[" + name + "]" + rest
  {
    var t := line[n..][..m];
    var close := FindChar(t[1..], IsCloser).value;
    assert t[1..][close] == ']' && name == t[1..][..close] && name[0] == t[1];
    assert t == "[" + name + "]" + t[close + 2..];
    assert line == line[..n] + t + line[n + m..];
    assert line == line[..n] + "[" + name + "]" + (t[close + 2..] + line[n + m..]);
  }

  /** An assignment to a key is the key, an equals sign, and blanks at will in
      front of either; what it assigns is the rest, trimmed. */
  lemma {:induction false} AssignmentReads(pad: string, key: string, gap: string, rest: string)
    requires Blanks(pad) && Blanks(gap) && IsName(key)
    ensures var line := pad + key + gap + "=" + rest; IsAssignment(line, key) && Assigned(line, key) == Trim(rest, IsWhitespace)
  {
    var line, t := pad + key + gap + "=" + rest, key + gap + "=" + rest;
    NameCharIsPlain(key[0]);
    assert line == pad + t && t[0] == key[0];
    TrimPad(pad, t);
    assert t[..|key|] == key && t[|key|..] == gap + ("=" + rest);
    TrimPad(gap, "=" + rest);
    assert ("=" + rest)[..1] == "=" && ("=" + rest)[1..] == rest;
    assert t[..1] == [key[0]] && key[0] != '#';
  }

  predicate Assigns(line: string, pad: string, key: string, gap: string, rest: string)
  {
    Blanks(pad) && Blanks(gap) && line == pad + key + gap + "=" + rest
  }

  lemma {:induction false} AssignmentIff(line: string, key: string)
    requires IsName(key)
    ensures IsAssignment(line, key) <==> exists pad, gap, rest :: Assigns(line, pad, key, gap, rest)
  {
    if IsAssignment(line, key) {
      AssignmentParts(line, key);
    }
    forall pad, gap, rest | Assigns(line, pad, key, gap, rest) ensures IsAssignment(line, key) {
      AssignmentReads(pad, key, gap, rest);
    }
  }

  lemma {:induction false} AssignmentParts(line: string, key: string)
    requires IsName(key) && IsAssignment(line, key)
    ensures exists pad, gap, rest :: Assigns(line, pad, key, gap, rest)
  {
    var n := TrimStartMeaning(line, IsWhitespace);
    var t := TrimStart(line, IsWhitespace);
    var m := TrimStartMeaning(t[|key|..], IsWhitespace);
    var more := TrimStart(t[|key|..], IsWhitespace);
    FiveParts(line, n, t, key, m, more);
    assert Assigns(line, line[..n], key, t[|key|..][..m], more[1..]);
  }

  lemma {:induction false} FiveParts(line: string, n: nat, t: string, key: string, m: nat, more: string)
    requires n <= |line| && t == line[n..] && |key| <= |t| && t[..|key|] == key
    requires m <= |t| - |key| && more == t[|key|..][m..] && more != "" && more[..1] == "="
    ensures line == line[..n] + key + t[|key|..][..m] + "=" + more[1..]
  {
    var behind := t[|key|..];
    assert more == "=" + more[1..];
    assert behind == behind[..m] + more;
    assert t == key + behind;
    assert line == line[..n] + t;
  }
}
