/** Cutting the server's output into lines: npm/pi-extension.ts. */
module Framing {
  import opened Options
  import opened Text
  import opened Utf8
  import opened PiTable
  import opened PiClient

  /** What a message line says: its id, if it has one, and whether it is an
      error. None stands for a line that is not JSON. */
  datatype Message = Message(id: Option<nat>, failed: bool)

  type Parser = string -> Option<Message>

  function Complete(text: string): seq<string> { var ls := SplitOn(text, '\n'); ls[..|ls| - 1] }

  function Leftover(text: string): string { var ls := SplitOn(text, '\n'); ls[|ls| - 1] }

  /** The lines delivered and the buffer left, chunk by chunk. */
  function Frame(buffer: string, chunks: seq<string>): (seq<string>, string)
    decreases |chunks|
  {
    if chunks == [] then ([], buffer)
    else
      var text := buffer + chunks[0];
      var (lines, rest) := Frame(Leftover(text), chunks[1..]);
      (Complete(text) + lines, rest)
  }

  function Concat(chunks: seq<string>): string
    decreases |chunks|
  {
    if chunks == [] then "" else chunks[0] + Concat(chunks[1..])
  }

  /** Splitting a text and its continuation. */
  lemma {:induction false} SplitConcat(a: string, b: string)
    ensures Complete(a + b) == Complete(a) + Complete(Leftover(a) + b)
    ensures Leftover(a + b) == Leftover(Leftover(a) + b)
    decreases |a|
  {
    if a == "" {
      assert a + b == b;
    } else {
      var s, t := a + b, a[1..];
      assert s[0] == a[0] && s[1..] == t + b;
      SplitConcat(t, b);
      SplitStep(s);
      SplitStep(a);
      var c, more := Complete(t), Complete(Leftover(t) + b);
      if a[0] == '\n' {
        assert [""] + (c + more) == [""] + c + more;
      } else if c == [] {
        var joined := Leftover(a) + b;
        assert joined[0] == a[0] && joined[1..] == Leftover(t) + b;
        SplitStep(joined);
        assert [] + more == more;
      } else {
        HeadJoin(a[0], c, more);
      }
    }
  }

  lemma {:induction false} HeadJoin(x: char, c: seq<string>, more: seq<string>)
    requires c != []
    ensures [[x] + (c + more)[0]] + (c + more)[1..] == [[x] + c[0]] + c[1..] + more
  {
  }

  /** One character in front joins the first line or ends an empty one. */
  lemma {:induction false} SplitStep(s: string)
    requires s != ""
    ensures var c, l := Complete(s[1..]), Leftover(s[1..]);
      if s[0] == '\n' then Complete(s) == [""] + c && Leftover(s) == l
      else if c == [] then Complete(s) == [] && Leftover(s) == [s[0]] + l
      else Complete(s) == [[s[0]] + c[0]] + c[1..] && Leftover(s) == l
  {
  }

  lemma {:induction false} LeftoverWhole(buffer: string)
    requires '\n' !in buffer
    ensures Complete(buffer) == [] && Leftover(buffer) == buffer
  {
    if buffer != "" {
      LeftoverWhole(buffer[1..]);
      SplitStep(buffer);
    }
  }

  lemma {:induction false} LeftoverHasNoBreak(text: string)
    ensures '\n' !in Leftover(text)
  {
    SplitNoSep(text, '\n');
  }

  /** However a text is cut, the lines delivered and the buffer left are those
      of the whole text. */
  lemma {:induction false} ChunksDoNotMatter(buffer: string, chunks: seq<string>)
    requires '\n' !in buffer
    ensures Frame(buffer, chunks) == (Complete(buffer + Concat(chunks)), Leftover(buffer + Concat(chunks)))
    decreases |chunks|
  {
    if chunks == [] {
      LeftoverWhole(buffer);
      assert buffer + "" == buffer;
    } else {
      var text, more := buffer + chunks[0], Concat(chunks[1..]);
      LeftoverHasNoBreak(text);
      ChunksDoNotMatter(Leftover(text), chunks[1..]);
      SplitConcat(text, more);
      Reassociate(buffer, chunks[0], more);
    }
  }

  // ---- Chunks of bytes ----

  /** Each chunk is decoded on its own. */
  function Texts(chunks: seq<seq<Byte>>): seq<string>
    decreases |chunks|
  {
    if chunks == [] then [] else [Decode(chunks[0])] + Texts(chunks[1..])
  }

  lemma {:induction false} TextsConcat(chunks: seq<seq<Byte>>)
    ensures Concat(Texts(chunks)) == Decoded(chunks)
    decreases |chunks|
  {
    if chunks != [] {
      TextsConcat(chunks[1..]);
      assert Texts(chunks)[1..] == Texts(chunks[1..]);
    }
  }

  lemma {:induction false} SplitInjective(s: string, t: string)
    requires SplitOn(s, '\n') == SplitOn(t, '\n')
    ensures s == t
    decreases |s|
  {
    OnlyEmptySplits(s);
    OnlyEmptySplits(t);
    if s != "" {
      SameHead(s, t);
      SplitInjective(s[1..], t[1..]);
      assert s == [s[0]] + s[1..] && t == [t[0]] + t[1..];
    }
  }

  lemma {:induction false} OnlyEmptySplits(s: string)
    ensures SplitOn(s, '\n') == [""] <==> s == ""
  {
    if s != "" {
      var rest := SplitOn(s[1..], '\n');
      if s[0] == '\n' {
        assert |SplitOn(s, '\n')| == 1 + |rest|;
      } else {
        assert SplitOn(s, '\n')[0] == [s[0]] + rest[0];
      }
    }
  }

  lemma {:induction false} SameHead(s: string, t: string)
    requires s != "" && t != "" && SplitOn(s, '\n') == SplitOn(t, '\n')
    ensures s[0] == t[0] && SplitOn(s[1..], '\n') == SplitOn(t[1..], '\n')
  {
    var ls, a, b := SplitOn(s, '\n'), SplitOn(s[1..], '\n'), SplitOn(t[1..], '\n');
    assert s[0] == '\n' <==> ls[0] == "";
    assert t[0] == '\n' <==> ls[0] == "";
    if s[0] == '\n' {
      assert a == ls[1..] == b;
    } else {
      assert ls[0] == [s[0]] + a[0] == [t[0]] + b[0];
      assert a[0] == ls[0][1..] == b[0] && s[0] == ls[0][0] == t[0];
      assert a == [a[0]] + ls[1..] && b == [b[0]] + ls[1..];
    }
  }

  lemma {:induction false} LinesTell(s: string, t: string)
    requires Complete(s) == Complete(t) && Leftover(s) == Leftover(t)
    ensures s == t
  {
    assert SplitOn(s, '\n') == Complete(s) + [Leftover(s)];
    assert SplitOn(t, '\n') == Complete(t) + [Leftover(t)];
    SplitInjective(s, t);
  }

  /** The lines delivered and the buffer left are those of the whole output,
      decoded at once, exactly when no chunk ends inside a character. */
  lemma {:induction false} FramesWholeIff(chunks: seq<seq<Byte>>)
    ensures Frame("", Texts(chunks)) == (Complete(Decode(Whole(chunks))), Leftover(Decode(Whole(chunks))))
       <==> NoneSplit(chunks)
  {
    ChunksDoNotMatter("", Texts(chunks));
    TextsConcat(chunks);
    DecodesWholeIff(chunks);
    assert "" + Decoded(chunks) == Decoded(chunks);
    if Complete(Decoded(chunks)) == Complete(Decode(Whole(chunks))) && Leftover(Decoded(chunks)) == Leftover(Decode(Whole(chunks))) {
      LinesTell(Decoded(chunks), Decode(Whole(chunks)));
    }
  }

  /** An accented letter cut in two arrives as two replacement characters. */
  lemma {:induction false} SplitLetterIsLost()
    ensures var cut: seq<seq<Byte>>, whole: seq<seq<Byte>> := [[0xC3], [0xA9, 0x0A]], [[0xC3, 0xA9, 0x0A]];
      && Whole(cut) == Whole(whole)
      && Frame("", Texts(whole)) == (["\U{E9}"], "")
      && Frame("", Texts(cut)) == (["\U{FFFD}\U{FFFD}"], "")
  {
    var a: seq<Byte>, b: seq<Byte>, ab: seq<Byte> := [0xC3], [0xA9, 0x0A], [0xC3, 0xA9, 0x0A];
    LetterDecodes(a, b, ab);
    assert [ab][1..] == [] && [a, b][1..] == [b] && [b][1..] == [];
    assert Whole([ab]) == ab + [] == ab && Whole([b]) == b + [] == b && Whole([a, b]) == a + b == ab;
    assert Decoded([b]) == Decode(b) + "" && Decoded([a, b]) == Decode(a) + Decoded([b]) && Decoded([ab]) == Decode(ab) + "";
    OneLineOf("\U{E9}");
    OneLineOf("\U{FFFD}\U{FFFD}");
    FrameOf([ab], "\U{E9}\n");
    FrameOf([a, b], "\U{FFFD}\U{FFFD}\n");
  }

  lemma {:induction false} LetterDecodes(a: seq<Byte>, b: seq<Byte>, ab: seq<Byte>)
    requires a == [0xC3] && b == [0xA9, 0x0A] && ab == [0xC3, 0xA9, 0x0A]
    ensures Decode(a) == "\U{FFFD}" && Decode(b) == "\U{FFFD}\n" && Decode(ab) == "\U{E9}\n"
  {
    var nl: seq<Byte> := [0x0A];
    assert nl[1..] == [] && Decode(nl) == "\n";
    assert a[1..] == [] && UnitLen(a) == 1;
    assert b[1..] == nl && b[..1] == [0xA9] && UnitLen(b) == 1;
    assert ab[2..] == nl && ab[..2] == [0xC3, 0xA9] && UnitLen(ab) == 2;
  }

  lemma {:induction false} FrameOf(chunks: seq<seq<Byte>>, text: string)
    requires Decoded(chunks) == text
    ensures Frame("", Texts(chunks)) == (Complete(text), Leftover(text))
  {
    ChunksDoNotMatter("", Texts(chunks));
    TextsConcat(chunks);
    assert "" + text == text;
  }

  lemma {:induction false} OneLineOf(line: string)
    requires '\n' !in line
    ensures Complete(line + "\n") == [line] && Leftover(line + "\n") == ""
  {
    LineAndBreak(line);
  }

  lemma {:induction false} LineAndBreak(line: string)
    requires '\n' !in line
    ensures SplitOn(line + "\n", '\n') == [line, ""]
    decreases |line|
  {
    var s := line + "\n";
    if line == "" {
      assert s[1..] == "";
    } else {
      assert s[0] == line[0] && s[1..] == line[1..] + "\n";
      LineAndBreak(line[1..]);
      assert [line[0]] + line[1..] == line;
    }
  }

  // ---- Delivering lines to the table ----

  function Heard(t: Table, line: string, parse: Parser): Table
  {
    if Trim(line, IsWhitespace) == "" then t
    else
      var m := parse(line);
      if m.None? then t else Step(t, Response(m.value.id, m.value.failed))
  }

  function HeardAll(t: Table, lines: seq<string>, parse: Parser): Table
    decreases |lines|
  {
    if lines == [] then t else HeardAll(Heard(t, lines[0], parse), lines[1..], parse)
  }

  /** The responses that lines of output are: blank lines and lines that are
      not JSON are none. */
  function ResponsesIn(lines: seq<string>, parse: Parser): seq<Event>
  {
    if lines == [] then []
    else
      var m := if (forall c :: c in lines[0] ==> IsWhitespace(c)) then None else parse(lines[0]);
      (if m.Some? then [Response(m.value.id, m.value.failed)] else []) + ResponsesIn(lines[1..], parse)
  }

  lemma {:induction false} BlankIff(s: string)
    ensures Trim(s, IsWhitespace) == "" <==> forall c :: c in s ==> IsWhitespace(c)
  {
    var n := TrimStartMeaning(s, IsWhitespace);
    var m := TrimEndMeaning(s[n..], IsWhitespace);
    if n < |s| {
      assert s[n] in s && s[n..][0] == s[n];
      assert m > 0;
    }
  }

  /** Hearing lines is a run of the table over those responses, so what holds of
      its runs holds of any output. */
  lemma {:induction false} HeardIsRun(t: Table, lines: seq<string>, parse: Parser)
    ensures HeardAll(t, lines, parse) == Run(t, ResponsesIn(lines, parse))
    decreases |lines|
  {
    if lines != [] {
      BlankIff(lines[0]);
      HeardIsRun(Heard(t, lines[0], parse), lines[1..], parse);
      var m := if (forall c :: c in lines[0] ==> IsWhitespace(c)) then None else parse(lines[0]);
      var rest := ResponsesIn(lines[1..], parse);
      if m.Some? {
        var e := Response(m.value.id, m.value.failed);
        assert ([e] + rest)[0] == e && ([e] + rest)[1..] == rest;
      } else {
        assert [] + rest == rest;
      }
    }
  }

  class Framer {
    var buffer: string

    constructor ()
      ensures buffer == ""
    {
      buffer := "";
    }

    /** One chunk of output: answer every complete line, keep the rest. */
    method OnData(client: Client, chunk: seq<Byte>, parse: Parser)
      requires Inv(client.Now())
      modifies this, client
      ensures buffer == Leftover(old(buffer) + Decode(chunk))
      ensures client.Now() == HeardAll(old(client.Now()), Complete(old(buffer) + Decode(chunk)), parse) && Inv(client.Now())
    {
      var text := buffer + Decode(chunk);
      var lines := Complete(text);
      buffer := Leftover(text);
      var i := 0;
      assert lines[0..] == lines;
      while i < |lines|
        invariant i <= |lines| && Inv(client.Now()) && buffer == Leftover(text)
        invariant HeardAll(client.Now(), lines[i..], parse) == HeardAll(old(client.Now()), lines, parse)
      {
        assert lines[i..][1..] == lines[i + 1..];
        if Trim(lines[i], IsWhitespace) != "" {
          var m := parse(lines[i]);
          if m.Some? {
            client.OnResponse(m.value.id, m.value.failed);
          }
        }
        i := i + 1;
      }
    }
  }

  lemma {:induction false} HeardConcat(t: Table, a: seq<string>, b: seq<string>, parse: Parser)
    ensures HeardAll(t, a + b, parse) == HeardAll(HeardAll(t, a, parse), b, parse)
    decreases |a|
  {
    if a == [] {
      assert a + b == b;
    } else {
      assert (a + b)[1..] == a[1..] + b;
      HeardConcat(Heard(t, a[0], parse), a[1..], b, parse);
    }
  }

  function Joined(heard: seq<string>, rest: (seq<string>, string)): (seq<string>, string) { (heard + rest.0, rest.1) }

  lemma {:induction false} FrameStep(heard: seq<string>, buffer: string, chunks: seq<seq<Byte>>)
    requires chunks != []
    ensures var text := buffer + Decode(chunks[0]);
      Joined(heard, Frame(buffer, Texts(chunks))) == Joined(heard + Complete(text), Frame(Leftover(text), Texts(chunks[1..])))
  {
    var text, rest := buffer + Decode(chunks[0]), Texts(chunks[1..]);
    assert Texts(chunks) == [Decode(chunks[0])] + rest;
    FrameCons(buffer, Decode(chunks[0]), rest);
    var lines := Frame(Leftover(text), rest).0;
    assert heard + (Complete(text) + lines) == heard + Complete(text) + lines;
  }

  lemma {:induction false} FrameCons(buffer: string, chunk: string, rest: seq<string>)
    ensures var text := buffer + chunk;
      var more := Frame(Leftover(text), rest);
      Frame(buffer, [chunk] + rest) == (Complete(text) + more.0, more.1)
  {
    assert ([chunk] + rest)[1..] == rest;
  }

  /** Fed chunk by chunk, the client hears the lines of the chunks decoded each
      on its own. */
  method FeedAll(framer: Framer, client: Client, chunks: seq<seq<Byte>>, parse: Parser)
    requires Inv(client.Now()) && framer.buffer == ""
    modifies framer, client
    ensures framer.buffer == Leftover(Decoded(chunks))
    ensures client.Now() == HeardAll(old(client.Now()), Complete(Decoded(chunks)), parse) && Inv(client.Now())
  {
    ghost var heard: seq<string> := [];
    var i := 0;
    assert chunks[0..] == chunks && [] + Frame("", Texts(chunks)).0 == Frame("", Texts(chunks)).0;
    while i < |chunks|
      invariant i <= |chunks| && Inv(client.Now())
      invariant client.Now() == HeardAll(old(client.Now()), heard, parse)
      invariant Frame("", Texts(chunks)) == Joined(heard, Frame(framer.buffer, Texts(chunks[i..])))
    {
      ghost var text := framer.buffer + Decode(chunks[i]);
      HeardConcat(old(client.Now()), heard, Complete(text), parse);
      FrameStep(heard, framer.buffer, chunks[i..]);
      assert chunks[i..][1..] == chunks[i + 1..];
      framer.OnData(client, chunks[i], parse);
      heard := heard + Complete(text);
      i := i + 1;
    }
    assert chunks[i..] == [] && heard + [] == heard;
    FrameOf(chunks, Decoded(chunks));
  }

  /** The requests answered are those the whole output answers, however it is
      cut between characters. */
  method FeedWhole(framer: Framer, client: Client, chunks: seq<seq<Byte>>, parse: Parser)
    requires Inv(client.Now()) && framer.buffer == "" && NoneSplit(chunks)
    modifies framer, client
    ensures framer.buffer == Leftover(Decode(Whole(chunks)))
    ensures client.Now() == HeardAll(old(client.Now()), Complete(Decode(Whole(chunks))), parse) && Inv(client.Now())
  {
    DecodesWholeIff(chunks);
    FeedAll(framer, client, chunks, parse);
  }
}
