/** The tar reader of build.rs, over the ustar interchange format of the pax
    utility in IEEE Std 1003.1. Text decoding is a parameter. */
module Tar {
  import opened Options
  import opened Text
  import opened Utf8

  const BLOCK: nat := 512

  /** Rust's `from_utf8` and `from_utf8_lossy`; the results that read digits or
      names hold for any decoder that reads ASCII bytes as themselves. */
  datatype Decoder = Decoder(strict: seq<Byte> -> Option<string>, lossy: seq<Byte> -> string)

  const UTF8: Decoder := Decoder(s => if WellFormed(s) then Some(Decode(s)) else None, s => Decode(s))

  // ---- Reading one header ----

  predicate IsNul(b: Byte) { b == 0 }

  predicate EndsNumber(b: Byte) { b == 0 || b == 32 }

  /** The bytes before the first one satisfying `stop`. */
  function Before(s: seq<Byte>, stop: Byte -> bool): seq<Byte>
  {
    if s == [] || stop(s[0]) then [] else [s[0]] + Before(s[1..], stop)
  }

  predicate AllZero(s: seq<Byte>) { forall i :: 0 <= i < |s| ==> s[i] == 0 }

  function StripDotSlash(s: string): string
    decreases |s|
  {
    if StartsWith(s, "./") then StripDotSlash(s[2..]) else s
  }

  predicate IsOctal(c: char) { '0' <= c <= '7' }

  /** The value of octal digits read after `acc`. */
  function OctalDigits(s: string, acc: nat): Option<nat>
  {
    if s == "" then Some(acc)
    else if IsOctal(s[0]) then OctalDigits(s[1..], 8 * acc + (s[0] as int - '0' as int))
    else None
  }

  /** Rust's `from_str_radix(_, 8)`: one '+' may lead, digits must follow. */
  function ParseOctal(s: string): Option<nat>
  {
    var digits := if StartsWith(s, "+") then s[1..] else s;
    if digits == "" then None else OctalDigits(digits, 0)
  }

  function NameIn(header: seq<Byte>, utf8: Decoder): string { StripDotSlash(utf8.lossy(Before(header, IsNul))) }

  function SizeIn(header: seq<Byte>, utf8: Decoder): nat
    requires |header| == BLOCK
  {
    var text := utf8.strict(Before(header[124..136], EndsNumber));
    var n := ParseOctal(Trim(if text.Some? then text.value else "", IsWhitespace));
    if n.Some? then n.value else 0
  }

  function Padded(size: nat): nat { (size + 511) / BLOCK * BLOCK }

  // ---- Reading an archive ----

  /** What the header at a position says: stop, take these bytes, or go on. */
  datatype Look = End | Hit(start: nat, end: nat) | Skip(next: nat)

  /** Reads one header, `room` being the bytes left behind it. */
  type Looker = (seq<Byte>, nat) -> Look

  ghost predicate Sound(look: Looker)
  {
    forall header, room: nat ::
      && (look(header, room).Hit? ==> look(header, room).start <= look(header, room).end <= BLOCK + room)
      && (look(header, room).Skip? ==> BLOCK <= look(header, room).next && look(header, room).next % BLOCK == 0)
  }

  function LookAt(header: seq<Byte>, room: nat, name: string, utf8: Decoder): Look
  {
    if |header| != BLOCK || AllZero(header) then End
    else
      var size := SizeIn(header, utf8);
      if size > room then End
      else if NameIn(header, utf8) == name then Hit(BLOCK, BLOCK + size)
      else Skip(BLOCK + Padded(size))
  }

  function LookFor(name: string, utf8: Decoder): (look: Looker)
    ensures Sound(look)
  {
    (header: seq<Byte>, room: nat) => LookAt(header, room, name, utf8)
  }

  /** The data of the first entry `look` takes at or behind `pos`. */
  function From(data: seq<Byte>, pos: nat, look: Looker): Option<seq<Byte>>
    requires Sound(look)
    decreases |data| - pos
  {
    if pos + BLOCK > |data| then None
    else
      match look(data[pos..pos + BLOCK], |data| - pos - BLOCK)
      case End => None
      case Hit(start, end) => Some(data[pos + start..pos + end])
      case Skip(next) => From(data, pos + next, look)
  }

  function Extract(data: seq<Byte>, name: string, utf8: Decoder): Option<seq<Byte>>
  {
    From(data, 0, LookFor(name, utf8))
  }

  method ExtractTarEntry(data: seq<Byte>, name: string, utf8: Decoder) returns (r: Option<seq<Byte>>)
    ensures r == Extract(data, name, utf8)
  {
    r := Walk(data, LookFor(name, utf8));
  }

  /** Go from header to header, always at a multiple of 512. */
  method Walk(data: seq<Byte>, look: Looker) returns (r: Option<seq<Byte>>)
    requires Sound(look)
    ensures r == From(data, 0, look)
  {
    var pos := 0;
    while pos + BLOCK <= |data|
      invariant pos % BLOCK == 0
      invariant From(data, 0, look) == From(data, pos, look)
      decreases |data| - pos
    {
      var seen := look(data[pos..pos + BLOCK], |data| - pos - BLOCK);
      match seen {
        case End => return None;
        case Hit(start, end) => return Some(data[pos + start..pos + end]);
        case Skip(next) =>
          ModSum(pos, next);
          pos := pos + next;
      }
    }
    r := None;
  }

  lemma {:induction false} ModSum(a: nat, b: nat)
    requires a % BLOCK == 0 && b % BLOCK == 0
    ensures (a + b) % BLOCK == 0
  {
  }

  /** What comes before `pos` does not matter. */
  lemma {:induction false} FromShift(p: seq<Byte>, d: seq<Byte>, pos: nat, look: Looker)
    requires Sound(look)
    ensures From(p + d, |p| + pos, look) == From(d, pos, look)
    decreases |d| - pos
  {
    if pos + BLOCK <= |d| {
      SliceShift(p, d, pos, pos + BLOCK);
      match look(d[pos..pos + BLOCK], |d| - pos - BLOCK)
      case End =>
      case Hit(start, end) =>
        SliceShift(p, d, pos + start, pos + end);
      case Skip(next) =>
        FromShift(p, d, pos + next, look);
    }
  }

  lemma {:induction false} SliceShift(p: seq<Byte>, d: seq<Byte>, i: nat, j: nat)
    requires i <= j <= |d|
    ensures (p + d)[|p| + i..|p| + j] == d[i..j]
  {
  }

  // ---- Writing ----

  /** A member: its name, the bytes between the name's NUL and the size field,
      the byte ending the size field, the bytes after it, and its data. */
  datatype Entry = Entry(name: seq<Byte>, between: seq<Byte>, stop: Byte, after: seq<Byte>, data: seq<Byte>)

  function Pow8(k: nat): nat { if k == 0 then 1 else 8 * Pow8(k - 1) }

  ghost predicate Writable(e: Entry)
  {
    && |e.name| < 100 && |e.name| + 1 + |e.between| == 124 && 0 !in e.name
    && EndsNumber(e.stop) && |e.after| == 376 && |e.data| < Pow8(11)
  }

  function Octal(n: nat, k: nat): (s: seq<Byte>)
    ensures |s| == k && forall i :: 0 <= i < k ==> 48 <= s[i] < 56
  {
    if k == 0 then [] else Octal(n / 8, k - 1) + [48 + n % 8]
  }

  function Zeros(n: nat): (s: seq<Byte>)
    ensures |s| == n && AllZero(s)
  {
    seq(n, i => 0)
  }

  function Header(e: Entry): seq<Byte>
  {
    e.name + [0] + e.between + Octal(|e.data|, 11) + [e.stop] + e.after
  }

  function Write(e: Entry): seq<Byte>
  {
    Header(e) + e.data + Zeros(Padded(|e.data|) - |e.data|)
  }

  function Archive(es: seq<Entry>, tail: seq<Byte>): seq<Byte>
  {
    if es == [] then tail else Write(es[0]) + Archive(es[1..], tail)
  }

  /** What ends an archive: a zero block, or less than a block. */
  predicate EndOfArchive(tail: seq<Byte>) { |tail| < BLOCK || AllZero(tail[..BLOCK]) }

  function FirstNamed(es: seq<Entry>, name: string, utf8: Decoder): Option<seq<Byte>>
  {
    if es == [] then None
    else if StripDotSlash(utf8.lossy(es[0].name)) == name then Some(es[0].data)
    else FirstNamed(es[1..], name, utf8)
  }

  /** UTF-8 reads octal digits as themselves. */
  ghost predicate ReadsDigits(utf8: Decoder)
  {
    forall s: seq<Byte> :: (forall i :: 0 <= i < |s| ==> 48 <= s[i] < 56) ==> utf8.strict(s) == Some(Chars(s))
  }

  lemma {:induction false} BeforeStop(a: seq<Byte>, b: seq<Byte>, stop: Byte -> bool)
    requires b != [] && stop(b[0]) && forall i :: 0 <= i < |a| ==> !stop(a[i])
    ensures Before(a + b, stop) == a
    decreases |a|
  {
    if a == [] {
      assert a + b == b;
    } else {
      assert (a + b)[1..] == a[1..] + b;
      BeforeStop(a[1..], b, stop);
    }
  }

  lemma {:induction false} OctalConcat(a: string, c: char, acc: nat)
    requires IsOctal(c)
    ensures OctalDigits(a + [c], acc) == var r := OctalDigits(a, acc); if r.None? then None else Some(8 * r.value + (c as int - '0' as int))
    decreases |a|
  {
    var s := a + [c];
    if a == "" {
      assert s == [c] && s[1..] == "";
      assert OctalDigits(s[1..], 8 * acc + (c as int - '0' as int)) == Some(8 * acc + (c as int - '0' as int));
    } else {
      assert s[1..] == a[1..] + [c];
      if IsOctal(a[0]) { OctalConcat(a[1..], c, 8 * acc + (a[0] as int - '0' as int)); }
    }
  }

  lemma {:induction false} OctalReads(n: nat, k: nat)
    requires n < Pow8(k)
    ensures OctalDigits(Chars(Octal(n, k)), 0) == Some(n)
    decreases k
  {
    if k > 0 {
      OctalReads(n / 8, k - 1);
      var digit: Byte := 48 + n % 8;
      assert Chars(Octal(n, k)) == Chars(Octal(n / 8, k - 1)) + [digit as char];
      OctalConcat(Chars(Octal(n / 8, k - 1)), digit as char, 0);
    }
  }

  /** The size field reads back the size written. */
  lemma {:induction false} SizeReads(e: Entry, utf8: Decoder)
    requires Writable(e) && ReadsDigits(utf8)
    ensures |Header(e)| == BLOCK && SizeIn(Header(e), utf8) == |e.data|
  {
    var digits := Octal(|e.data|, 11);
    SizeField(e);
    BeforeStop(digits, [e.stop], EndsNumber);
    OctalReads(|e.data|, 11);
    DigitsParse(digits);
    assert utf8.strict(digits) == Some(Chars(digits));
  }

  lemma {:induction false} SizeField(e: Entry)
    requires Writable(e)
    ensures |Header(e)| == BLOCK && Header(e)[124..136] == Octal(|e.data|, 11) + [e.stop]
  {
  }

  lemma {:induction false} DigitsParse(digits: seq<Byte>)
    requires digits != [] && forall i :: 0 <= i < |digits| ==> 48 <= digits[i] < 56
    ensures ParseOctal(Trim(Chars(digits), IsWhitespace)) == OctalDigits(Chars(digits), 0)
  {
  }

  /** The name field reads back the name written. */
  lemma {:induction false} NameReads(e: Entry, utf8: Decoder)
    requires Writable(e)
    ensures NameIn(Header(e), utf8) == StripDotSlash(utf8.lossy(e.name))
  {
    var rest := [0] + e.between + Octal(|e.data|, 11) + [e.stop] + e.after;
    assert Header(e) == e.name + rest;
    BeforeStop(e.name, rest, IsNul);
  }

  lemma {:induction false} HeaderNotZero(e: Entry)
    requires Writable(e)
    ensures |Header(e)| == BLOCK && !AllZero(Header(e))
  {
    assert Header(e)[124] == Octal(|e.data|, 11)[0];
  }

  lemma {:induction false} WriteLayout(e: Entry)
    requires Writable(e)
    ensures var w, n := Write(e), |e.data|;
      && |w| == BLOCK + Padded(n) >= BLOCK + n
      && w[..BLOCK] == Header(e) && w[BLOCK..BLOCK + n] == e.data
  {
  }

  /** Reading starts with the first blocks `p`. */
  lemma {:induction false} FromFirst(p: seq<Byte>, rest: seq<Byte>, look: Looker)
    requires Sound(look) && |p| >= BLOCK
    ensures var seen := look(p[..BLOCK], |p| + |rest| - BLOCK);
      && (seen == Skip(|p|) ==> From(p + rest, 0, look) == From(rest, 0, look))
      && (seen.Hit? && seen.end <= |p| ==> From(p + rest, 0, look) == Some(p[seen.start..seen.end]))
  {
    assert (p + rest)[0..0 + BLOCK] == p[..BLOCK];
    var seen := look(p[..BLOCK], |p| + |rest| - BLOCK);
    if seen == Skip(|p|) {
      FromShift(p, rest, 0, look);
    } else if seen.Hit? && seen.end <= |p| {
      assert (p + rest)[seen.start..seen.end] == p[seen.start..seen.end];
    }
  }

  lemma {:induction false} ExtractWritten(e: Entry, rest: seq<Byte>, name: string, utf8: Decoder)
    requires Writable(e) && ReadsDigits(utf8)
    ensures Extract(Write(e) + rest, name, utf8) ==
      if StripDotSlash(utf8.lossy(e.name)) == name then Some(e.data) else Extract(rest, name, utf8)
  {
    WriteLayout(e);
    HeaderSays(e, |Write(e)| + |rest| - BLOCK, name, utf8);
    FromFirst(Write(e), rest, LookFor(name, utf8));
  }

  lemma {:induction false} HeaderSays(e: Entry, room: nat, name: string, utf8: Decoder)
    requires Writable(e) && ReadsDigits(utf8) && |e.data| <= room
    ensures |Header(e)| == BLOCK
    ensures LookAt(Header(e), room, name, utf8) ==
      if StripDotSlash(utf8.lossy(e.name)) == name then Hit(BLOCK, BLOCK + |e.data|) else Skip(BLOCK + Padded(|e.data|))
  {
    HeaderNotZero(e);
    SizeReads(e, utf8);
    NameReads(e, utf8);
  }

  /** Any list of entries, written and read: the data of the first entry of
      that name, or none. */
  lemma {:induction false} RoundTrip(es: seq<Entry>, tail: seq<Byte>, name: string, utf8: Decoder)
    requires forall i :: 0 <= i < |es| ==> Writable(es[i])
    requires EndOfArchive(tail) && ReadsDigits(utf8)
    ensures Extract(Archive(es, tail), name, utf8) == FirstNamed(es, name, utf8)
    decreases |es|
  {
    if es != [] {
      var rest := Archive(es[1..], tail);
      ExtractWritten(es[0], rest, name, utf8);
      RoundTrip(es[1..], tail, name, utf8);
    }
  }

  // ---- Marked names and padding ----

  /** The mark "./", so many times. */
  function Marks(k: nat): string { if k == 0 then "" else "./" + Marks(k - 1) }

  /** All marks in front are dropped, and nothing else. */
  lemma {:induction false} MarksDropped(k: nat, name: string)
    requires !StartsWith(name, "./")
    ensures StripDotSlash(Marks(k) + name) == name
  {
    if k == 0 {
      assert Marks(0) + name == name;
    } else {
      var s := Marks(k) + name;
      assert s == "./" + (Marks(k - 1) + name);
      assert s[..2] == "./" && s[2..] == Marks(k - 1) + name;
      MarksDropped(k - 1, name);
    }
  }

  /** A member written with marks in front is found under its bare name. */
  lemma {:induction false} MarkedIsFound(e: Entry, k: nat, name: string, rest: seq<Byte>, utf8: Decoder)
    requires Writable(e) && ReadsDigits(utf8) && utf8.lossy(e.name) == Marks(k) + name && !StartsWith(name, "./")
    ensures Extract(Write(e) + rest, name, utf8) == Some(e.data)
  {
    MarksDropped(k, name);
    ExtractWritten(e, rest, name, utf8);
  }

  /** Data fills whole blocks, and no block more. */
  lemma {:induction false} PaddedIsLeast(size: nat)
    ensures Padded(size) % 512 == 0 && size <= Padded(size) < size + 512
  {
  }

  /** A member cut short inside its data is not found. */
  lemma {:induction false} TruncatedIsMissed(e: Entry, n: nat, name: string, utf8: Decoder)
    requires Writable(e) && ReadsDigits(utf8) && BLOCK <= n < BLOCK + |e.data|
    ensures n <= |Write(e)| && Extract(Write(e)[..n], name, utf8).None?
  {
    WriteLayout(e);
    var cut := Write(e)[..n];
    assert cut[0..0 + BLOCK] == Write(e)[..BLOCK];
    CutHeaderSays(e, n - BLOCK, name, utf8);
  }

  lemma {:induction false} CutHeaderSays(e: Entry, room: nat, name: string, utf8: Decoder)
    requires Writable(e) && ReadsDigits(utf8) && room < |e.data|
    ensures |Header(e)| == BLOCK && LookAt(Header(e), room, name, utf8) == End
  {
    HeaderNotZero(e);
    SizeReads(e, utf8);
  }

  // ---- Names of full length ----

  /** The name field is 100 bytes long. */
  function NameField(header: seq<Byte>): seq<Byte>
    requires |header| == BLOCK
  {
    Before(header[..100], IsNul)
  }

  lemma {:induction false} BeforeConcat(a: seq<Byte>, b: seq<Byte>, stop: Byte -> bool)
    ensures Before(a + b, stop) == if |Before(a, stop)| < |a| then Before(a, stop) else a + Before(b, stop)
    ensures |Before(a, stop)| <= |a| && (|Before(a, stop)| == |a| ==> Before(a, stop) == a)
  {
    if Before(a, stop) == a { BeforeAndOn(a, b, stop); } else { BeforeInFront(a, b, stop); }
  }

  lemma {:induction false} BeforeAndOn(a: seq<Byte>, b: seq<Byte>, stop: Byte -> bool)
    requires Before(a, stop) == a
    ensures Before(a + b, stop) == a + Before(b, stop)
    decreases |a|
  {
    if a == [] {
      assert a + b == b;
    } else {
      var x, rest := a[0], a[1..];
      assert a == [x] + rest;
      BeforeCons(x, rest, stop);
      SameRest(x, Before(rest, stop), rest);
      BeforeAndOn(rest, b, stop);
      BeforeCons(x, rest + b, stop);
      Regroup(x, rest, b);
      Regroup(x, rest, Before(b, stop));
    }
  }

  lemma {:induction false} SameRest(x: Byte, s: seq<Byte>, t: seq<Byte>)
    requires [x] + s == [x] + t
    ensures s == t
  {
    assert ([x] + s)[1..] == s && ([x] + t)[1..] == t;
  }

  lemma {:induction false} Regroup(x: Byte, s: seq<Byte>, t: seq<Byte>)
    ensures [x] + (s + t) == ([x] + s) + t
  {
  }

  lemma {:induction false} BeforeInFront(a: seq<Byte>, b: seq<Byte>, stop: Byte -> bool)
    requires Before(a, stop) != a
    ensures Before(a + b, stop) == Before(a, stop) && |Before(a, stop)| < |a|
    decreases |a|
  {
    var x, rest := a[0], a[1..];
    assert a == [x] + rest;
    BeforeCons(x, rest, stop);
    BeforeCons(x, rest + b, stop);
    Regroup(x, rest, b);
    if !stop(x) { BeforeInFront(rest, b, stop); }
  }

  lemma {:induction false} BeforeCons(x: Byte, s: seq<Byte>, stop: Byte -> bool)
    ensures Before([x] + s, stop) == if stop(x) then [] else [x] + Before(s, stop)
  {
    assert ([x] + s)[1..] == s;
  }

  /** The reader takes the name field's bytes exactly when that field, or the
      byte behind it, holds a NUL; a full field runs on into the mode. */
  lemma {:induction false} NameFieldIff(header: seq<Byte>)
    requires |header| == BLOCK
    ensures Before(header, IsNul) == NameField(header) <==> 0 in header[..101]
  {
    var a, b := header[..100], header[100..];
    assert header == a + b;
    BeforeConcat(a, b, IsNul);
    BeforeAll(a);
    assert header[..101] == a + [header[100]];
  }

  lemma {:induction false} BeforeAll(a: seq<Byte>)
    ensures |Before(a, IsNul)| == |a| <==> 0 !in a
  {
    if a != [] {
      BeforeAll(a[1..]);
      BeforeConcat(a, [], IsNul);
    }
  }

  /** UTF-8 reads ASCII bytes as themselves. */
  ghost predicate ReadsAscii(utf8: Decoder)
  {
    forall s: seq<Byte> :: (forall i :: 0 <= i < |s| ==> s[i] < 128) ==> utf8.lossy(s) == Chars(s) && utf8.strict(s) == Some(Chars(s))
  }

  /** UTF-8 does. */
  lemma {:induction false} Utf8ReadsAscii()
    ensures ReadsAscii(UTF8) && ReadsDigits(UTF8)
  {
    forall s: seq<Byte> | forall i :: 0 <= i < |s| ==> s[i] < 128
      ensures UTF8.lossy(s) == Chars(s) && UTF8.strict(s) == Some(Chars(s))
    {
      AsciiDecodes(s);
    }
  }

  predicate Ascii(s: seq<Byte>) { forall i :: 0 <= i < |s| ==> s[i] < 128 }

  /** The bytes up to the size field of a member whose name fills its field, the
      name not being marked "./" and the mode not starting with a NUL. */
  predicate FullName(name: seq<Byte>, meta: seq<Byte>)
  {
    |name| == 100 && |meta| == 24 && Ascii(name) && 0 !in name && name[0] != 46 && Ascii(meta) && meta[0] != 0
  }

  /** The header of such a member with `n` bytes of data. */
  function FullHeader(name: seq<Byte>, meta: seq<Byte>, n: nat, after: seq<Byte>): seq<Byte>
  {
    (name + meta + Octal(n, 11)) + ([0] + after)
  }

  lemma {:induction false} FullHeaderReads(name: seq<Byte>, meta: seq<Byte>, n: nat, after: seq<Byte>, utf8: Decoder)
    requires ReadsAscii(utf8) && FullName(name, meta)
    ensures NameIn(FullHeader(name, meta, n, after), utf8) != Chars(name)
  {
    var tail := FullNameRead(name, meta, n, after);
    assert utf8.lossy(name + tail) == Chars(name + tail);
    NotMarked(name + tail);
    assert |Chars(name + tail)| > 100 == |Chars(name)|;
  }

  /** The bytes read as the name go on past its field. */
  lemma {:induction false} FullNameRead(name: seq<Byte>, meta: seq<Byte>, n: nat, after: seq<Byte>) returns (tail: seq<Byte>)
    requires FullName(name, meta)
    ensures Before(FullHeader(name, meta, n, after), IsNul) == name + tail && tail != [] && Ascii(name + tail)
    ensures (name + tail)[0] == name[0]
  {
    var rest := meta + Octal(n, 11) + ([0] + after);
    assert FullHeader(name, meta, n, after) == name + rest;
    BeforeConcat(name, rest, IsNul);
    BeforeAll(name);
    tail := Before(rest, IsNul);
    assert rest[0] == meta[0];
    BeforeAscii(meta + Octal(n, 11), after);
  }

  lemma {:induction false} BeforeAscii(s: seq<Byte>, after: seq<Byte>)
    requires Ascii(s)
    ensures Ascii(Before(s + ([0] + after), IsNul))
    decreases |s|
  {
    var all := s + ([0] + after);
    if s == [] {
      assert all[0] == 0;
    } else {
      assert all[0] == s[0] && all[1..] == s[1..] + ([0] + after);
      BeforeAscii(s[1..], after);
    }
  }

  lemma {:induction false} NotMarked(s: seq<Byte>)
    requires s != [] && s[0] != 46 && s[0] < 128
    ensures StripDotSlash(Chars(s)) == Chars(s) && |Chars(s)| == |s|
  {
    assert Chars(s)[0] != '.';
  }

  lemma {:induction false} FullHeaderSize(name: seq<Byte>, meta: seq<Byte>, n: nat, after: seq<Byte>, utf8: Decoder)
    requires ReadsAscii(utf8) && |name| == 100 && |meta| == 24 && |after| == 376 && n < Pow8(11)
    ensures |FullHeader(name, meta, n, after)| == BLOCK && SizeIn(FullHeader(name, meta, n, after), utf8) == n
  {
    var digits := Octal(n, 11);
    SizeSlice(name + meta, digits, after);
    BeforeStop(digits, [0], EndsNumber);
    OctalReads(n, 11);
    DigitsParse(digits);
    assert utf8.strict(digits) == Some(Chars(digits));
  }

  lemma {:induction false} SizeSlice(front: seq<Byte>, digits: seq<Byte>, after: seq<Byte>)
    requires |front| == 124 && |digits| == 11
    ensures ((front + digits) + ([0] + after))[124..136] == digits + [0]
  {
  }

  /** The member as written: its header, its data, its padding. */
  function FullMember(name: seq<Byte>, meta: seq<Byte>, after: seq<Byte>, data: seq<Byte>): seq<Byte>
  {
    FullHeader(name, meta, |data|, after) + data + Zeros(Padded(|data|) - |data|)
  }

  /** Such a member, alone in an archive, is not found under its name: the mode
      behind the name is read as part of it. */
  lemma {:induction false} FullNameIsMissed(name: seq<Byte>, meta: seq<Byte>, after: seq<Byte>, data: seq<Byte>, tail: seq<Byte>, utf8: Decoder)
    requires ReadsAscii(utf8) && FullName(name, meta) && |after| == 376 && |data| < Pow8(11) && EndOfArchive(tail)
    ensures Extract(FullMember(name, meta, after, data) + tail, Chars(name), utf8).None?
  {
    FullHeaderReads(name, meta, |data|, after, utf8);
    FullHeaderSize(name, meta, |data|, after, utf8);
    FullLayout(name, meta, after, data, utf8);
    Unnamed(FullMember(name, meta, after, data), FullHeader(name, meta, |data|, after), |data|, tail, Chars(name), utf8);
  }

  /** A lone member whose name reads otherwise is not found. */
  lemma {:induction false} Unnamed(member: seq<Byte>, header: seq<Byte>, n: nat, tail: seq<Byte>, name: string, utf8: Decoder)
    requires |member| == BLOCK + Padded(n) && member[..BLOCK] == header && EndOfArchive(tail)
    requires NameIn(header, utf8) != name && SizeIn(header, utf8) == n
    ensures Extract(member + tail, name, utf8).None?
  {
    LookMisses(header, n, |member| + |tail| - BLOCK, name, utf8);
    TailIsEmpty(tail, name, utf8);
    MissedThenNone(member, tail, LookFor(name, utf8));
  }

  lemma {:induction false} FullLayout(name: seq<Byte>, meta: seq<Byte>, after: seq<Byte>, data: seq<Byte>, utf8: Decoder)
    requires ReadsAscii(utf8) && FullName(name, meta) && |after| == 376 && |data| < Pow8(11)
    ensures var member := FullMember(name, meta, after, data);
      |member| == BLOCK + Padded(|data|) && member[..BLOCK] == FullHeader(name, meta, |data|, after)
  {
    FullHeaderSize(name, meta, |data|, after, utf8);
    PaddedCovers(|data|);
  }

  lemma {:induction false} LookMisses(header: seq<Byte>, n: nat, room: nat, name: string, utf8: Decoder)
    requires |header| == BLOCK && NameIn(header, utf8) != name && SizeIn(header, utf8) == n
    ensures LookAt(header, room, name, utf8) in {End, Skip(BLOCK + Padded(n))}
  {
  }

  lemma {:induction false} TailIsEmpty(tail: seq<Byte>, name: string, utf8: Decoder)
    requires EndOfArchive(tail)
    ensures From(tail, 0, LookFor(name, utf8)).None?
  {
  }

  lemma {:induction false} MissedThenNone(p: seq<Byte>, rest: seq<Byte>, look: Looker)
    requires Sound(look) && |p| >= BLOCK && look(p[..BLOCK], |p| + |rest| - BLOCK) in {End, Skip(|p|)}
    requires From(rest, 0, look).None?
    ensures From(p + rest, 0, look).None?
  {
    FromFirst(p, rest, look);
    assert (p + rest)[0..0 + BLOCK] == p[..BLOCK];
  }

  lemma {:induction false} PaddedCovers(size: nat)
    ensures size <= Padded(size)
  {
  }
}
