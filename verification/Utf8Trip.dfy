/** Encoding and decoding are inverse: section 3 of RFC 3629. */
module Utf8Trip {
  import opened Utf8

  function EncodeChar(c: char): (u: seq<Byte>)
    ensures 1 <= |u| <= 4
  {
    var n := c as int;
    if n < 0x80 then [n]
    else if n < 0x800 then [0xC0 + n / 64, 0x80 + n % 64]
    else if n < 0x10000 then [0xE0 + n / 4096, 0x80 + n / 64 % 64, 0x80 + n % 64]
    else [0xF0 + n / 262144, 0x80 + n / 4096 % 64, 0x80 + n / 64 % 64, 0x80 + n % 64]
  }

  function Encode(s: string): seq<Byte>
  {
    if s == "" then [] else EncodeChar(s[0]) + Encode(s[1..])
  }

  /** A character's bytes are one unit, whatever follows, and read as it. */
  lemma {:induction false} CharUnit(c: char, rest: seq<Byte>)
    ensures var u := EncodeChar(c);
      && UnitLen(u + rest) == UnitLen(u) == |u| == 1 + Need(u[0]) && (Need(u[0]) == 0 ==> u[0] < 0x80)
      && UnitChar(u) == c
  {
    var n, u := c as int, EncodeChar(c);
    assert forall i :: 0 <= i < |u| ==> (u + rest)[i] == u[i];
    if n >= 0x10000 {
      CharUnit4(c);
    } else if n >= 0x800 {
      CharUnit3(c);
    }
  }

  lemma {:induction false} Digits(n: nat)
    ensures n == 64 * (n / 64) + n % 64
    ensures n / 64 == 64 * (n / 4096) + n / 64 % 64
    ensures n / 4096 == 64 * (n / 262144) + n / 4096 % 64
  {
    assert n / 4096 == n / 64 / 64 && n / 262144 == n / 4096 / 64;
  }

  lemma {:induction false} CharUnit3(c: char)
    requires 0x800 <= c as int < 0x10000
    ensures var u := EncodeChar(c);
      UnitLen(u) == 3 && Need(u[0]) == 2 && SecondFits(u[0], u[1]) && IsTail(u[2]) && UnitChar(u) == c
  {
    Digits(c as int);
  }

  lemma {:induction false} CharUnit4(c: char)
    requires 0x10000 <= c as int
    ensures var u := EncodeChar(c);
      && UnitLen(u) == 4 && Need(u[0]) == 3 && SecondFits(u[0], u[1]) && IsTail(u[2]) && IsTail(u[3]) && UnitChar(u) == c
  {
    Digits(c as int);
  }

  /** Every text encodes to complete characters and decodes to itself. */
  lemma {:induction false} EncodeDecode(s: string)
    ensures WellFormed(Encode(s)) && Decode(Encode(s)) == s
  {
    if s != "" {
      var u, rest := EncodeChar(s[0]), Encode(s[1..]);
      CharUnit(s[0], rest);
      EncodeDecode(s[1..]);
      assert (u + rest)[..|u|] == u && (u + rest)[|u|..] == rest;
      DecodeCons(u + rest);
      assert s == [s[0]] + s[1..];
    }
  }

  /** A complete character in its bytes. */
  lemma {:induction false} UnitEncodes(u: seq<Byte>)
    requires u != [] && UnitLen(u) == |u| == 1 + Need(u[0]) && (Need(u[0]) == 0 ==> u[0] < 0x80)
    ensures EncodeChar(UnitChar(u)) == u
  {
    if |u| == 3 {
      UnitEncodes3(u);
    } else if |u| == 4 {
      UnitEncodes4(u);
    }
  }

  lemma {:induction false} Split(high: int, low: int, n: int)
    requires 0 <= low < 64 && 0 <= high && n == 64 * high + low
    ensures n / 64 == high && n % 64 == low && n / 4096 == high / 64 && n / 262144 == high / 4096
  {
    assert n / 4096 == n / 64 / 64 && n / 262144 == n / 64 / 4096;
  }

  lemma {:induction false} UnitEncodes3(u: seq<Byte>)
    requires |u| == 3 && Need(u[0]) == 2 && UnitLen(u) == 3
    ensures EncodeChar(UnitChar(u)) == u
  {
    var b0: int, b1: int, b2: int := u[0], u[1], u[2];
    var n: int := 4096 * (b0 - 0xE0) + 64 * (b1 - 0x80) + (b2 - 0x80);
    assert UnitChar(u) as int == n;
    assert 0x800 <= n < 0x10000;
    Split(64 * (b0 - 0xE0) + (b1 - 0x80), b2 - 0x80, n);
    Split(b0 - 0xE0, b1 - 0x80, n / 64);
  }

  lemma {:induction false} UnitEncodes4(u: seq<Byte>)
    requires |u| == 4 && Need(u[0]) == 3 && UnitLen(u) == 4
    ensures EncodeChar(UnitChar(u)) == u
  {
    var b0: int, b1: int, b2: int, b3: int := u[0], u[1], u[2], u[3];
    var n: int := 262144 * (b0 - 0xF0) + 4096 * (b1 - 0x80) + 64 * (b2 - 0x80) + (b3 - 0x80);
    assert UnitChar(u) as int == n;
    assert 0x10000 <= n;
    Split(64 * (64 * (b0 - 0xF0) + (b1 - 0x80)) + (b2 - 0x80), b3 - 0x80, n);
    Split(64 * (b0 - 0xF0) + (b1 - 0x80), b2 - 0x80, n / 64);
    Split(b0 - 0xF0, b1 - 0x80, n / 4096);
  }

  lemma {:induction false} EncodeCons(c: char, s: string)
    ensures Encode([c] + s) == EncodeChar(c) + Encode(s)
  {
    assert ([c] + s)[1..] == s;
  }

  /** And complete characters are the encoding of what they decode to: no byte
      sequence is a second spelling. */
  lemma {:induction false} DecodeEncode(s: seq<Byte>)
    requires WellFormed(s)
    ensures Encode(Decode(s)) == s
    decreases |s|
  {
    if s != [] {
      var u, rest := s[..UnitLen(s)], s[UnitLen(s)..];
      HeadComplete(s);
      DecodeCons(s);
      UnitEncodes(u);
      DecodeEncode(rest);
      EncodeCons(UnitChar(u), Decode(rest));
    }
  }

  lemma {:induction false} HeadComplete(s: seq<Byte>)
    requires s != [] && WellFormed(s)
    ensures var u, rest := s[..UnitLen(s)], s[UnitLen(s)..];
      && u != [] && UnitLen(u) == |u| == 1 + Need(u[0]) && (Need(u[0]) == 0 ==> u[0] < 0x80)
      && WellFormed(rest) && s == u + rest
  {
    UnitAlone(s);
  }
}
