/**
 * UTF-8 as defined in RFC 3629. The export builds its bytes with
 * `unescape(encodeURIComponent(text))` and the import reads them back with
 * `decodeURIComponent(escape(binary))`; together these are exactly the
 * encoding of section 3 and the well-formedness table of section 4, which
 * rejects overlong forms, surrogates and values above U+10FFFF.
 */
module Utf8 {
  import opened Wrappers

  type Byte = b: int | 0 <= b < 256

  /** The bytes of one scalar value: 1 to 4 bytes, by the ranges of section 3. */
  function EncodeChar(c: char): (bs: seq<Byte>)
    ensures 1 <= |bs| <= 4
  {
    var n := c as int;
    if n < 0x80 then [n]
    else if n < 0x800 then [0xC0 + n / 64, 0x80 + n % 64]
    else if n < 0x10000 then [0xE0 + n / 64 / 64, 0x80 + n / 64 % 64, 0x80 + n % 64]
    else [0xF0 + n / 64 / 64 / 64, 0x80 + n / 64 / 64 % 64, 0x80 + n / 64 % 64, 0x80 + n % 64]
  }

  /** `unescape(encodeURIComponent(s))`, read as bytes. */
  function Encode(s: string): (bs: seq<Byte>)
    ensures |s| <= |bs| <= 4 * |s|
    ensures (forall i :: 0 <= i < |s| ==> s[i] as int < 0x80) ==>
      |bs| == |s| && forall i :: 0 <= i < |s| ==> bs[i] == s[i] as int
  {
    if s == [] then [] else EncodeChar(s[0]) + Encode(s[1..])
  }

  predicate InBytes(b: Byte, lo: int, hi: int) {
    lo <= b <= hi
  }

  /**
   * The first well-formed byte sequence at the front of `bs`, per the table
   * of section 4: the scalar value it encodes and how many bytes it takes.
   */
  function DecodeFirst(bs: seq<Byte>): (r: Option<(char, nat)>)
    requires bs != []
    ensures r.Some? ==> 1 <= r.value.1 <= |bs| && r.value.1 <= 4
  {
    var b0: int := bs[0];
    if b0 < 0x80 then Some((b0 as char, 1))
    else if 0xC2 <= b0 <= 0xDF then
      if |bs| >= 2 && InBytes(bs[1], 0x80, 0xBF)
      then Some((((b0 - 0xC0) * 64 + (bs[1] as int - 0x80)) as char, 2))
      else None
    else if 0xE0 <= b0 <= 0xEF then
      var lo := if b0 == 0xE0 then 0xA0 else 0x80;
      var hi := if b0 == 0xED then 0x9F else 0xBF;
      if |bs| >= 3 && InBytes(bs[1], lo, hi) && InBytes(bs[2], 0x80, 0xBF)
      then Some((((b0 - 0xE0) * 4096 + (bs[1] as int - 0x80) * 64 + (bs[2] as int - 0x80)) as char, 3))
      else None
    else if 0xF0 <= b0 <= 0xF4 then
      var lo := if b0 == 0xF0 then 0x90 else 0x80;
      var hi := if b0 == 0xF4 then 0x8F else 0xBF;
      if |bs| >= 4 && InBytes(bs[1], lo, hi) && InBytes(bs[2], 0x80, 0xBF) && InBytes(bs[3], 0x80, 0xBF)
      then Some((((b0 - 0xF0) * 262144 + (bs[1] as int - 0x80) * 4096 + (bs[2] as int - 0x80) * 64 + (bs[3] as int - 0x80)) as char, 4))
      else None
    else None
  }

  /** `decodeURIComponent(escape(binary))`: `None` where that throws a URIError. */
  function Decode(bs: seq<Byte>): (r: Option<string>)
    ensures r.Some? ==> |r.value| <= |bs| <= 4 * |r.value|
    decreases |bs|
  {
    if bs == [] then Some([])
    else match DecodeFirst(bs)
      case None => None
      case Some((c, n)) =>
        match Decode(bs[n..])
        case None => None
        case Some(rest) => Some([c] + rest)
  }

  /** Each encoded scalar value is read back whole, whatever follows it. */
  lemma DecodeFirstEncodeChar(c: char, rest: seq<Byte>)
    ensures DecodeFirst(EncodeChar(c) + rest) == Some((c, |EncodeChar(c)|))
  {
  }

  /** Decoding inverts encoding: every string survives the round trip. */
  lemma {:induction false} DecodeEncode(s: string)
    ensures Decode(Encode(s)) == Some(s)
  {
    if s != [] {
      var e, rest := EncodeChar(s[0]), Encode(s[1..]);
      assert Encode(s) == e + rest;
      DecodeFirstEncodeChar(s[0], rest);
      assert (e + rest)[|e|..] == rest;
      DecodeEncode(s[1..]);
      assert Decode(e + rest) == Some([s[0]] + s[1..]);
      assert [s[0]] + s[1..] == s;
    }
  }

  /** A well-formed sequence at the front re-encodes to exactly the bytes it was read from. */
  lemma EncodeCharDecodeFirst(bs: seq<Byte>)
    requires bs != [] && DecodeFirst(bs).Some?
    ensures EncodeChar(DecodeFirst(bs).value.0) == bs[..DecodeFirst(bs).value.1]
  {
    var b0: int := bs[0];
    if b0 < 0x80 {
    } else if b0 <= 0xDF {
      TwoByteForm(b0, bs[1]);
      assert bs[..2] == [bs[0], bs[1]];
    } else if b0 <= 0xEF {
      ThreeByteForm(b0, bs[1], bs[2]);
      assert bs[..3] == [bs[0], bs[1], bs[2]];
    } else {
      FourByteForm(b0, bs[1], bs[2], bs[3]);
      assert bs[..4] == [bs[0], bs[1], bs[2], bs[3]];
    }
  }

  lemma TwoByteForm(b0: int, b1: int)
    requires 0xC2 <= b0 <= 0xDF && 0x80 <= b1 <= 0xBF
    ensures var n := (b0 - 0xC0) * 64 + (b1 - 0x80);
      0x80 <= n < 0x800 && 0xC0 + n / 64 == b0 && 0x80 + n % 64 == b1
  {
  }

  lemma ThreeByteForm(b0: int, b1: int, b2: int)
    requires 0xE0 <= b0 <= 0xEF && 0x80 <= b1 <= 0xBF && 0x80 <= b2 <= 0xBF
    requires b0 == 0xE0 ==> b1 >= 0xA0
    ensures var n := (b0 - 0xE0) * 4096 + (b1 - 0x80) * 64 + (b2 - 0x80);
      0x800 <= n < 0x10000 && 0xE0 + n / 64 / 64 == b0 && 0x80 + n / 64 % 64 == b1 && 0x80 + n % 64 == b2
  {
    var n := (b0 - 0xE0) * 4096 + (b1 - 0x80) * 64 + (b2 - 0x80);
    assert n / 64 == (b0 - 0xE0) * 64 + (b1 - 0x80);
  }

  lemma FourByteForm(b0: int, b1: int, b2: int, b3: int)
    requires 0xF0 <= b0 <= 0xF4 && 0x80 <= b1 <= 0xBF && 0x80 <= b2 <= 0xBF && 0x80 <= b3 <= 0xBF
    requires b0 == 0xF0 ==> b1 >= 0x90
    ensures var n := (b0 - 0xF0) * 262144 + (b1 - 0x80) * 4096 + (b2 - 0x80) * 64 + (b3 - 0x80);
      && 0x10000 <= n
      && 0xF0 + n / 64 / 64 / 64 == b0 && 0x80 + n / 64 / 64 % 64 == b1
      && 0x80 + n / 64 % 64 == b2 && 0x80 + n % 64 == b3
  {
    var n := (b0 - 0xF0) * 262144 + (b1 - 0x80) * 4096 + (b2 - 0x80) * 64 + (b3 - 0x80);
    assert n / 64 == (b0 - 0xF0) * 4096 + (b1 - 0x80) * 64 + (b2 - 0x80);
    assert n / 64 / 64 == (b0 - 0xF0) * 64 + (b1 - 0x80);
  }

  /** A successful decode reads one scalar value at the front, then decodes the rest. */
  lemma DecodeStep(bs: seq<Byte>)
    requires bs != [] && Decode(bs).Some?
    ensures DecodeFirst(bs).Some?
    ensures var n := DecodeFirst(bs).value.1;
      Decode(bs[n..]).Some? && Decode(bs).value == [DecodeFirst(bs).value.0] + Decode(bs[n..]).value
  {
  }

  /** Encoding a string that starts with `c` starts with the encoding of `c`. */
  lemma EncodeCons(c: char, rest: string)
    ensures Encode([c] + rest) == EncodeChar(c) + Encode(rest)
  {
    assert ([c] + rest)[1..] == rest;
  }

  /** A scalar value's encoding followed by the encoding of the rest is the encoding of the whole. */
  lemma EncodeJoin(bs: seq<Byte>, c: char, n: nat, rest: string)
    requires n <= |bs| && EncodeChar(c) == bs[..n] && Encode(rest) == bs[n..]
    ensures Encode([c] + rest) == bs
  {
    EncodeCons(c, rest);
    assert bs == bs[..n] + bs[n..];
  }

  /** Encoding inverts decoding: accepted bytes are exactly the encoding of what they decode to. */
  lemma {:induction false} EncodeDecode(bs: seq<Byte>)
    requires Decode(bs).Some?
    ensures Encode(Decode(bs).value) == bs
    decreases |bs|
  {
    if bs != [] {
      DecodeStep(bs);
      var c, n := DecodeFirst(bs).value.0, DecodeFirst(bs).value.1;
      EncodeDecode(bs[n..]);
      EncodeCharDecodeFirst(bs);
      EncodeJoin(bs, c, n, Decode(bs[n..]).value);
    }
  }
}
