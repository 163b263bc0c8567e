/**
 * Base64 as the export and import use it. `btoa` is the encoding of
 * section 4 of RFC 4648 (the standard alphabet, `=` padding). `atob` is the
 * "forgiving-base64 decode" of the WHATWG Infra standard: it skips ASCII
 * whitespace, accepts the padding or its absence, and discards the bits left
 * over after the last whole byte.
 */
module Base64 {
  import opened Wrappers
  import opened Text
  import opened Utf8

  /** Table 1 of section 4: the character for each 6-bit value. */
  function SextetChar(x: int): (c: char)
    requires 0 <= x < 64
    ensures IsAlphabetChar(c)
  {
    if x < 26 then (65 + x) as char          // 'A'..'Z'
    else if x < 52 then (97 + x - 26) as char // 'a'..'z'
    else if x < 62 then (48 + x - 52) as char // '0'..'9'
    else if x == 62 then '+'
    else '/'
  }

  predicate IsAlphabetChar(c: char) {
    ('A' <= c <= 'Z') || ('a' <= c <= 'z') || ('0' <= c <= '9') || c == '+' || c == '/'
  }

  predicate AllAlphabet(d: string) {
    forall i :: 0 <= i < |d| ==> IsAlphabetChar(d[i])
  }

  /** The 6-bit value a character of the alphabet stands for. */
  function SextetValue(c: char): (x: int)
    requires IsAlphabetChar(c)
    ensures 0 <= x < 64 && SextetChar(x) == c
  {
    if 'A' <= c <= 'Z' then c as int - 65
    else if 'a' <= c <= 'z' then c as int - 97 + 26
    else if '0' <= c <= '9' then c as int - 48 + 52
    else if c == '+' then 62
    else 63
  }

  lemma SextetCharInAlphabet(x: int)
    requires 0 <= x < 64
    ensures IsAlphabetChar(SextetChar(x)) && SextetValue(SextetChar(x)) == x
  {
  }

  /** The four characters of a whole 3-byte group. */
  function EncodeGroup(b0: Byte, b1: Byte, b2: Byte): (s: string)
    ensures |s| == 4 && AllAlphabet(s)
  {
    [SextetChar(b0 / 4), SextetChar(b0 % 4 * 16 + b1 / 16), SextetChar(b1 % 16 * 4 + b2 / 64), SextetChar(b2 % 64)]
  }

  /** The characters of a final group of one or two bytes (its missing bits are zero). */
  function EncodeTail(bs: seq<Byte>): (s: string)
    requires 1 <= |bs| <= 2
    ensures |s| == |bs| + 1 && AllAlphabet(s)
  {
    var b1: Byte := if |bs| == 2 then bs[1] else 0;
    if |bs| == 1 then [SextetChar(bs[0] / 4), SextetChar(bs[0] % 4 * 16)]
    else [SextetChar(bs[0] / 4), SextetChar(bs[0] % 4 * 16 + b1 / 16), SextetChar(b1 % 16 * 4)]
  }

  /** The characters for `bs` without padding: 4 per 3 bytes, 2 or 3 for a final group of 1 or 2 bytes. */
  function EncodeUnpadded(bs: seq<Byte>): (s: string)
    ensures |s| == |bs| / 3 * 4 + (if |bs| % 3 == 0 then 0 else |bs| % 3 + 1)
    ensures |s| % 4 != 1 && AllAlphabet(s)
  {
    if |bs| == 0 then []
    else if |bs| <= 2 then EncodeTail(bs)
    else EncodeGroup(bs[0], bs[1], bs[2]) + EncodeUnpadded(bs[3..])
  }

  /** `btoa`: the unpadded characters followed by `==` or `=` to fill the last quantum. */
  function Encode(bs: seq<Byte>): (s: string)
    ensures |s| % 4 == 0 && |s| == (|bs| + 2) / 3 * 4
    ensures forall i :: 0 <= i < |s| ==> IsAlphabetChar(s[i]) || (s[i] == '=' && i >= |s| - 2)
  {
    var pad := if |bs| % 3 == 1 then "==" else if |bs| % 3 == 2 then "=" else "";
    PaddedLength(|bs|);
    PaddedChars(EncodeUnpadded(bs), pad);
    EncodeUnpadded(bs) + pad
  }

  /** Section 3.5 of RFC 4648: the bits that fill out a final group of one or two bytes are zero. */
  lemma EncodeTailCanonical(bs: seq<Byte>)
    requires 1 <= |bs| <= 2
    ensures var s := EncodeTail(bs); SextetValue(s[|s| - 1]) % (if |bs| == 1 then 16 else 4) == 0
  {
  }

  /** The last character before the padding carries zero spare bits, however long the input. */
  lemma {:induction false} EncodeUnpaddedCanonical(bs: seq<Byte>)
    requires |bs| % 3 != 0
    ensures var s := EncodeUnpadded(bs); SextetValue(s[|s| - 1]) % (if |bs| % 3 == 1 then 16 else 4) == 0
  {
    if |bs| <= 2 {
      EncodeTailCanonical(bs);
    } else {
      var rest := EncodeUnpadded(bs[3..]);
      assert EncodeUnpadded(bs) == EncodeGroup(bs[0], bs[1], bs[2]) + rest;
      EncodeUnpaddedCanonical(bs[3..]);
    }
  }

  /** `btoa` output is canonical: the character just before the `=` padding has its spare bits zero. */
  lemma EncodeCanonical(bs: seq<Byte>)
    requires |bs| % 3 != 0
    ensures var s := Encode(bs); var k := |bs| / 3 * 4 + |bs| % 3;
      k < |s| && IsAlphabetChar(s[k]) && SextetValue(s[k]) % (if |bs| % 3 == 1 then 16 else 4) == 0
  {
    var u := EncodeUnpadded(bs);
    EncodeUnpaddedCanonical(bs);
    assert Encode(bs)[|u| - 1] == u[|u| - 1];
  }

  lemma PaddedLength(n: nat)
    ensures var padding := if n % 3 == 1 then 2 else if n % 3 == 2 then 1 else 0;
      n / 3 * 4 + (if n % 3 == 0 then 0 else n % 3 + 1) + padding == (n + 2) / 3 * 4
  {
  }

  lemma PaddedChars(u: string, pad: string)
    requires AllAlphabet(u) && |pad| <= 2 && forall i :: 0 <= i < |pad| ==> pad[i] == '='
    ensures var s := u + pad;
      forall i :: 0 <= i < |s| ==> IsAlphabetChar(s[i]) || (s[i] == '=' && i >= |s| - 2)
  {
  }

  /** The bytes of up to four alphabet characters; the bits after the last whole byte are dropped. */
  function DecodeGroup(d: string): (bs: seq<Byte>)
    requires 2 <= |d| <= 4
    requires AllAlphabet(d)
    ensures |bs| == |d| - 1
  {
    var v0, v1 := SextetValue(d[0]), SextetValue(d[1]);
    if |d| == 2 then [v0 * 4 + v1 / 16]
    else
      var v2 := SextetValue(d[2]);
      if |d| == 3 then [v0 * 4 + v1 / 16, v1 % 16 * 16 + v2 / 4]
      else [v0 * 4 + v1 / 16, v1 % 16 * 16 + v2 / 4, v2 % 4 * 64 + SextetValue(d[3])]
  }

  /**
   * The bits of a 2- or 3-character final group beyond its last whole byte
   * are discarded: the group decodes as its canonical form, whose spare bits
   * (the low 4 of the second character, the low 2 of the third) are zero.
   */
  lemma SpareBitsDiscarded(d: string)
    requires (|d| == 2 || |d| == 3) && AllAlphabet(d)
    ensures var unit := if |d| == 2 then 16 else 4;
      DecodeGroup(d) == DecodeGroup(d[..|d| - 1] + [SextetChar(SextetValue(d[|d| - 1]) / unit * unit)])
  {
    var unit := if |d| == 2 then 16 else 4;
    var x := SextetValue(d[|d| - 1]) / unit * unit;
    SextetCharInAlphabet(x);
    var e := d[..|d| - 1] + [SextetChar(x)];
    assert e[0] == d[0] && e[|d| - 1] == SextetChar(x);
    if |d| == 3 {
      assert e[1] == d[1];
    }
  }

  /** The bytes a run of alphabet characters stands for, group by group. */
  function DecodeUnpadded(d: string): (bs: seq<Byte>)
    requires |d| % 4 != 1
    requires AllAlphabet(d)
    ensures |bs| == |d| * 3 / 4
  {
    if |d| == 0 then []
    else if |d| <= 4 then DecodeGroup(d)
    else
      var rest := d[4..];
      assert AllAlphabet(d[..4]) && AllAlphabet(rest);
      assert |rest| * 3 / 4 + 3 == |d| * 3 / 4;
      DecodeGroup(d[..4]) + DecodeUnpadded(rest)
  }

  /** Step 2 of forgiving decode: with a length that is a multiple of 4, one or two trailing `=` are dropped. */
  function StripPadding(d: string): (r: string)
    ensures |r| <= |d| && r == d[..|r|]
    ensures |r| < |d| ==> |d| % 4 == 0 && |d| - |r| <= 2 && forall j :: |r| <= j < |d| ==> d[j] == '='
  {
    if |d| % 4 == 0 && |d| >= 2 && d[|d| - 1] == '=' && d[|d| - 2] == '=' then d[..|d| - 2]
    else if |d| % 4 == 0 && |d| >= 1 && d[|d| - 1] == '=' then d[..|d| - 1]
    else d
  }

  /** The other direction: padding on a multiple of 4 characters is dropped, and nothing else is. */
  lemma StripPaddingDropsPadding(d: string)
    ensures |d| % 4 == 0 && |d| >= 2 && d[|d| - 1] == '=' && d[|d| - 2] == '=' ==> StripPadding(d) == d[..|d| - 2]
    ensures |d| % 4 == 0 && |d| >= 2 && d[|d| - 1] == '=' && d[|d| - 2] != '=' ==> StripPadding(d) == d[..|d| - 1]
    ensures |d| % 4 != 0 || d == [] || d[|d| - 1] != '=' ==> StripPadding(d) == d
  {
  }

  /**
   * `atob`: `None` where it throws. After whitespace and padding are removed,
   * a length of 1 modulo 4 or any character outside the alphabet is rejected.
   */
  function ForgivingDecode(s: string): (r: Option<seq<Byte>>)
    ensures var d := StripPadding(StripAsciiWhitespace(s));
      r.Some? <==> |d| % 4 != 1 && AllAlphabet(d)
    ensures r.Some? ==> |r.value| == |StripPadding(StripAsciiWhitespace(s))| * 3 / 4
    ensures r.Some? ==> forall c :: c in s ==> IsAlphabetChar(c) || c == '=' || IsAsciiWhitespace(c)
    ensures r.Some? ==> PaddingAtEnd(StripAsciiWhitespace(s))
  {
    var w := StripAsciiWhitespace(s);
    var d := StripPadding(w);
    if |d| % 4 == 1 || !AllAlphabet(d) then None
    else
      PaddingOnlyDropsEquals(w);
      EqualsOnlyInPadding(w);
      Some(DecodeUnpadded(d))
  }

  /**
   * Every `=` of `w` sits in a run of at most two at its very end, and `w`
   * then has a length that is a multiple of 4.
   */
  predicate PaddingAtEnd(w: string) {
    forall i :: 0 <= i < |w| && w[i] == '=' ==>
      (&& |w| % 4 == 0 && i >= |w| - 2
       && forall j :: i <= j < |w| ==> w[j] == '=')
  }

  /** When the padding strips to alphabet characters, the input's `=` were all padding. */
  lemma EqualsOnlyInPadding(w: string)
    requires AllAlphabet(StripPadding(w))
    ensures PaddingAtEnd(w)
  {
  }

  lemma PaddingOnlyDropsEquals(w: string)
    ensures forall c :: c in w ==> c in StripPadding(w) || c == '='
  {
    var d := StripPadding(w);
    forall c | c in w ensures c in d || c == '=' {
      var i :| 0 <= i < |w| && w[i] == c;
      if i < |d| { assert d[i] == c; }
    }
  }

  /** The bit arithmetic of one group: the three bytes are rebuilt from their four 6-bit values. */
  lemma GroupArithmetic(b0: Byte, b1: Byte, b2: Byte)
    ensures var v0, v1, v2, v3 := b0 / 4, b0 % 4 * 16 + b1 / 16, b1 % 16 * 4 + b2 / 64, b2 % 64;
      v0 * 4 + v1 / 16 == b0 && v1 % 16 * 16 + v2 / 4 == b1 && v2 % 4 * 64 + v3 == b2
  {
  }

  /** Four alphabet characters decode to the bytes their 6-bit values spell. */
  lemma DecodeFourValues(d: string, v0: int, v1: int, v2: int, v3: int)
    requires |d| == 4 && AllAlphabet(d)
    requires SextetValue(d[0]) == v0 && SextetValue(d[1]) == v1 && SextetValue(d[2]) == v2 && SextetValue(d[3]) == v3
    ensures DecodeGroup(d) == [v0 * 4 + v1 / 16, v1 % 16 * 16 + v2 / 4, v2 % 4 * 64 + v3]
  {
  }

  /** One group of three bytes comes back from its four characters. */
  lemma GroupRoundTrip(b0: Byte, b1: Byte, b2: Byte)
    ensures DecodeGroup(EncodeGroup(b0, b1, b2)) == [b0, b1, b2]
  {
    var g := EncodeGroup(b0, b1, b2);
    var v0, v1, v2, v3 := b0 / 4, b0 % 4 * 16 + b1 / 16, b1 % 16 * 4 + b2 / 64, b2 % 64;
    SextetCharInAlphabet(v0);
    SextetCharInAlphabet(v1);
    SextetCharInAlphabet(v2);
    SextetCharInAlphabet(v3);
    DecodeFourValues(g, v0, v1, v2, v3);
    GroupArithmetic(b0, b1, b2);
  }

  /** A final group of one or two bytes comes back from its two or three characters. */
  lemma TailRoundTrip(bs: seq<Byte>)
    requires 1 <= |bs| <= 2
    ensures DecodeGroup(EncodeTail(bs)) == bs
  {
    var b1: Byte := if |bs| == 2 then bs[1] else 0;
    SextetCharInAlphabet(bs[0] / 4);
    SextetCharInAlphabet(bs[0] % 4 * 16 + b1 / 16);
    SextetCharInAlphabet(b1 % 16 * 4);
  }

  /** Decoding a whole group followed by more characters decodes the group, then the rest. */
  lemma DecodeUnpaddedCons(g: string, rest: string)
    requires |g| == 4 && AllAlphabet(g) && AllAlphabet(rest) && |rest| % 4 != 1
    ensures AllAlphabet(g + rest)
    ensures DecodeUnpadded(g + rest) == DecodeGroup(g) + DecodeUnpadded(rest)
  {
    var s := g + rest;
    assert forall i :: 0 <= i < |s| ==> s[i] == if i < 4 then g[i] else rest[i - 4];
    if rest == [] {
      assert s == g;
    } else {
      assert s[..4] == g && s[4..] == rest;
    }
  }

  /** Inputs of at most two bytes come back from their characters. */
  lemma ShortRoundTrip(bs: seq<Byte>)
    requires |bs| <= 2
    ensures DecodeUnpadded(EncodeUnpadded(bs)) == bs
  {
    if |bs| > 0 {
      TailRoundTrip(bs);
      assert EncodeUnpadded(bs) == EncodeTail(bs);
    }
  }

  lemma SplitGroup(bs: seq<Byte>)
    requires |bs| >= 3
    ensures bs == [bs[0], bs[1], bs[2]] + bs[3..]
  {
  }

  /** Three or more bytes are encoded as their first group followed by the rest. */
  lemma EncodeUnpaddedStep(bs: seq<Byte>)
    requires |bs| >= 3
    ensures EncodeUnpadded(bs) == EncodeGroup(bs[0], bs[1], bs[2]) + EncodeUnpadded(bs[3..])
  {
  }

  /** If the bytes after the first group come back, so do all of them. */
  lemma GroupStep(bs: seq<Byte>)
    requires |bs| >= 3 && DecodeUnpadded(EncodeUnpadded(bs[3..])) == bs[3..]
    ensures DecodeUnpadded(EncodeUnpadded(bs)) == bs
  {
    var g, rest := EncodeGroup(bs[0], bs[1], bs[2]), EncodeUnpadded(bs[3..]);
    EncodeUnpaddedStep(bs);
    DecodeUnpaddedCons(g, rest);
    GroupRoundTrip(bs[0], bs[1], bs[2]);
    SplitGroup(bs);
  }

  /** Decoding the unpadded characters gives back the bytes. */
  lemma {:induction false} DecodeEncodeUnpadded(bs: seq<Byte>)
    ensures DecodeUnpadded(EncodeUnpadded(bs)) == bs
    decreases |bs|
  {
    if |bs| <= 2 {
      ShortRoundTrip(bs);
    } else {
      DecodeEncodeUnpadded(bs[3..]);
      GroupStep(bs);
    }
  }

  /** Input without whitespace whose padding strips to alphabet characters decodes as those characters. */
  lemma DecodeClean(s: string)
    requires forall i :: 0 <= i < |s| ==> !IsAsciiWhitespace(s[i])
    requires |StripPadding(s)| % 4 != 1 && AllAlphabet(StripPadding(s))
    ensures ForgivingDecode(s) == Some(DecodeUnpadded(StripPadding(s)))
  {
    assert StripAsciiWhitespace(s) == s;
  }

  /** `atob(btoa(x))` is `x` for every byte string. */
  lemma DecodeEncode(bs: seq<Byte>)
    ensures ForgivingDecode(Encode(bs)) == Some(bs)
  {
    var u := EncodeUnpadded(bs);
    var s := Encode(bs);
    assert StripPadding(s) == u by {
      if |bs| % 3 == 0 {
        assert s == u;
        assert |u| == 0 || IsAlphabetChar(u[|u| - 1]);
      } else if |bs| % 3 == 2 {
        assert IsAlphabetChar(u[|u| - 1]);
        assert s[..|s| - 1] == u;
      } else {
        assert s[..|s| - 2] == u;
      }
    }
    DecodeClean(s);
    DecodeEncodeUnpadded(bs);
  }

  /** The padding is optional: the unpadded characters decode to the same bytes. */
  lemma DecodeWithoutPadding(bs: seq<Byte>)
    ensures ForgivingDecode(EncodeUnpadded(bs)) == Some(bs)
  {
    var u := EncodeUnpadded(bs);
    assert StripPadding(u) == u by {
      assert |u| == 0 || IsAlphabetChar(u[|u| - 1]);
    }
    DecodeClean(u);
    DecodeEncodeUnpadded(bs);
  }

  /** ASCII whitespace anywhere in the input is ignored. */
  lemma WhitespaceIgnored(s: string)
    ensures ForgivingDecode(s) == ForgivingDecode(StripAsciiWhitespace(s))
  {
    var w := StripAsciiWhitespace(s);
    assert StripAsciiWhitespace(w) == w;
  }
}
