/**
 * Standard base64 (section 4 of RFC 4648: the alphabet A-Z a-z 0-9 + /,
 * `=` padding, no line breaks), the encoding format_irk_base64 asks of the
 * host library's base64_encode, with a decoder that inverts it.
 */
module Base64 {
  import opened Wrappers
  import opened Bytes

  /** The character for a 6-bit value (Table 1 of RFC 4648). */
  function Char(v: int): (c: char)
    requires 0 <= v < 64
    ensures Value(c) == Some(v)
  {
    if v < 26 then ('A' as int + v) as char
    else if v < 52 then ('a' as int + v - 26) as char
    else if v < 62 then ('0' as int + v - 52) as char
    else if v == 62 then '+'
    else '/'
  }

  /** The 6-bit value of an alphabet character; None for `=` and everything else. */
  function Value(c: char): (v: Option<int>)
    ensures v.Some? ==> 0 <= v.value < 64
  {
    if 'A' <= c <= 'Z' then Some(c as int - 'A' as int)
    else if 'a' <= c <= 'z' then Some(c as int - 'a' as int + 26)
    else if '0' <= c <= '9' then Some(c as int - '0' as int + 52)
    else if c == '+' then Some(62)
    else if c == '/' then Some(63)
    else None
  }

  predicate InAlphabet(c: char)
  {
    Value(c).Some?
  }

  /** Three bytes as four characters. */
  function EncodeGroup(b0: uint8, b1: uint8, b2: uint8): string
  {
    [Char(b0 / 4), Char((b0 % 4) * 16 + b1 / 16), Char((b1 % 16) * 4 + b2 / 64), Char(b2 % 64)]
  }

  /** A final group of one or two bytes, padded with `==` or `=`. */
  function EncodeTail(s: seq<uint8>): string
    requires |s| < 3
  {
    if |s| == 0 then ""
    else if |s| == 1 then [Char(s[0] / 4), Char((s[0] % 4) * 16), '=', '=']
    else [Char(s[0] / 4), Char((s[0] % 4) * 16 + s[1] / 16), Char((s[1] % 16) * 4), '=']
  }

  /** Groups of three bytes become four characters; the last one or two bytes
      become a padded group. */
  function Encode(s: seq<uint8>): string
    decreases |s|
  {
    if |s| < 3 then EncodeTail(s)
    else EncodeGroup(s[0], s[1], s[2]) + Encode(s[3..])
  }

  /** Three bytes from four 6-bit values. */
  function DecodeGroup(v0: int, v1: int, v2: int, v3: int): seq<uint8>
    requires 0 <= v0 < 64 && 0 <= v1 < 64 && 0 <= v2 < 64 && 0 <= v3 < 64
  {
    [v0 * 4 + v1 / 16, (v1 % 16) * 16 + v2 / 4, (v2 % 4) * 64 + v3]
  }

  /** A group of four alphabet characters, as three bytes. */
  function DecodeFull(c0: char, c1: char, c2: char, c3: char): Option<seq<uint8>>
  {
    var v0, v1, v2, v3 := Value(c0), Value(c1), Value(c2), Value(c3);
    if v0.None? || v1.None? || v2.None? || v3.None? then None
    else Some(DecodeGroup(v0.value, v1.value, v2.value, v3.value))
  }

  /** The last group, which alone may end in `==` (one byte) or `=` (two bytes). */
  function DecodeLast(c0: char, c1: char, c2: char, c3: char): Option<seq<uint8>>
  {
    var v0, v1, v2 := Value(c0), Value(c1), Value(c2);
    if v0.None? || v1.None? then None
    else if c2 == '=' && c3 == '=' then Some([v0.value * 4 + v1.value / 16])
    else if v2.Some? && c3 == '=' then Some([v0.value * 4 + v1.value / 16, (v1.value % 16) * 16 + v2.value / 4])
    else DecodeFull(c0, c1, c2, c3)
  }

  /** Decodes four characters at a time; padding is accepted only in the last group. */
  function Decode(t: string): Option<seq<uint8>>
    decreases |t|
  {
    if |t| == 0 then Some([])
    else if |t| < 4 then None
    else if |t| == 4 then DecodeLast(t[0], t[1], t[2], t[3])
    else Join(DecodeFull(t[0], t[1], t[2], t[3]), Decode(t[4..]))
  }

  /** The bytes of a group followed by the bytes of the rest, if both decoded. */
  function Join(head: Option<seq<uint8>>, rest: Option<seq<uint8>>): Option<seq<uint8>>
  {
    if head.None? || rest.None? then None else Some(head.value + rest.value)
  }

  /** The arithmetic of one full group: the four 6-bit values give back the three bytes. */
  lemma GroupArithmetic(b0: uint8, b1: uint8, b2: uint8)
    ensures DecodeGroup(b0 / 4, (b0 % 4) * 16 + b1 / 16, (b1 % 16) * 4 + b2 / 64, b2 % 64) == [b0, b1, b2]
  {
    var c1 := (b0 % 4) * 16 + b1 / 16;
    assert c1 / 16 == b0 % 4 && c1 % 16 == b1 / 16;
    var c2 := (b1 % 16) * 4 + b2 / 64;
    assert c2 / 4 == b1 % 16 && c2 % 4 == b2 / 64;
  }

  /** The arithmetic of a final pair: three 6-bit values give back the two bytes. */
  lemma PairArithmetic(b0: uint8, b1: uint8)
    ensures (b0 / 4) * 4 + ((b0 % 4) * 16 + b1 / 16) / 16 == b0
    ensures (((b0 % 4) * 16 + b1 / 16) % 16) * 16 + ((b1 % 16) * 4) / 4 == b1
  {
    var v1 := (b0 % 4) * 16 + b1 / 16;
    assert v1 / 16 == b0 % 4 && v1 % 16 == b1 / 16;
  }

  /** The arithmetic of a final single byte: two 6-bit values give it back. */
  lemma SingleArithmetic(b0: uint8)
    ensures (b0 / 4) * 4 + ((b0 % 4) * 16) / 16 == b0
  {
  }

  /** A group of four alphabet characters. */
  lemma GroupAlphabet(b0: uint8, b1: uint8, b2: uint8)
    ensures |EncodeGroup(b0, b1, b2)| == 4
    ensures forall i :: 0 <= i < 4 ==> InAlphabet(EncodeGroup(b0, b1, b2)[i])
  {
    var g := EncodeGroup(b0, b1, b2);
    assert InAlphabet(g[0]) && InAlphabet(g[1]) && InAlphabet(g[2]) && InAlphabet(g[3]);
  }

  /** How many `=` close the encoding of `n` bytes. */
  function Padding(n: nat): nat
  {
    if n % 3 == 1 then 2 else if n % 3 == 2 then 1 else 0
  }

  /** `t` is the shape of an encoding of `n` bytes: four characters per started
      group of three, the last `Padding(n)` of them `=`, the rest alphabet characters. */
  predicate PaddedShape(t: string, n: nat)
  {
    && |t| == 4 * ((n + 2) / 3)
    && (forall i :: 0 <= i < |t| - Padding(n) ==> InAlphabet(t[i]))
    && (forall i :: |t| - Padding(n) <= i < |t| ==> t[i] == '=')
  }

  /** Unfolding Encode at a full group. */
  lemma EncodeStep(s: seq<uint8>)
    requires |s| >= 3
    ensures Encode(s) == EncodeGroup(s[0], s[1], s[2]) + Encode(s[3..])
  {
  }

  /** The final group, padded as `Padding` says. */
  lemma TailPadding(s: seq<uint8>)
    requires |s| < 3
    ensures PaddedShape(Encode(s), |s|)
  {
    var t := Encode(s);
    if |s| == 1 {
      assert InAlphabet(t[0]) && InAlphabet(t[1]);
    } else if |s| == 2 {
      assert InAlphabet(t[0]) && InAlphabet(t[1]) && InAlphabet(t[2]);
    }
  }

  /** A group of four alphabet characters in front keeps the shape, three bytes on. */
  lemma PaddingStep(g: string, rest: string, n: nat)
    requires |g| == 4 && forall i :: 0 <= i < 4 ==> InAlphabet(g[i])
    requires PaddedShape(rest, n)
    ensures PaddedShape(g + rest, n + 3)
  {
    var t, pad := g + rest, Padding(n);
    assert Padding(n + 3) == pad;
    assert |t| == 4 * ((n + 5) / 3);
    assert pad <= |rest| by {
      if pad > 0 {
        assert (n + 2) / 3 >= 1;
      }
    }
    forall i | 0 <= i < |t| - pad
      ensures InAlphabet(t[i])
    {
      if i < 4 {
        assert t[i] == g[i];
      } else {
        assert t[i] == rest[i - 4];
      }
    }
    forall i | |t| - pad <= i < |t|
      ensures t[i] == '='
    {
      assert t[i] == rest[i - 4];
    }
  }

  /** Groups of four characters; only the last group carries padding, one `=`
      for a final pair of bytes, two for a final single byte, none otherwise. */
  lemma {:induction false} EncodePadding(s: seq<uint8>)
    ensures PaddedShape(Encode(s), |s|)
    decreases |s|
  {
    if |s| < 3 {
      TailPadding(s);
    } else {
      EncodeStep(s);
      GroupAlphabet(s[0], s[1], s[2]);
      EncodePadding(s[3..]);
      PaddingStep(EncodeGroup(s[0], s[1], s[2]), Encode(s[3..]), |s| - 3);
    }
  }

  /** Decoding a final group with two padding characters. */
  lemma DecodeSingle(v0: int, v1: int)
    requires 0 <= v0 < 64 && 0 <= v1 < 64
    ensures Decode([Char(v0), Char(v1), '=', '=']) == Some([v0 * 4 + v1 / 16])
  {
    var t := [Char(v0), Char(v1), '=', '='];
    assert Decode(t) == DecodeLast(t[0], t[1], t[2], t[3]);
  }

  /** Decoding a final group with one padding character. */
  lemma DecodePair(v0: int, v1: int, v2: int)
    requires 0 <= v0 < 64 && 0 <= v1 < 64 && 0 <= v2 < 64
    ensures Decode([Char(v0), Char(v1), Char(v2), '=']) == Some([v0 * 4 + v1 / 16, (v1 % 16) * 16 + v2 / 4])
  {
    var t := [Char(v0), Char(v1), Char(v2), '='];
    assert Decode(t) == DecodeLast(t[0], t[1], t[2], t[3]);
    assert Char(v2) != '=';
  }

  /** Decoding a group of four alphabet characters, inner or last. */
  lemma DecodeQuad(v0: int, v1: int, v2: int, v3: int)
    requires 0 <= v0 < 64 && 0 <= v1 < 64 && 0 <= v2 < 64 && 0 <= v3 < 64
    ensures DecodeFull(Char(v0), Char(v1), Char(v2), Char(v3)) == Some(DecodeGroup(v0, v1, v2, v3))
    ensures DecodeLast(Char(v0), Char(v1), Char(v2), Char(v3)) == Some(DecodeGroup(v0, v1, v2, v3))
  {
    assert Char(v2) != '=' && Char(v3) != '=';
  }

  /** Decoding a string that starts with a group of four characters. */
  lemma DecodeAppend(g: string, rest: string)
    requires |g| == 4
    ensures |rest| == 0 ==> Decode(g + rest) == DecodeLast(g[0], g[1], g[2], g[3])
    ensures |rest| > 0 ==> Decode(g + rest) == Join(DecodeFull(g[0], g[1], g[2], g[3]), Decode(rest))
  {
    var t := g + rest;
    assert t[0] == g[0] && t[1] == g[1] && t[2] == g[2] && t[3] == g[3];
    assert t[4..] == rest;
  }

  /** Unfolding Encode at a final single byte. */
  lemma EncodeOne(s: seq<uint8>)
    requires |s| == 1
    ensures Encode(s) == [Char(s[0] / 4), Char((s[0] % 4) * 16), '=', '=']
  {
  }

  /** Unfolding Encode at a final pair of bytes. */
  lemma EncodeTwo(s: seq<uint8>)
    requires |s| == 2
    ensures Encode(s) == [Char(s[0] / 4), Char((s[0] % 4) * 16 + s[1] / 16), Char((s[1] % 16) * 4), '=']
  {
  }

  /** The group encoding one byte decodes to it. */
  lemma SingleRoundTrip(b0: uint8)
    ensures Decode([Char(b0 / 4), Char((b0 % 4) * 16), '=', '=']) == Some([b0])
  {
    DecodeSingle(b0 / 4, (b0 % 4) * 16);
    SingleArithmetic(b0);
  }

  /** The group encoding two bytes decodes to them. */
  lemma PairRoundTrip(b0: uint8, b1: uint8)
    ensures Decode([Char(b0 / 4), Char((b0 % 4) * 16 + b1 / 16), Char((b1 % 16) * 4), '=']) == Some([b0, b1])
  {
    DecodePair(b0 / 4, (b0 % 4) * 16 + b1 / 16, (b1 % 16) * 4);
    PairArithmetic(b0, b1);
  }

  /** A final single byte, padded with `==`. */
  lemma RoundTripOne(s: seq<uint8>)
    requires |s| == 1
    ensures Decode(Encode(s)) == Some(s)
  {
    EncodeOne(s);
    SingleRoundTrip(s[0]);
    assert [s[0]] == s;
  }

  /** A final pair of bytes, padded with `=`. */
  lemma RoundTripTwo(s: seq<uint8>)
    requires |s| == 2
    ensures Decode(Encode(s)) == Some(s)
  {
    EncodeTwo(s);
    PairRoundTrip(s[0], s[1]);
    assert [s[0], s[1]] == s;
  }

  /** A full group decodes to its three bytes, as an inner or as the last group. */
  lemma GroupRoundTrip(b0: uint8, b1: uint8, b2: uint8)
    ensures var g := EncodeGroup(b0, b1, b2); DecodeFull(g[0], g[1], g[2], g[3]) == Some([b0, b1, b2])
    ensures var g := EncodeGroup(b0, b1, b2); DecodeLast(g[0], g[1], g[2], g[3]) == Some([b0, b1, b2])
  {
    DecodeQuad(b0 / 4, (b0 % 4) * 16 + b1 / 16, (b1 % 16) * 4 + b2 / 64, b2 % 64);
    GroupArithmetic(b0, b1, b2);
  }

  /** Decoding the encoding of any byte string gives it back. */
  lemma {:induction false} RoundTrip(s: seq<uint8>)
    ensures Decode(Encode(s)) == Some(s)
    decreases |s|
  {
    if |s| == 1 {
      RoundTripOne(s);
    } else if |s| == 2 {
      RoundTripTwo(s);
    } else if |s| >= 3 {
      var g, rest := EncodeGroup(s[0], s[1], s[2]), Encode(s[3..]);
      EncodeStep(s);
      GroupAlphabet(s[0], s[1], s[2]);
      DecodeAppend(g, rest);
      GroupRoundTrip(s[0], s[1], s[2]);
      RoundTrip(s[3..]);
      if |s| == 3 {
        assert rest == "";
        assert [s[0], s[1], s[2]] == s;
        assert Decode(g + rest) == Some(s);
      } else {
        EncodePadding(s[3..]);
        assert |rest| > 0;
        assert [s[0], s[1], s[2]] + s[3..] == s;
        assert Decode(g + rest) == Some(s);
      }
      assert Encode(s) == g + rest;
    }
  }
}
