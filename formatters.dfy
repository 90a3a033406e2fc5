/**
 * The key and address formatters of the IRK component: a 6-byte address and a
 * 16-byte IRK turned into the text handed to the text sensors.  All of them
 * are total functions on fixed-size inputs.
 */
module Formatters {
  import opened Wrappers
  import opened Bytes
  import Base64

  // ---------------------------------------------------------------------------
  // Hexadecimal digits, as printed by `%02X` (upper case) and by
  // `std::hex << std::setw(2) << std::setfill('0')` (lower case).
  // ---------------------------------------------------------------------------

  /** The digit for 0 <= n < 16, in the chosen case. */
  function HexDigit(n: int, upper: bool): (c: char)
    requires 0 <= n < 16
    ensures DigitValue(c, upper) == Some(n)
  {
    if n < 10 then ('0' as int + n) as char
    else if upper then ('A' as int + n - 10) as char
    else ('a' as int + n - 10) as char
  }

  /** The value of a hex digit of the chosen case, or None for any other character. */
  function DigitValue(c: char, upper: bool): (v: Option<int>)
    ensures v.Some? ==> 0 <= v.value < 16
  {
    if '0' <= c <= '9' then Some(c as int - '0' as int)
    else if upper && 'A' <= c <= 'F' then Some(c as int - 'A' as int + 10)
    else if !upper && 'a' <= c <= 'f' then Some(c as int - 'a' as int + 10)
    else None
  }

  /** Every accepted digit is the one HexDigit prints for its value. */
  lemma DigitValueCanonical(c: char, upper: bool)
    requires DigitValue(c, upper).Some?
    ensures HexDigit(DigitValue(c, upper).value, upper) == c
  {
  }

  /** A byte as exactly two hex digits, zero padded. */
  function HexByte(b: uint8, upper: bool): (r: string)
    ensures |r| == 2
    ensures ParseHexByte(r[0], r[1], upper) == Some(b)
  {
    [HexDigit(b / 16, upper), HexDigit(b % 16, upper)]
  }

  /** Reads two hex digits of the chosen case back into a byte. */
  function ParseHexByte(hi: char, lo: char, upper: bool): Option<uint8>
  {
    var h := DigitValue(hi, upper);
    var l := DigitValue(lo, upper);
    if h.Some? && l.Some? then Some(h.value * 16 + l.value) else None
  }

  /** Two characters that parse as a byte are that byte's two printed digits. */
  lemma ParseHexByteCanonical(hi: char, lo: char, upper: bool)
    requires ParseHexByte(hi, lo, upper).Some?
    ensures HexByte(ParseHexByte(hi, lo, upper).value, upper) == [hi, lo]
  {
    var h := DigitValue(hi, upper).value;
    var l := DigitValue(lo, upper).value;
    DigitValueCanonical(hi, upper);
    DigitValueCanonical(lo, upper);
    var b := h * 16 + l;
    assert b / 16 == h && b % 16 == l;
  }

  // ---------------------------------------------------------------------------
  // format_address: snprintf("%02X:%02X:%02X:%02X:%02X:%02X", addr[0..5])
  // ---------------------------------------------------------------------------

  function FormatAddress(addr: Address): string
  {
    HexByte(addr[0], true) + ":" + HexByte(addr[1], true) + ":" + HexByte(addr[2], true) + ":" +
    HexByte(addr[3], true) + ":" + HexByte(addr[4], true) + ":" + HexByte(addr[5], true)
  }

  /** The text shape `^[0-9A-F]{2}(:[0-9A-F]{2}){5}$`. */
  predicate AddressShaped(s: string)
  {
    && |s| == 17
    && (forall k :: 0 <= k < 6 ==> DigitValue(s[3 * k], true).Some? && DigitValue(s[3 * k + 1], true).Some?)
    && (forall k :: 0 <= k < 5 ==> s[3 * k + 2] == ':')
  }

  /** The inverse of FormatAddress: accepts exactly the address-shaped strings. */
  function ParseAddress(s: string): Option<Address>
  {
    if |s| == 17 && (forall k :: 0 <= k < 5 ==> s[3 * k + 2] == ':')
       && (forall k :: 0 <= k < 6 ==> ParseHexByte(s[3 * k], s[3 * k + 1], true).Some?)
    then Some(seq(6, k requires 0 <= k < 6 => ParseHexByte(s[3 * k], s[3 * k + 1], true).value))
    else None
  }

  /** The characters of byte k of a formatted address, and the colon after it. */
  lemma FormatAddressAt(addr: Address, k: int)
    requires 0 <= k < 6
    ensures |FormatAddress(addr)| == 17
    ensures FormatAddress(addr)[3 * k] == HexByte(addr[k], true)[0]
    ensures FormatAddress(addr)[3 * k + 1] == HexByte(addr[k], true)[1]
    ensures k < 5 ==> FormatAddress(addr)[3 * k + 2] == ':'
  {
  }

  /** format_address prints 17 characters: the six bytes in order as two
      upper-case digits each, with a colon at 2, 5, 8, 11 and 14. */
  lemma FormatAddressShape(addr: Address)
    ensures |FormatAddress(addr)| == 17
    ensures forall k :: 0 <= k < 6 ==> FormatAddress(addr)[3 * k .. 3 * k + 2] == HexByte(addr[k], true)
    ensures forall k :: 0 <= k < 5 ==> FormatAddress(addr)[3 * k + 2] == ':'
    ensures AddressShaped(FormatAddress(addr))
  {
    var r := FormatAddress(addr);
    forall k | 0 <= k < 6
      ensures r[3 * k .. 3 * k + 2] == HexByte(addr[k], true)
      ensures DigitValue(r[3 * k], true).Some? && DigitValue(r[3 * k + 1], true).Some?
      ensures k < 5 ==> r[3 * k + 2] == ':'
    {
      FormatAddressAt(addr, k);
    }
  }

  /** Parsing a formatted address gives the address back. */
  lemma AddressRoundTrip(addr: Address)
    ensures ParseAddress(FormatAddress(addr)) == Some(addr)
  {
    var r := FormatAddress(addr);
    FormatAddressShape(addr);
    forall k | 0 <= k < 6
      ensures ParseHexByte(r[3 * k], r[3 * k + 1], true) == Some(addr[k])
    {
      assert r[3 * k .. 3 * k + 2] == HexByte(addr[k], true);
      assert r[3 * k] == HexByte(addr[k], true)[0];
      assert r[3 * k + 1] == HexByte(addr[k], true)[1];
    }
    assert seq(6, k requires 0 <= k < 6 => ParseHexByte(r[3 * k], r[3 * k + 1], true).value) == addr;
  }

  /** Every string ParseAddress accepts is the formatted text of what it returns,
      so format_address and ParseAddress are a bijection onto the address shape. */
  lemma ParseAddressCanonical(s: string)
    requires ParseAddress(s).Some?
    ensures FormatAddress(ParseAddress(s).value) == s
    ensures AddressShaped(s)
  {
    var a := ParseAddress(s).value;
    var r := FormatAddress(a);
    FormatAddressShape(a);
    forall k | 0 <= k < 6
      ensures r[3 * k] == s[3 * k] && r[3 * k + 1] == s[3 * k + 1]
      ensures DigitValue(s[3 * k], true).Some? && DigitValue(s[3 * k + 1], true).Some?
    {
      ParseHexByteCanonical(s[3 * k], s[3 * k + 1], true);
      assert r[3 * k .. 3 * k + 2] == HexByte(a[k], true);
      assert r[3 * k] == r[3 * k .. 3 * k + 2][0];
      assert r[3 * k + 1] == r[3 * k .. 3 * k + 2][1];
    }
    forall i | 0 <= i < 17
      ensures r[i] == s[i]
    {
      var k := i / 3;
      assert i == 3 * k || i == 3 * k + 1 || i == 3 * k + 2;
    }
  }

  // ---------------------------------------------------------------------------
  // format_irk_hex: "0x" + two lower-case digits per byte, bytes in order,
  // a comma before every byte but the first (the loop at cpp:314-317).
  // ---------------------------------------------------------------------------

  /** The text the loop has built after the bytes of `k`. */
  function HexList(k: seq<uint8>): string
    decreases |k|
  {
    if |k| == 0 then ""
    else HexList(k[..|k| - 1]) + (if |k| > 1 then "," else "") + "0x" + HexByte(k[|k| - 1], false)
  }

  function FormatIrkHex(irk: Irk): string
  {
    HexList(irk)
  }

  lemma {:induction false} HexListShape(k: seq<uint8>)
    requires |k| > 0
    ensures |HexList(k)| == 5 * |k| - 1
    ensures forall i :: 0 <= i < |k| ==> HexList(k)[5 * i .. 5 * i + 4] == "0x" + HexByte(k[i], false)
    ensures forall i :: 0 <= i < |k| - 1 ==> HexList(k)[5 * i + 4] == ','
    decreases |k|
  {
    var n := |k|;
    var r := HexList(k);
    var item := "0x" + HexByte(k[n - 1], false);
    if n == 1 {
      assert k[..0] == [];
    } else {
      var init := k[..n - 1];
      var p := HexList(init);
      HexListShape(init);
      assert r == p + "," + item;
      forall i | 0 <= i < n
        ensures r[5 * i .. 5 * i + 4] == "0x" + HexByte(k[i], false)
      {
        if i < n - 1 {
          assert r[5 * i .. 5 * i + 4] == p[5 * i .. 5 * i + 4];
          assert init[i] == k[i];
        } else {
          assert r[5 * i .. 5 * i + 4] == item;
        }
      }
      forall i | 0 <= i < n - 1
        ensures r[5 * i + 4] == ','
      {
        if i < n - 2 {
          assert r[5 * i + 4] == p[5 * i + 4];
        }
      }
    }
  }

  /** format_irk_hex prints 79 characters: for each byte i, `0x` and its two
      lower-case digits at 5i..5i+3, with commas at 5i+4 between the groups. */
  lemma FormatIrkHexShape(irk: Irk)
    ensures |FormatIrkHex(irk)| == 79
    ensures forall i :: 0 <= i < 16 ==> FormatIrkHex(irk)[5 * i .. 5 * i + 4] == "0x" + HexByte(irk[i], false)
    ensures forall i :: 0 <= i < 15 ==> FormatIrkHex(irk)[5 * i + 4] == ','
  {
    HexListShape(irk);
  }

  // ---------------------------------------------------------------------------
  // format_irk_reverse: two lower-case digits per byte, bytes from index 15
  // down to 0 (the loop at cpp:327-329).
  // ---------------------------------------------------------------------------

  /** The text the descending loop prints for the bytes of `k`: last byte first. */
  function ReverseHex(k: seq<uint8>): string
    decreases |k|
  {
    if |k| == 0 then "" else HexByte(k[|k| - 1], false) + ReverseHex(k[..|k| - 1])
  }

  function FormatIrkReverse(irk: Irk): string
  {
    ReverseHex(irk)
  }

  /** Separator-free lower-case hex of a byte string, in its own order. */
  function HexString(k: seq<uint8>): string
    decreases |k|
  {
    if |k| == 0 then "" else HexByte(k[0], false) + HexString(k[1..])
  }

  function Reversed<T>(s: seq<T>): (r: seq<T>)
    ensures |r| == |s|
  {
    seq(|s|, i requires 0 <= i < |s| => s[|s| - 1 - i])
  }

  lemma {:induction false} ReverseHexAt(k: seq<uint8>)
    ensures |ReverseHex(k)| == 2 * |k|
    ensures forall j :: 0 <= j < |k| ==> ReverseHex(k)[2 * j .. 2 * j + 2] == HexByte(k[|k| - 1 - j], false)
    decreases |k|
  {
    if |k| > 0 {
      var n := |k|;
      var init := k[..n - 1];
      var h := HexByte(k[n - 1], false);
      var rest := ReverseHex(init);
      ReverseHexAt(init);
      assert ReverseHex(k) == h + rest;
      forall j | 0 <= j < n
        ensures ReverseHex(k)[2 * j .. 2 * j + 2] == HexByte(k[n - 1 - j], false)
      {
        if j > 0 {
          assert ReverseHex(k)[2 * j .. 2 * j + 2] == rest[2 * (j - 1) .. 2 * (j - 1) + 2];
          assert init[|init| - 1 - (j - 1)] == k[n - 1 - j];
        }
      }
    }
  }

  /** format_irk_reverse prints 32 characters; characters 2j and 2j+1 are the
      lower-case digits of irk[15 - j]. */
  lemma FormatIrkReverseShape(irk: Irk)
    ensures |FormatIrkReverse(irk)| == 32
    ensures forall j :: 0 <= j < 16 ==> FormatIrkReverse(irk)[2 * j .. 2 * j + 2] == HexByte(irk[15 - j], false)
  {
    ReverseHexAt(irk);
  }

  /** Printing the key backwards is printing the reversed key forwards. */
  lemma {:induction false} ReverseHexIsHexOfReversed(k: seq<uint8>)
    ensures ReverseHex(k) == HexString(Reversed(k))
    decreases |k|
  {
    if |k| > 0 {
      var n := |k|;
      var init := k[..n - 1];
      ReverseHexIsHexOfReversed(init);
      var rk := Reversed(k);
      assert rk[0] == k[n - 1];
      assert rk[1..] == Reversed(init);
    }
  }

  /** format_irk_reverse is the separator-free hex of the byte-reversed key. */
  lemma FormatIrkReverseIsReversedHex(irk: Irk)
    ensures FormatIrkReverse(irk) == HexString(Reversed(irk))
  {
    ReverseHexIsHexOfReversed(irk);
  }

  /** format_irk_reverse is format_irk_hex read group by group from the last,
      with the `0x` prefixes and commas dropped. */
  lemma ReverseMatchesHexList(irk: Irk)
    ensures |FormatIrkReverse(irk)| == 32 && |FormatIrkHex(irk)| == 79
    ensures forall j :: 0 <= j < 16 ==>
      FormatIrkReverse(irk)[2 * j .. 2 * j + 2] == FormatIrkHex(irk)[5 * (15 - j) + 2 .. 5 * (15 - j) + 4]
  {
    FormatIrkHexShape(irk);
    FormatIrkReverseShape(irk);
    var h := FormatIrkHex(irk);
    forall j | 0 <= j < 16
      ensures FormatIrkReverse(irk)[2 * j .. 2 * j + 2] == h[5 * (15 - j) + 2 .. 5 * (15 - j) + 4]
    {
      var i := 15 - j;
      assert h[5 * i + 2 .. 5 * i + 4] == h[5 * i .. 5 * i + 4][2..4];
    }
  }

  // ---------------------------------------------------------------------------
  // format_irk_base64: the host library's base64_encode of the 16 bytes,
  // taken to be standard padded base64.
  // ---------------------------------------------------------------------------

  function FormatIrkBase64(irk: Irk): string
  {
    Base64.Encode(irk)
  }

  /** format_irk_base64 prints 24 characters ending in `==`, and decoding them gives the key back. */
  lemma FormatIrkBase64Shape(irk: Irk)
    ensures |FormatIrkBase64(irk)| == 24
    ensures forall i :: 0 <= i < 22 ==> Base64.InAlphabet(FormatIrkBase64(irk)[i])
    ensures FormatIrkBase64(irk)[22..] == "=="
    ensures Base64.Decode(FormatIrkBase64(irk)) == Wrappers.Some(irk)
  {
    var s: seq<uint8> := irk;
    Base64.EncodePadding(s);
    assert Base64.Padding(|s|) == 2 && (|s| + 2) / 3 == 6;
    var t := Base64.Encode(s);
    assert t[22..] == [t[22], t[23]];
    Base64.RoundTrip(s);
  }
}
