/**
 * The wire encoding of byte strings: `serialize_bytes` is Python's
 * `bytes.hex()` and `deserialize_bytes` is `bytes.fromhex()`.
 *
 * `bytes.hex()` writes two lowercase hex digits per byte, high nibble first.
 * `bytes.fromhex()` accepts either case, skips ASCII whitespace before each
 * pair of digits (never between the two digits of a pair) and raises
 * `ValueError` on anything else; the error is `None` here.
 */
module Utils {
  import opened Primitives

  predicate IsLowerHexDigit(c: char) {
    ('0' <= c <= '9') || ('a' <= c <= 'f')
  }

  predicate IsHexDigit(c: char) {
    ('0' <= c <= '9') || ('a' <= c <= 'f') || ('A' <= c <= 'F')
  }

  /** The ASCII whitespace `fromhex` skips: space, and tab through carriage return. */
  predicate IsAsciiSpace(c: char) {
    c == ' ' || ('\t' <= c <= '\r')
  }

  /** The lowercase digit for a nibble. */
  function HexChar(d: nat): (c: char)
    requires d < 16
    ensures IsLowerHexDigit(c)
  {
    if d < 10 then ('0' as int + d) as char else ('a' as int + d - 10) as char
  }

  /** The value of a hex digit of either case; None for any other character. */
  function DigitValue(c: char): (v: Option<nat>)
    ensures v.Some? <==> IsHexDigit(c)
    ensures v.Some? ==> v.value < 16
  {
    if '0' <= c <= '9' then Some(c as int - '0' as int)
    else if 'a' <= c <= 'f' then Some(c as int - 'a' as int + 10)
    else if 'A' <= c <= 'F' then Some(c as int - 'A' as int + 10)
    else None
  }

  /** Upper-case hex letters mapped to lower case; every other character unchanged. */
  function ToLower(c: char): char {
    if 'A' <= c <= 'F' then (c as int - 'A' as int + 'a' as int) as char else c
  }

  function LowerAll(s: string): (r: string)
    ensures |r| == |s|
  {
    seq(|s|, i requires 0 <= i < |s| => ToLower(s[i]))
  }

  /** The string with its ASCII whitespace removed. */
  function StripSpace(s: string): string {
    if s == [] then []
    else if IsAsciiSpace(s[0]) then StripSpace(s[1..])
    else [s[0]] + StripSpace(s[1..])
  }

  /** `serialize_bytes`: `data.hex()`. */
  function SerializeBytes(data: Bytes): (s: string)
    ensures |s| == 2 * |data|
    ensures forall i :: 0 <= i < |s| ==> IsLowerHexDigit(s[i])
  {
    if data == [] then ""
    else [HexChar(data[0] / 16), HexChar(data[0] % 16)] + SerializeBytes(data[1..])
  }

  /** `deserialize_bytes`: `bytes.fromhex(data_str)`. */
  function DeserializeBytes(s: string): (r: Option<Bytes>)
    ensures r.Some? ==> 2 * |r.value| == |StripSpace(s)|
  {
    if s == [] then Some([])
    else if IsAsciiSpace(s[0]) then DeserializeBytes(s[1..])
    else if |s| < 2 then None
    else
      match (DigitValue(s[0]), DigitValue(s[1]))
      case (Some(hi), Some(lo)) =>
        (match DeserializeBytes(s[2..])
         case None => None
         case Some(rest) => Some([(16 * hi + lo) as byte] + rest))
      case _ => None
  }

  /** Each byte becomes its high nibble's digit followed by its low nibble's, in byte order. */
  lemma {:induction false} SerializeAt(data: Bytes, i: nat)
    requires i < |data|
    ensures SerializeBytes(data)[2 * i] == HexChar(data[i] / 16)
    ensures SerializeBytes(data)[2 * i + 1] == HexChar(data[i] % 16)
  {
    if i > 0 {
      SerializeAt(data[1..], i - 1);
    }
  }

  /** Round trip: every byte string, the empty one included, survives serialisation. */
  lemma {:induction false} DeserializeSerialize(data: Bytes)
    ensures DeserializeBytes(SerializeBytes(data)) == Some(data)
  {
    if data != [] {
      var s := SerializeBytes(data);
      var b := data[0];
      assert DigitValue(HexChar(b / 16)) == Some(b / 16);
      assert DigitValue(HexChar(b % 16)) == Some(b % 16);
      assert s[2..] == SerializeBytes(data[1..]);
      DeserializeSerialize(data[1..]);
      assert data == [data[0]] + data[1..];
    }
  }

  /** A pair of hex digits decodes to the byte whose two nibbles re-encode as the lower-cased pair. */
  lemma HexPair(c0: char, c1: char)
    requires IsHexDigit(c0) && IsHexDigit(c1)
    ensures var b := (16 * DigitValue(c0).value + DigitValue(c1).value) as byte;
            HexChar(b / 16) == ToLower(c0) && HexChar(b % 16) == ToLower(c1)
  {
  }

  lemma LowerAllPair(c0: char, c1: char, t: string)
    ensures LowerAll([c0, c1] + t) == [ToLower(c0), ToLower(c1)] + LowerAll(t)
  {
  }

  /**
   * Whatever `fromhex` accepts, `hex()` gives back as the input with its
   * whitespace removed and its digits lower-cased.
   */
  lemma {:induction false} SerializeDeserialize(s: string)
    requires DeserializeBytes(s).Some?
    ensures SerializeBytes(DeserializeBytes(s).value) == LowerAll(StripSpace(s))
    decreases |s|
  {
    if s == [] {
    } else if IsAsciiSpace(s[0]) {
      SerializeDeserialize(s[1..]);
    } else {
      var rest := DeserializeBytes(s[2..]).value;
      var b: byte := (16 * DigitValue(s[0]).value + DigitValue(s[1]).value) as byte;
      assert DeserializeBytes(s).value == [b] + rest;
      SerializeDeserialize(s[2..]);
      HexPair(s[0], s[1]);
      assert StripSpace(s) == [s[0], s[1]] + StripSpace(s[2..]) by {
        assert !IsAsciiSpace(s[1]);
        assert s[1..][1..] == s[2..];
      }
      LowerAllPair(s[0], s[1], StripSpace(s[2..]));
    }
  }

  /** An even-length string of hex digits decodes, and re-encodes to its lower-case form. */
  lemma EvenHexStringRoundTrip(s: string)
    requires |s| % 2 == 0
    requires forall i :: 0 <= i < |s| ==> IsHexDigit(s[i])
    ensures DeserializeBytes(s).Some?
    ensures |DeserializeBytes(s).value| == |s| / 2
    ensures SerializeBytes(DeserializeBytes(s).value) == LowerAll(s)
  {
    EvenHexStringDecodes(s);
    NoSpaceUnchanged(s);
    SerializeDeserialize(s);
  }

  lemma {:induction false} EvenHexStringDecodes(s: string)
    requires |s| % 2 == 0
    requires forall i :: 0 <= i < |s| ==> IsHexDigit(s[i])
    ensures DeserializeBytes(s).Some?
    decreases |s|
  {
    if s != [] {
      assert IsHexDigit(s[0]) && IsHexDigit(s[1]);
      EvenHexStringDecodes(s[2..]);
    }
  }

  lemma {:induction false} NoSpaceUnchanged(s: string)
    requires forall i :: 0 <= i < |s| ==> IsHexDigit(s[i])
    ensures StripSpace(s) == s
  {
    if s != [] {
      NoSpaceUnchanged(s[1..]);
    }
  }

  /** A character that is neither a hex digit nor ASCII whitespace makes `fromhex` fail. */
  lemma {:induction false} NonHexCharacterFails(s: string, i: nat)
    requires i < |s|
    requires !IsHexDigit(s[i]) && !IsAsciiSpace(s[i])
    ensures DeserializeBytes(s).None?
    decreases |s|
  {
    if IsAsciiSpace(s[0]) {
      NonHexCharacterFails(s[1..], i - 1);
    } else if |s| >= 2 && IsHexDigit(s[0]) && IsHexDigit(s[1]) {
      NonHexCharacterFails(s[2..], i - 2);
    }
  }

  /** An odd number of non-whitespace characters makes `fromhex` fail. */
  lemma OddDigitCountFails(s: string)
    requires |StripSpace(s)| % 2 == 1
    ensures DeserializeBytes(s).None?
  {
  }
}
