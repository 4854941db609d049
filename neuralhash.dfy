/** The fingerprint codec: NeuralHash.bits2hex and NeuralHash.hex2bits.
    A fingerprint is a bit vector; its persisted form is lower-case
    hexadecimal text, one digit per four bits, most significant bit first.

    bits2hex reshapes the bits into rows of four (which fails unless the
    length is a multiple of four), packs each row into the high nibble of a
    byte, squeezes the result and shifts it right by four.  Squeezing a single
    row leaves a 0-d array, and iterating that in the join raises, so exactly
    one nibble is an error too.  hex2bits turns every character into its value
    with int(c, 16), which raises on a non-hex character, and unpacks the low
    four bits of each value. */
module NeuralHash {
  import opened Wrappers

  type Bits = seq<bool>

  /** Number of bits of a deployed fingerprint: the seed matrix is 96 x 128,
      so the projection yields 96 signs. */
  const FingerprintBits := 96

  /** What numpy or Python raise inside the codec. */
  datatype CodecError =
    | ReshapeFailed          // reshape((-1, 4)) on a length not divisible by 4
    | ZeroDimensional        // one nibble squeezes to a 0-d array, not iterable
    | InvalidDigit(c: char)  // int(c, 16) rejects the character

  function Bit(b: bool): nat { if b then 1 else 0 }

  /** The value of four bits, most significant first: packbits puts them in
      the high nibble of a byte and `>> 4` moves them down. */
  function NibbleValue(b0: bool, b1: bool, b2: bool, b3: bool): (v: nat)
    ensures v < 16
  {
    8 * Bit(b0) + 4 * Bit(b1) + 2 * Bit(b2) + Bit(b3)
  }

  /** The low four bits of a value, most significant first: the last four
      columns of unpackbits. */
  function NibbleBits(v: nat): (bits: Bits)
    requires v < 16
    ensures |bits| == 4 && NibbleValue(bits[0], bits[1], bits[2], bits[3]) == v
  {
    [v >= 8, v % 8 >= 4, v % 4 >= 2, v % 2 == 1]
  }

  predicate IsLowerHex(c: char) {
    '0' <= c <= '9' || 'a' <= c <= 'f'
  }

  /** The value int(c, 16) gives one character, None where it raises. */
  function DigitValue(c: char): (r: Option<nat>)
    ensures r.Some? ==> r.value < 16
  {
    if '0' <= c <= '9' then Some(c as int - '0' as int)
    else if 'a' <= c <= 'f' then Some(c as int - 'a' as int + 10)
    else if 'A' <= c <= 'F' then Some(c as int - 'A' as int + 10)
    else None
  }

  predicate IsHexDigit(c: char) {
    DigitValue(c).Some?
  }

  predicate IsHexString(s: string) {
    forall i :: 0 <= i < |s| ==> IsHexDigit(s[i])
  }

  /** The digit f"{v:x}" prints for a value below 16. */
  function HexDigit(v: nat): (c: char)
    requires v < 16
    ensures IsLowerHex(c) && DigitValue(c) == Some(v)
  {
    if v < 10 then ('0' as int + v) as char else ('a' as int + v - 10) as char
  }

  function AsciiLower(c: char): char {
    if 'A' <= c <= 'Z' then (c as int - 'A' as int + 'a' as int) as char else c
  }

  /** str.lower() on the characters that occur in hexadecimal text. */
  function Lower(s: string): string {
    seq(|s|, i requires 0 <= i < |s| => AsciiLower(s[i]))
  }

  /** The digits of the join in bits2hex, one per four bits. */
  function Pack(bits: Bits): (hex: string)
    requires |bits| % 4 == 0
    ensures |hex| == |bits| / 4
    decreases |bits|
  {
    if |bits| == 0 then ""
    else [HexDigit(NibbleValue(bits[0], bits[1], bits[2], bits[3]))] + Pack(bits[4..])
  }

  /** Digit k of Pack(bits) is bits 4k .. 4k+3, most significant first. */
  lemma {:induction false} PackDigits(bits: Bits)
    requires |bits| % 4 == 0
    ensures forall k :: 0 <= k < |Pack(bits)| ==>
      Pack(bits)[k] == HexDigit(NibbleValue(bits[4 * k], bits[4 * k + 1], bits[4 * k + 2], bits[4 * k + 3]))
    decreases |bits|
  {
    if |bits| > 0 {
      var tail := bits[4..];
      PackDigits(tail);
      forall k | 0 < k < |Pack(bits)|
        ensures Pack(bits)[k] == HexDigit(NibbleValue(bits[4 * k], bits[4 * k + 1], bits[4 * k + 2], bits[4 * k + 3]))
      {
        assert Pack(bits)[k] == Pack(tail)[k - 1];
        assert tail[4 * (k - 1)] == bits[4 * k];
        assert tail[4 * (k - 1) + 1] == bits[4 * k + 1];
        assert tail[4 * (k - 1) + 2] == bits[4 * k + 2];
        assert tail[4 * (k - 1) + 3] == bits[4 * k + 3];
      }
    }
  }

  /** NeuralHash.bits2hex. */
  function BitsToHex(bits: Bits): (r: Result<string, CodecError>)
    ensures |bits| % 4 != 0 ==> r == Failure(ReshapeFailed)
    ensures |bits| == 4 ==> r == Failure(ZeroDimensional)
    ensures |bits| % 4 == 0 && |bits| != 4 ==> r.Success?
    ensures r.Success? ==> |r.value| == |bits| / 4
    ensures r.Success? ==> forall k :: 0 <= k < |r.value| ==>
      IsLowerHex(r.value[k]) &&
      r.value[k] == HexDigit(NibbleValue(bits[4 * k], bits[4 * k + 1], bits[4 * k + 2], bits[4 * k + 3]))
  {
    if |bits| % 4 != 0 then Failure(ReshapeFailed)
    else if |bits| == 4 then Failure(ZeroDimensional)
    else PackDigits(bits); Success(Pack(bits))
  }

  /** NeuralHash.hex2bits.  The comprehension converts the characters left to
      right, so the error names the first character int(c, 16) rejects. */
  function HexToBits(hex: string): (r: Result<Bits, CodecError>)
    ensures r.Success? <==> IsHexString(hex)
    ensures r.Success? ==> |r.value| == 4 * |hex|
    decreases |hex|
  {
    if |hex| == 0 then Success([])
    else
      match DigitValue(hex[0])
      case None => Failure(InvalidDigit(hex[0]))
      case Some(v) =>
        match HexToBits(hex[1..])
        case Failure(e) => Failure(e)
        case Success(rest) => Success(NibbleBits(v) + rest)
  }

  /** Character k of the text expands to bits 4k .. 4k+3, most significant
      first. */
  lemma {:induction false} HexToBitsNibbles(hex: string)
    requires IsHexString(hex)
    ensures forall k :: 0 <= k < |hex| ==>
      HexToBits(hex).value[4 * k..4 * k + 4] == NibbleBits(DigitValue(hex[k]).value)
    decreases |hex|
  {
    if |hex| > 0 {
      var tail := hex[1..];
      assert IsHexString(tail) by {
        forall i | 0 <= i < |tail| ensures IsHexDigit(tail[i]) {
          assert tail[i] == hex[i + 1];
        }
      }
      HexToBitsNibbles(tail);
      var bits := HexToBits(hex).value;
      var rest := HexToBits(tail).value;
      assert bits == NibbleBits(DigitValue(hex[0]).value) + rest;
      forall k | 0 < k < |hex|
        ensures bits[4 * k..4 * k + 4] == NibbleBits(DigitValue(hex[k]).value)
      {
        assert bits[4 * k..4 * k + 4] == rest[4 * (k - 1)..4 * (k - 1) + 4];
        assert tail[k - 1] == hex[k];
      }
    }
  }

  /** On text that is not hexadecimal, hex2bits raises at the first character
      int(c, 16) rejects. */
  lemma {:induction false} HexToBitsRejects(hex: string)
    requires !IsHexString(hex)
    ensures exists i :: 0 <= i < |hex| && HexToBits(hex) == Failure(InvalidDigit(hex[i])) &&
                        !IsHexDigit(hex[i]) && forall j :: 0 <= j < i ==> IsHexDigit(hex[j])
    decreases |hex|
  {
    if IsHexDigit(hex[0]) {
      var tail := hex[1..];
      assert !IsHexString(tail) by {
        var i :| 0 <= i < |hex| && !IsHexDigit(hex[i]);
        assert tail[i - 1] == hex[i];
      }
      HexToBitsRejects(tail);
      var i :| 0 <= i < |tail| && HexToBits(tail) == Failure(InvalidDigit(tail[i])) &&
               !IsHexDigit(tail[i]) && forall j :: 0 <= j < i ==> IsHexDigit(tail[j]);
      assert tail[i] == hex[i + 1];
      forall j | 0 <= j < i + 1 ensures IsHexDigit(hex[j]) {
        if j > 0 { assert hex[j] == tail[j - 1]; }
      }
    }
  }

  lemma NibbleBitsOfValue(bits: Bits)
    requires |bits| >= 4
    ensures NibbleBits(NibbleValue(bits[0], bits[1], bits[2], bits[3])) == bits[..4]
  {
  }

  lemma DigitOfValueIsLower(c: char)
    requires IsHexDigit(c)
    ensures HexDigit(DigitValue(c).value) == AsciiLower(c)
  {
  }

  lemma HexToBitsCons(c: char, s: string)
    requires IsHexDigit(c)
    ensures HexToBits([c] + s) ==
      match HexToBits(s)
      case Success(rest) => Success(NibbleBits(DigitValue(c).value) + rest)
      case Failure(e) => Failure(e)
  {
    assert ([c] + s)[1..] == s;
  }

  /** Decoding the digits Pack produces gives the bits back. */
  lemma {:induction false} UnpackPack(bits: Bits)
    requires |bits| % 4 == 0
    ensures HexToBits(Pack(bits)) == Success(bits)
    decreases |bits|
  {
    if |bits| > 0 {
      var tail := bits[4..];
      var v := NibbleValue(bits[0], bits[1], bits[2], bits[3]);
      assert Pack(bits) == [HexDigit(v)] + Pack(tail);
      UnpackPack(tail);
      HexToBitsCons(HexDigit(v), Pack(tail));
      assert HexToBits(Pack(bits)) == Success(NibbleBits(v) + tail);
      NibbleBitsOfValue(bits);
      assert bits[..4] + tail == bits;
    }
  }

  /** Packing the bits of hexadecimal text gives the text in lower case. */
  lemma {:induction false} PackUnpack(hex: string)
    requires IsHexString(hex)
    ensures HexToBits(hex).Success?
    ensures |HexToBits(hex).value| % 4 == 0
    ensures Pack(HexToBits(hex).value) == Lower(hex)
    decreases |hex|
  {
    if |hex| > 0 {
      var tail := hex[1..];
      assert IsHexString(tail) by {
        forall i | 0 <= i < |tail| ensures IsHexDigit(tail[i]) {
          assert tail[i] == hex[i + 1];
        }
      }
      PackUnpack(tail);
      var v := DigitValue(hex[0]).value;
      var bits := HexToBits(hex).value;
      assert bits == NibbleBits(v) + HexToBits(tail).value;
      assert bits[4..] == HexToBits(tail).value;
      DigitOfValueIsLower(hex[0]);
      assert Pack(bits) == [AsciiLower(hex[0])] + Lower(tail);
      assert Lower(hex) == [AsciiLower(hex[0])] + Lower(tail);
    }
  }

  /** hex2bits(bits2hex(b)) == b wherever bits2hex succeeds. */
  lemma RoundTripBits(bits: Bits)
    requires |bits| % 4 == 0 && |bits| != 4
    ensures BitsToHex(bits).Success?
    ensures HexToBits(BitsToHex(bits).value) == Success(bits)
  {
    UnpackPack(bits);
  }

  /** bits2hex(hex2bits(h)) == h.lower() for hexadecimal text of any length
      but one (one digit unpacks to a single nibble, which bits2hex refuses). */
  lemma RoundTripHex(hex: string)
    requires IsHexString(hex) && |hex| != 1
    ensures HexToBits(hex).Success?
    ensures BitsToHex(HexToBits(hex).value) == Success(Lower(hex))
  {
    PackUnpack(hex);
  }

  /** A deployed 96-bit fingerprint is stored as 24 lower-case digits and
      read back unchanged. */
  lemma DeployedFingerprintRoundTrip(bits: Bits)
    requires |bits| == FingerprintBits
    ensures BitsToHex(bits).Success? && |BitsToHex(bits).value| == 24
    ensures HexToBits(BitsToHex(bits).value) == Success(bits)
  {
    RoundTripBits(bits);
  }
}
