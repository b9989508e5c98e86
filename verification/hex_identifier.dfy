/** The purchaser identifier generator (`generateRandomHex`): `length`
    random bytes, each written as two lower-case hexadecimal digits.
    The host's random source is an input: either the bytes that
    `crypto.getRandomValues` wrote, or the draws of `Math.random` used by
    the fallback loop. */
module HexIdentifier {
  import opened Wrappers

  /** One element of a `Uint8Array`. */
  type Byte = b: int | 0 <= b < 256

  /** A draw of `Math.random`, which lies in [0, 1). */
  type UnitDraw = r: real | 0.0 <= r < 1.0

  /** Where the bytes come from, depending on whether `window.crypto` exists. */
  datatype RandomSource =
    | CryptoBytes(bytes: seq<Byte>)
    | MathRandom(draws: seq<UnitDraw>)
  {
    function Count(): nat
    {
      match this
      case CryptoBytes(bytes) => |bytes|
      case MathRandom(draws) => |draws|
    }
  }

  /** The length the page uses when it passes none. */
  const DefaultLength: nat := 8

  predicate IsLowerHex(c: char)
  {
    '0' <= c <= '9' || 'a' <= c <= 'f'
  }

  function HexDigit(d: nat): (c: char)
    requires d < 16
    ensures IsLowerHex(c)
  {
    if d < 10 then ('0' as int + d) as char else ('a' as int + d - 10) as char
  }

  /** The value of a lower-case hexadecimal digit. */
  function HexValue(c: char): (d: nat)
    requires IsLowerHex(c)
    ensures d < 16 && HexDigit(d) == c
  {
    if '0' <= c <= '9' then c as int - '0' as int else c as int - 'a' as int + 10
  }

  lemma HexValueOfDigit(d: nat)
    requires d < 16
    ensures HexValue(HexDigit(d)) == d
  {
  }

  /** `Uint8Array` stores `ToUint8` of what is assigned to it. */
  function ToUint8(x: int): Byte
  {
    x % 256
  }

  /** The fallback's byte: `Math.floor(Math.random() * 256)`, stored into the array. */
  function FallbackByte(r: UnitDraw): (b: Byte)
    ensures b as real <= r * 256.0 < b as real + 1.0
  {
    var f := (r * 256.0).Floor;
    assert 0 <= f < 256;
    ToUint8(f)
  }

  /** The array after filling: the crypto bytes as they are, or one fallback byte per draw. */
  function Fill(length: nat, src: RandomSource): (a: seq<Byte>)
    requires src.Count() == length
    ensures |a| == length
    ensures src.CryptoBytes? ==> a == src.bytes
    ensures src.MathRandom? ==> forall i :: 0 <= i < length ==> a[i] as real <= src.draws[i] * 256.0 < a[i] as real + 1.0
  {
    match src
    case CryptoBytes(bytes) => bytes
    case MathRandom(draws) => seq(length, i requires 0 <= i < length => FallbackByte(draws[i]))
  }

  /** `n.toString(16)`: hexadecimal digits of `n`, no leading zeros. */
  function ToHexString(n: nat): (s: string)
    ensures 1 <= |s|
    ensures forall i :: 0 <= i < |s| ==> IsLowerHex(s[i])
    ensures |s| > 1 ==> s[0] != '0'
    decreases n
  {
    if n < 16 then [HexDigit(n)] else ToHexString(n / 16) + [HexDigit(n % 16)]
  }

  /** `s.padStart(target, fill)` for a one-character fill. */
  function PadStart(s: string, target: nat, fill: char): (r: string)
    ensures |r| == if |s| >= target then |s| else target
    ensures r[|r| - |s|..] == s
    ensures forall i :: 0 <= i < |r| - |s| ==> r[i] == fill
  {
    if |s| >= target then s else seq(target - |s|, _ => fill) + s
  }

  /** The two hexadecimal digits of a byte, high nibble first. */
  function TwoDigits(b: Byte): string
  {
    [HexDigit(b / 16), HexDigit(b % 16)]
  }

  /** `byte.toString(16).padStart(2, '0')`: never one digit, never three,
      and always the high nibble then the low one. */
  function ByteToHex(b: Byte): (r: string)
    ensures r == TwoDigits(b)
  {
    ByteDigits(b);
    PadStart(ToHexString(b), 2, '0')
  }

  /** A byte's hexadecimal text has one digit below 16 and two otherwise. */
  lemma ByteDigits(b: Byte)
    ensures ToHexString(b) == if b < 16 then [HexDigit(b)] else TwoDigits(b)
  {
    if b >= 16 {
      assert ToHexString(b) == ToHexString(b / 16) + [HexDigit(b % 16)];
    }
  }

  /** The bytes' digit pairs one after another: what the encoding spells. */
  function Digits(bytes: seq<Byte>): (s: string)
    ensures |s| == 2 * |bytes|
    decreases |bytes|
  {
    if |bytes| == 0 then "" else TwoDigits(bytes[0]) + Digits(bytes[1..])
  }

  /** `Array.from(bytes, ByteToHex).join('')`. */
  function Encode(bytes: seq<Byte>): (s: string)
    ensures s == Digits(bytes)
    ensures |s| == 2 * |bytes|
    ensures forall i :: 0 <= i < |s| ==> IsLowerHex(s[i])
    decreases |bytes|
  {
    if |bytes| == 0 then "" else ByteToHex(bytes[0]) + Encode(bytes[1..])
  }

  /** Characters 2i and 2i+1 of the encoding are the two digits of byte i. */
  lemma EncodeAt(bytes: seq<Byte>, i: nat)
    requires i < |bytes|
    ensures Encode(bytes)[2 * i] == HexDigit(bytes[i] / 16)
    ensures Encode(bytes)[2 * i + 1] == HexDigit(bytes[i] % 16)
  {
    DigitsAt(bytes, i);
  }

  lemma {:induction false} DigitsAt(bytes: seq<Byte>, i: nat)
    requires i < |bytes|
    ensures Digits(bytes)[2 * i] == HexDigit(bytes[i] / 16)
    ensures Digits(bytes)[2 * i + 1] == HexDigit(bytes[i] % 16)
    decreases i
  {
    var head := TwoDigits(bytes[0]);
    var rest := Digits(bytes[1..]);
    assert Digits(bytes) == head + rest;
    if i > 0 {
      DigitsAt(bytes[1..], i - 1);
      assert bytes[1..][i - 1] == bytes[i];
      var j := 2 * (i - 1);
      assert (head + rest)[j + 2] == rest[j];
      assert (head + rest)[j + 3] == rest[j + 1];
    }
  }

  /** Reads a string of digit pairs back into bytes; None when the length
      is odd or a character is not a lower-case hexadecimal digit. */
  function Decode(s: string): (r: Option<seq<Byte>>)
    ensures r.Some? ==> 2 * |r.value| == |s|
    decreases |s|
  {
    if |s| == 0 then Some([])
    else if |s| == 1 || !IsLowerHex(s[0]) || !IsLowerHex(s[1]) then None
    else
      match Decode(s[2..])
      case None => None
      case Some(rest) => Some([HexValue(s[0]) * 16 + HexValue(s[1])] + rest)
  }

  /** `generateRandomHex(length)`: the hexadecimal text of the filled array. */
  function GenerateRandomHex(length: nat, src: RandomSource): (id: string)
    requires src.Count() == length
    ensures |id| == 2 * length
    ensures forall i :: 0 <= i < |id| ==> IsLowerHex(id[i])
    ensures Decode(id) == Some(Fill(length, src))
  {
    DecodeEncode(Fill(length, src));
    Encode(Fill(length, src))
  }

  /** With the default length the identifier is sixteen characters long. */
  lemma DefaultIdentifierLength(src: RandomSource)
    requires src.Count() == DefaultLength
    ensures |GenerateRandomHex(DefaultLength, src)| == 16
  {
  }

  /** Decoding the encoding gives the bytes back. */
  lemma DecodeEncode(bytes: seq<Byte>)
    ensures Decode(Encode(bytes)) == Some(bytes)
  {
    DecodeDigits(bytes);
  }

  lemma {:induction false} DecodeDigits(bytes: seq<Byte>)
    ensures Decode(Digits(bytes)) == Some(bytes)
    decreases |bytes|
  {
    if |bytes| > 0 {
      var b := bytes[0];
      var s := TwoDigits(b) + Digits(bytes[1..]);
      assert Digits(bytes) == s;
      DecodeDigits(bytes[1..]);
      assert s[2..] == Digits(bytes[1..]);
      HexValueOfDigit(b / 16);
      HexValueOfDigit(b % 16);
      assert Decode(s) == Some([HexValue(s[0]) * 16 + HexValue(s[1])] + bytes[1..]);
      assert [b] + bytes[1..] == bytes;
    }
  }

  /** Every string that decodes is the encoding of what it decodes to, so
      the identifier alphabet and pairing are exactly those of Encode. */
  lemma EncodeDecode(s: string)
    requires Decode(s).Some?
    ensures Encode(Decode(s).value) == s
  {
    DigitsDecode(s);
  }

  lemma {:induction false} DigitsDecode(s: string)
    requires Decode(s).Some?
    ensures Digits(Decode(s).value) == s
    decreases |s|
  {
    if |s| >= 2 {
      var tail := Decode(s[2..]).value;
      DigitsDecode(s[2..]);
      var b: Byte := HexValue(s[0]) * 16 + HexValue(s[1]);
      var bytes := [b] + tail;
      assert Decode(s).value == bytes;
      assert TwoDigits(b) == [s[0], s[1]];
      assert bytes[1..] == tail;
      assert s == [s[0], s[1]] + s[2..];
    }
  }

  /** Different byte arrays never give the same identifier. */
  lemma EncodeInjective(a: seq<Byte>, b: seq<Byte>)
    requires Encode(a) == Encode(b)
    ensures a == b
  {
    DecodeEncode(a);
    DecodeEncode(b);
  }
}
