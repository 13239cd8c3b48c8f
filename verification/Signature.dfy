/** The hexadecimal codec that signatures, keys and digests travel in (src/signature.rs). */
module Signature {
  import opened Wrappers

  const HEX := "0123456789abcdef"

  /** One byte. A shift by four is a division by sixteen, and joining two nibbles is their sum. */
  type byte = x: int | 0 <= x < 256

  /** Value of one hexadecimal digit, in either case. */
  function Nibble(c: char): (r: Option<nat>)
    ensures r.Some? ==> r.value < 16
  {
    if '0' <= c <= '9' then Some(c as int - '0' as int)
    else if 'a' <= c <= 'f' then Some(c as int - 'a' as int + 10)
    else if 'A' <= c <= 'F' then Some(c as int - 'A' as int + 10)
    else None
  }

  predicate IsHexDigit(c: char) {
    '0' <= c <= '9' || 'a' <= c <= 'f' || 'A' <= c <= 'F'
  }

  function Lower(c: char): char {
    if 'A' <= c <= 'Z' then (c as int + 32) as char else c
  }

  function LowerText(s: string): string {
    seq(|s|, i requires 0 <= i < |s| => Lower(s[i]))
  }

  /** The lower-case digit of a nibble. */
  function Digit(n: nat): char
    requires n < 16
  {
    if n < 10 then ('0' as int + n) as char else ('a' as int + n - 10) as char
  }

  /** The digits of one byte: high nibble first. */
  function ByteText(b: byte): string {
    [Digit(b / 16), Digit(b % 16)]
  }

  function HexText(bytes: seq<byte>): string {
    if bytes == [] then [] else ByteText(bytes[0]) + HexText(bytes[1..])
  }

  /** The byte two digits spell, high nibble first; None when either is not hexadecimal. */
  function Pair(high: char, low: char): (r: Option<byte>) {
    if Nibble(high).Some? && Nibble(low).Some?
    then Some(Nibble(high).value * 16 + Nibble(low).value)
    else None
  }

  /** The bytes a text of whole pairs spells; None when any pair is not hexadecimal. */
  function HexBytes(s: string): Option<seq<byte>>
    requires |s| % 2 == 0
  {
    if s == [] then Some([])
    else
      var first, rest := Pair(s[0], s[1]), HexBytes(s[2..]);
      if first.Some? && rest.Some? then Some([first.value] + rest.value) else None
  }

  /** `decode_array::<N>`: the exact length is demanded before any digit is read. */
  function Decoded(n: nat, s: string): Option<seq<byte>> {
    if |s| == 2 * n then HexBytes(s) else None
  }

  lemma DigitsListed(n: nat)
    requires n < 16
    ensures HEX[n] == Digit(n)
  {
  }

  method Encode(bytes: seq<byte>) returns (output: string)
    ensures output == HexText(bytes)
  {
    output := "";
    for i := 0 to |bytes|
      invariant output + HexText(bytes[i..]) == HexText(bytes)
    {
      DigitsListed(bytes[i] / 16);
      DigitsListed(bytes[i] % 16);
      output := output + [HEX[bytes[i] / 16]];
      output := output + [HEX[bytes[i] % 16]];
      assert bytes[i..][0] == bytes[i] && bytes[i..][1..] == bytes[i + 1..];
    }
  }

  method DecodeArray(n: nat, value: string) returns (r: Option<seq<byte>>)
    ensures r == Decoded(n, value)
  {
    if |value| != n * 2 {
      return None;
    }
    var output := new byte[n](_ => 0);
    for index := 0 to n
      invariant forall k | 0 <= k < index :: PairAt(value, k) == Some(output[k])
    {
      var high := Nibble(value[2 * index]);
      if high == None {
        BadPair(value, index);
        return None;
      }
      var low := Nibble(value[2 * index + 1]);
      if low == None {
        BadPair(value, index);
        return None;
      }
      output[index] := high.value * 16 + low.value;
    }
    GoodPairs(value, output[..]);
    return Some(output[..]);
  }

  function PairAt(s: string, k: nat): Option<byte>
    requires 2 * k + 1 < |s|
  {
    Pair(s[2 * k], s[2 * k + 1])
  }

  lemma {:induction false} BadPair(s: string, k: nat)
    requires |s| % 2 == 0 && 2 * k < |s| && PairAt(s, k) == None
    ensures HexBytes(s) == None
  {
    if k == 0 {
    } else {
      assert PairAt(s[2..], k - 1) == PairAt(s, k);
      BadPair(s[2..], k - 1);
    }
  }

  lemma {:induction false} GoodPairs(s: string, bytes: seq<byte>)
    requires |s| == 2 * |bytes| && forall k | 0 <= k < |bytes| :: PairAt(s, k) == Some(bytes[k])
    ensures HexBytes(s) == Some(bytes)
  {
    if bytes == [] {
    } else {
      forall k | 0 <= k < |bytes[1..]| ensures PairAt(s[2..], k) == Some(bytes[1..][k]) {
        assert PairAt(s, k + 1) == Some(bytes[k + 1]);
      }
      GoodPairs(s[2..], bytes[1..]);
      assert PairAt(s, 0) == Some(bytes[0]);
      assert bytes == [bytes[0]] + bytes[1..];
    }
  }

  lemma NibbleOfHex(n: nat)
    requires n < 16
    ensures Nibble(Digit(n)) == Some(n)
  {
  }

  lemma HexOfNibble(c: char)
    ensures IsHexDigit(c) ==> Digit(Nibble(c).value) == Lower(c)
  {
  }

  /** Decoding undoes encoding, for every byte string. */
  lemma {:induction false} DecodeEncode(bytes: seq<byte>)
    ensures |HexText(bytes)| == 2 * |bytes|
    ensures Decoded(|bytes|, HexText(bytes)) == Some(bytes)
  {
    if bytes == [] {
    } else {
      DecodeEncode(bytes[1..]);
      NibbleOfHex(bytes[0] / 16);
      NibbleOfHex(bytes[0] % 16);
      var text := HexText(bytes);
      assert text[2..] == HexText(bytes[1..]);
      assert Pair(text[0], text[1]) == Some(bytes[0]);
      assert bytes == [bytes[0]] + bytes[1..];
    }
  }

  /** Decoding succeeds exactly on 2n hexadecimal digits of either case, and encoding
      the result spells the same digits in lower case. */
  lemma EncodeDecode(n: nat, s: string)
    ensures Decoded(n, s).Some? <==> |s| == 2 * n && forall c | c in s :: IsHexDigit(c)
    ensures Decoded(n, s).Some? ==> HexText(Decoded(n, s).value) == LowerText(s)
  {
    if |s| == 2 * n {
      EncodeHexBytes(s);
    }
  }

  lemma JoinedNibbles(h: nat, l: nat)
    requires h < 16 && l < 16
    ensures ByteText(h * 16 + l) == [Digit(h), Digit(l)]
  {
    var b := h * 16 + l;
    assert b / 16 == h && b % 16 == l;
  }

  lemma PairIsHex(high: char, low: char)
    ensures Pair(high, low).Some? <==> IsHexDigit(high) && IsHexDigit(low)
  {
  }

  lemma PairText(high: char, low: char)
    ensures Pair(high, low).Some? <==> IsHexDigit(high) && IsHexDigit(low)
    ensures Pair(high, low).Some? ==> ByteText(Pair(high, low).value) == [Lower(high), Lower(low)]
  {
    PairIsHex(high, low);
    if IsHexDigit(high) && IsHexDigit(low) {
      HexOfNibble(high);
      HexOfNibble(low);
      JoinedNibbles(Nibble(high).value, Nibble(low).value);
    }
  }

  lemma LowerConcat(s: string, t: string)
    ensures LowerText(s + t) == LowerText(s) + LowerText(t)
  {
  }

  lemma {:induction false} EncodeHexBytes(s: string)
    requires |s| % 2 == 0
    ensures HexBytes(s).Some? <==> forall c | c in s :: IsHexDigit(c)
    ensures HexBytes(s).Some? ==> HexText(HexBytes(s).value) == LowerText(s)
  {
    if s == [] {
    } else {
      EncodeHexBytes(s[2..]);
      PairText(s[0], s[1]);
      var pair := [s[0], s[1]];
      assert s == pair + s[2..];
      LowerConcat(pair, s[2..]);
      assert forall c | c in s :: c in pair || c in s[2..];
      if HexBytes(s).Some? {
        assert HexBytes(s).value[1..] == HexBytes(s[2..]).value;
        assert LowerText(pair) == [Lower(s[0]), Lower(s[1])];
      }
    }
  }
}
