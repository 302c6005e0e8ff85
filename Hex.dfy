/**
 * Lower-case hexadecimal text of a byte string, as `hex::encode` produces it.
 * A salt's store directory is named by this text, so the only fact the registry
 * needs is that different salts get different names; it follows from the
 * decoder below undoing the encoder.
 */
module Hex {
  import opened Wrappers

  type Nibble = b: bv8 | b < 16

  /** The digit for a value below sixteen: '0'..'9' then 'a'..'f'. */
  function Digit(n: Nibble): (c: char)
    ensures IsDigit(c)
  {
    if n < 10 then ('0' as int + n as int) as char else ('a' as int + n as int - 10) as char
  }

  predicate IsDigit(c: char) {
    '0' <= c <= '9' || 'a' <= c <= 'f'
  }

  /** The value of a lower-case hex digit, None for any other character. */
  function DigitValue(c: char): (r: Option<Nibble>)
    ensures r.Some? <==> IsDigit(c)
  {
    if '0' <= c <= '9' then Some((c as int - '0' as int) as bv8)
    else if 'a' <= c <= 'f' then Some((c as int - 'a' as int + 10) as bv8)
    else None
  }

  lemma DigitValueOfDigit(n: Nibble)
    ensures DigitValue(Digit(n)) == Some(n)
  {
  }

  /** Two digits per byte, high nibble first. */
  function Encode(bytes: seq<bv8>): (text: seq<char>)
    ensures |text| == 2 * |bytes|
    ensures forall i :: 0 <= i < |text| ==> IsDigit(text[i])
  {
    if bytes == [] then []
    else [Digit(High(bytes[0])), Digit(Low(bytes[0]))] + Encode(bytes[1..])
  }

  /** The bytes spelled by `text`, None when its length is odd or a character is not a digit. */
  function Decode(text: seq<char>): (r: Option<seq<bv8>>)
    ensures r.Some? ==> 2 * |r.value| == |text|
  {
    if text == [] then Some([])
    else if |text| == 1 then None
    else
      match (DigitValue(text[0]), DigitValue(text[1]), Decode(text[2..]))
      case (Some(hi), Some(lo), Some(rest)) => Some([Join(hi, lo)] + rest)
      case _ => None
  }

  function High(b: bv8): Nibble { b >> 4 }

  function Low(b: bv8): Nibble { b & 0xF }

  function Join(hi: Nibble, lo: Nibble): bv8 { (hi << 4) | lo }

  lemma JoinHighLow(b: bv8)
    ensures Join(High(b), Low(b)) == b
  {
  }

  /** Decoding the text of a byte string gives that byte string back. */
  lemma {:induction false} DecodeEncode(bytes: seq<bv8>)
    ensures Decode(Encode(bytes)) == Some(bytes)
  {
    if bytes != [] {
      var b := bytes[0];
      JoinHighLow(b);
      DigitValueOfDigit(High(b));
      DigitValueOfDigit(Low(b));
      var text := Encode(bytes);
      assert text[0] == Digit(High(b)) && text[1] == Digit(Low(b));
      assert text[2..] == Encode(bytes[1..]);
      DecodeEncode(bytes[1..]);
      assert [b] + bytes[1..] == bytes;
    }
  }

  /** Different byte strings have different texts. */
  lemma EncodeInjective(a: seq<bv8>, b: seq<bv8>)
    requires Encode(a) == Encode(b)
    ensures a == b
  {
    DecodeEncode(a);
    DecodeEncode(b);
  }
}
