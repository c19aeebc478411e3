/**
 * Bytes and their lower-case hexadecimal rendering, the form Node's
 * `Buffer.toString("hex")` produces for seeds and private keys.
 */
module Hex {

  import opened Wrappers

  newtype byte = x: int | 0 <= x < 256

  type Bytes = seq<byte>

  predicate IsLowerHexDigit(ch: char) {
    '0' <= ch <= '9' || 'a' <= ch <= 'f'
  }

  /** The lower-case digit of a nibble. */
  function DigitOf(d: nat): (ch: char)
    requires d < 16
    ensures IsLowerHexDigit(ch)
  {
    if d < 10 then (('0' as int) + d) as char else (('a' as int) + d - 10) as char
  }

  /** The value of one lower-case hex digit, `None` for any other character. */
  function DigitValue(ch: char): (r: Option<nat>)
    ensures r.Some? <==> IsLowerHexDigit(ch)
    ensures r.Some? ==> r.value < 16 && DigitOf(r.value) == ch
  {
    if '0' <= ch <= '9' then Some((ch as int) - ('0' as int))
    else if 'a' <= ch <= 'f' then Some((ch as int) - ('a' as int) + 10)
    else None
  }

  lemma DigitValueOf(d: nat)
    requires d < 16
    ensures DigitValue(DigitOf(d)) == Some(d)
  {
  }

  /** The two digits of one byte, most significant first. */
  function PairOf(b: byte): string {
    [DigitOf((b as int) / 16), DigitOf((b as int) % 16)]
  }

  lemma PairSplit(b: byte)
    ensures ((b as int) / 16) * 16 + (b as int) % 16 == b as int
  {
  }

  lemma PairJoin(hi: nat, lo: nat)
    requires hi < 16 && lo < 16
    ensures 0 <= hi * 16 + lo < 256
    ensures (hi * 16 + lo) / 16 == hi && (hi * 16 + lo) % 16 == lo
  {
  }

  /** `Buffer.from(bs).toString("hex")`. */
  function Encode(bs: Bytes): (r: string)
    ensures |r| == 2 * |bs|
    ensures forall i :: 0 <= i < |r| ==> IsLowerHexDigit(r[i])
    decreases |bs|
  {
    if |bs| == 0 then "" else PairOf(bs[0]) + Encode(bs[1..])
  }

  /** Reads an even-length run of lower-case hex digits back into bytes. */
  function Decode(s: string): (r: Option<Bytes>)
    ensures r.Some? ==> 2 * |r.value| == |s|
    decreases |s|
  {
    if |s| == 0 then Some([])
    else if |s| == 1 then None
    else match (DigitValue(s[0]), DigitValue(s[1]), Decode(s[2..]))
      case (Some(hi), Some(lo), Some(rest)) =>
        PairJoin(hi, lo);
        Some([(hi * 16 + lo) as byte] + rest)
      case _ => None
  }

  /** Decoding an encoding gives the bytes back. */
  lemma {:induction false} DecodeEncode(bs: Bytes)
    ensures Decode(Encode(bs)) == Some(bs)
    decreases |bs|
  {
    if |bs| > 0 {
      var s := Encode(bs);
      var hi, lo := (bs[0] as int) / 16, (bs[0] as int) % 16;
      assert s == PairOf(bs[0]) + Encode(bs[1..]);
      assert s[0] == DigitOf(hi) && s[1] == DigitOf(lo);
      assert s[2..] == Encode(bs[1..]);
      DigitValueOf(hi);
      DigitValueOf(lo);
      DecodeEncode(bs[1..]);
      PairSplit(bs[0]);
      assert (hi * 16 + lo) as byte == bs[0];
      assert [bs[0]] + bs[1..] == bs;
    }
  }

  /** Every string the decoder accepts is the encoding of what it decodes to. */
  lemma {:induction false} EncodeDecode(s: string)
    requires Decode(s).Some?
    ensures Encode(Decode(s).value) == s
    decreases |s|
  {
    if |s| > 0 {
      EncodeDecode(s[2..]);
      var hi := DigitValue(s[0]).value;
      var lo := DigitValue(s[1]).value;
      PairJoin(hi, lo);
      var b := (hi * 16 + lo) as byte;
      var rest := Decode(s[2..]).value;
      assert Decode(s).value == [b] + rest;
      assert ([b] + rest)[1..] == rest;
      assert PairOf(b) == [s[0], s[1]];
      assert s == [s[0], s[1]] + s[2..];
    }
  }

  /** Distinct byte strings have distinct encodings. */
  lemma EncodeInjective(a: Bytes, b: Bytes)
    requires Encode(a) == Encode(b)
    ensures a == b
  {
    DecodeEncode(a);
    DecodeEncode(b);
  }
}
