/**
 * Bytes and the `hex` crate's text encoding: `hex::encode` writes two
 * lower-case digits per byte; `hex::decode` accepts either case and rejects
 * odd lengths and non-hex characters.
 */
module Hex {
  import opened Wrappers

  type byte = x: int | 0 <= x < 256

  type Bytes = seq<byte>

  /** A SHA-256 digest: exactly 32 bytes (Rust `[u8; 32]`). */
  type Digest = s: Bytes | |s| == 32 witness seq(32, _ => 0)

  const LOWER_HEX: string := "0123456789abcdef"

  predicate IsLowerHexChar(c: char)
  {
    '0' <= c <= '9' || 'a' <= c <= 'f'
  }

  predicate IsLowerHex(s: string)
  {
    forall i :: 0 <= i < |s| ==> IsLowerHexChar(s[i])
  }

  function HexChar(n: nat): (c: char)
    requires n < 16
    ensures IsLowerHexChar(c)
  {
    LOWER_HEX[n]
  }

  /** The value of one hex digit of either case, if it is one. */
  function HexValue(c: char): (r: Option<nat>)
    ensures r.Some? ==> r.value < 16
  {
    if '0' <= c <= '9' then Some(c as int - '0' as int)
    else if 'a' <= c <= 'f' then Some(c as int - 'a' as int + 10)
    else if 'A' <= c <= 'F' then Some(c as int - 'A' as int + 10)
    else None
  }

  /** `hex::encode`. */
  function Encode(bs: Bytes): (s: string)
    ensures |s| == 2 * |bs|
    ensures IsLowerHex(s)
  {
    if bs == [] then ""
    else [HexChar(bs[0] / 16), HexChar(bs[0] % 16)] + Encode(bs[1..])
  }

  /** `hex::decode`. */
  function Decode(s: string): (r: Option<Bytes>)
    ensures r.Some? ==> 2 * |r.value| == |s|
    decreases |s|
  {
    if |s| == 0 then Some([])
    else if |s| == 1 then None
    else
      match (HexValue(s[0]), HexValue(s[1]), Decode(s[2..]))
      case (Some(hi), Some(lo), Some(rest)) => Some([hi * 16 + lo] + rest)
      case _ => None
  }

  lemma HexCharValue(n: nat)
    requires n < 16
    ensures HexValue(HexChar(n)) == Some(n)
  {
    assert LOWER_HEX == ['0','1','2','3','4','5','6','7','8','9','a','b','c','d','e','f'];
  }

  /** Encoded bytes decode back to themselves. */
  lemma {:induction false} DecodeEncode(bs: Bytes)
    ensures Decode(Encode(bs)) == Some(bs)
  {
    if bs != [] {
      var hi, lo := bs[0] / 16, bs[0] % 16;
      var s := Encode(bs);
      EncodeCons(bs);
      HexCharValue(hi);
      HexCharValue(lo);
      DecodeEncode(bs[1..]);
      assert Decode(s) == Some([hi * 16 + lo] + bs[1..]);
      assert [bs[0]] + bs[1..] == bs;
    }
  }

  lemma EncodeCons(bs: Bytes)
    requires bs != []
    ensures |Encode(bs)| >= 2
    ensures Encode(bs)[0] == HexChar(bs[0] / 16) && Encode(bs)[1] == HexChar(bs[0] % 16)
    ensures Encode(bs)[2..] == Encode(bs[1..])
  {
    var head := [HexChar(bs[0] / 16), HexChar(bs[0] % 16)];
    assert Encode(bs) == head + Encode(bs[1..]);
  }

  /** Distinct byte strings have distinct hex encodings. */
  lemma EncodeInjective(a: Bytes, b: Bytes)
    requires Encode(a) == Encode(b)
    ensures a == b
  {
    DecodeEncode(a);
    DecodeEncode(b);
  }
}
