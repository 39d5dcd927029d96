/** The unsigned varint of Protocol Buffers ("Base 128 Varints", unsigned
    LEB128): seven payload bits per byte, least significant group first, the
    high bit set on every byte but the last. `encode_unsigned_varint` and
    `decode_unsigned_varint` are given this meaning. */
module Varint {
  import opened Wire

  /** 128 to the power k: the values that fit in k varint bytes are those
      below it. */
  function Pow128(k: nat): (p: nat)
    ensures p >= 1
  {
    if k == 0 then 1 else 128 * Pow128(k - 1)
  }

  /** The minimal encoding of `n`: the high bit marks every byte but the
      last as continued. */
  function Encode(n: nat): (r: seq<byte>)
    ensures 1 <= |r|
    ensures r[|r| - 1] < 128
    ensures forall i :: 0 <= i < |r| - 1 ==> r[i] >= 128
    decreases n
  {
    if n < 128 then [n] else [128 + n % 128] + Encode(n / 128)
  }

  /** The value of the varint at the start of `s` and the number of bytes it
      occupies; None when no byte of `s` ends the varint. */
  function Decode(s: seq<byte>): (r: Option<(nat, nat)>)
    ensures r.Some? ==> 1 <= r.value.1 <= |s|
  {
    if |s| == 0 then None
    else if s[0] < 128 then Some((s[0] as nat, 1))
    else match Decode(s[1..])
      case None => None
      case Some((v, k)) => Some(((s[0] - 128) + 128 * v, k + 1))
  }

  /** Decoding an encoding gives the value back and consumes exactly the
      encoding, whatever follows it. */
  lemma {:induction false} DecodeEncode(n: nat, rest: seq<byte>)
    ensures Decode(Encode(n) + rest) == Some((n, |Encode(n)|))
    decreases n
  {
    if n >= 128 {
      var s := Encode(n) + rest;
      assert s[1..] == Encode(n / 128) + rest;
      DecodeEncode(n / 128, rest);
    }
  }

  /** The encoding is minimal: it fits in k bytes exactly when the value is
      below 128^k. */
  lemma {:induction false} EncodeLength(n: nat, k: nat)
    requires k >= 1
    ensures |Encode(n)| <= k <==> n < Pow128(k)
    decreases n
  {
    if n >= 128 {
      if k == 1 {
        assert Pow128(1) == 128;
      } else {
        EncodeLength(n / 128, k - 1);
      }
    }
  }

  /** A 32-bit length takes at most five varint bytes. */
  lemma EncodeLength32(n: nat)
    requires n < TWO_TO_THE_32
    ensures |Encode(n)| <= 5
  {
    assert Pow128(5) == 34359738368;
    EncodeLength(n, 5);
  }

  /** Decoding looks at no byte past the varint: the varint decodes from a
      prefix of the stream exactly when it ends inside that prefix. This is
      what lets a reader take a fixed number of bytes and decode from them. */
  lemma {:induction false} DecodePrefix(s: seq<byte>, m: nat)
    requires m <= |s|
    ensures Decode(s[..m]).Some? ==> Decode(s) == Decode(s[..m])
    ensures Decode(s).Some? && Decode(s).value.1 <= m ==> Decode(s[..m]) == Decode(s)
  {
    if m > 0 && s[0] >= 128 {
      assert s[..m][1..] == s[1..][..m - 1];
      DecodePrefix(s[1..], m - 1);
    }
  }

  /** A varint ends at the first byte whose high bit is clear. */
  lemma {:induction false} DecodeStopsAtClearHighBit(s: seq<byte>)
    requires Decode(s).Some?
    ensures s[Decode(s).value.1 - 1] < 128
    ensures forall i :: 0 <= i < Decode(s).value.1 - 1 ==> s[i] >= 128
  {
    if s[0] >= 128 {
      DecodeStopsAtClearHighBit(s[1..]);
    }
  }
}
