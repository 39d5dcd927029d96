/** The length-prefixed envelope of the `PACK` macro (src/hadooprpc.c:63-74),
    the namenode frame built from it, and what a run of sends leaves on the
    wire when the link may break part-way. */
module Envelope {
  import opened Wire
  import Varint

  /** `PACK`: the varint of the packed size followed by the packed bytes; the
      length `PACK` reports is the length of this buffer. */
  function Pack(m: seq<byte>): (r: seq<byte>)
    ensures Varint.Decode(r) == Some((|m|, |r| - |m|))
    ensures r[|r| - |m|..] == m
  {
    Varint.DecodeEncode(|m|, m);
    Varint.Encode(|m|) + m
  }

  /** Reads one enveloped message off the front of `s`: the message and what
      follows it, or None when the length varint does not end or the
      message is longer than what is left. */
  function Unpack(s: seq<byte>): (r: Option<(seq<byte>, seq<byte>)>)
    ensures r.Some? ==> |r.value.0| + |r.value.1| < |s|
  {
    match Varint.Decode(s)
    case None => None
    case Some((n, k)) =>
      if k + n <= |s| then Some((s[k..k + n], s[k + n..])) else None
  }

  /** The envelope layout: the prefix is the varint of the message length,
      the reported length is that varint's length plus the message length,
      and reading the envelope back gives the message and leaves whatever
      followed it. */
  lemma PackRoundTrip(m: seq<byte>, rest: seq<byte>)
    ensures |Pack(m)| == |Varint.Encode(|m|)| + |m|
    ensures Varint.Decode(Pack(m) + rest) == Some((|m|, |Varint.Encode(|m|)|))
    ensures Unpack(Pack(m) + rest) == Some((m, rest))
  {
    var e := Varint.Encode(|m|);
    assert Pack(m) + rest == e + (m + rest);
    Varint.DecodeEncode(|m|, m + rest);
    var s := Pack(m) + rest;
    assert s[|e|..|e| + |m|] == m;
    assert s[|e| + |m|..] == rest;
  }

  /** The envelopes of several messages, one after the other. */
  function PackAll(parts: seq<seq<byte>>): (r: seq<byte>)
  {
    if parts == [] then [] else Pack(parts[0]) + PackAll(parts[1..])
  }

  /** Reads envelopes until `s` is used up; None when `s` is not an exact
      run of envelopes. */
  function UnpackAll(s: seq<byte>): (r: Option<seq<seq<byte>>>)
    decreases |s|
  {
    if s == [] then Some([])
    else match Unpack(s)
      case None => None
      case Some((m, rest)) =>
        match UnpackAll(rest)
        case None => None
        case Some(ms) => Some([m] + ms)
  }

  lemma {:induction false} UnpackAllPackAll(parts: seq<seq<byte>>)
    ensures UnpackAll(PackAll(parts)) == Some(parts)
  {
    if parts != [] {
      PackRoundTrip(parts[0], PackAll(parts[1..]));
      UnpackAllPackAll(parts[1..]);
      assert [parts[0]] + parts[1..] == parts;
    }
  }

  /** The buffers one frame is sent as: the 4-byte big-endian total length
      (32-bit unsigned, as the source computes it), then each part's
      envelope. */
  function FrameParts(parts: seq<seq<byte>>): (r: seq<seq<byte>>)
  {
    [BigEndian32(U32(|PackAll(parts)|))] + seq(|parts|, i requires 0 <= i < |parts| => Pack(parts[i]))
  }

  /** Reads one frame: a 4-byte big-endian length, then exactly that many
      bytes holding a run of envelopes. Gives the messages and what follows
      the frame. */
  function ParseFrame(s: seq<byte>): (r: Option<(seq<seq<byte>>, seq<byte>)>)
  {
    if |s| < 4 then None
    else
      var len := FromBigEndian32(s[..4]);
      if |s| < 4 + len then None
      else match UnpackAll(s[4..4 + len])
        case None => None
        case Some(ms) => Some((ms, s[4 + len..]))
  }

  lemma {:induction false} ConcatPacks(parts: seq<seq<byte>>)
    ensures Concat(seq(|parts|, i requires 0 <= i < |parts| => Pack(parts[i]))) == PackAll(parts)
  {
    var packs := seq(|parts|, i requires 0 <= i < |parts| => Pack(parts[i]));
    if parts != [] {
      assert packs[1..] == seq(|parts[1..]|, i requires 0 <= i < |parts[1..]| => Pack(parts[1..][i]));
      ConcatPacks(parts[1..]);
    }
  }

  /** A frame reads back as the messages it was built from, as long as its
      total length fits the 32-bit length field; whatever follows it on the
      wire is left untouched. */
  lemma FrameRoundTrip(parts: seq<seq<byte>>, rest: seq<byte>)
    requires |PackAll(parts)| < TWO_TO_THE_32
    ensures Concat(FrameParts(parts)) == BigEndian32(|PackAll(parts)|) + PackAll(parts)
    ensures ParseFrame(Concat(FrameParts(parts)) + rest) == Some((parts, rest))
  {
    var body := PackAll(parts);
    var fp := FrameParts(parts);
    ConcatPacks(parts);
    assert fp[1..] == seq(|parts|, i requires 0 <= i < |parts| => Pack(parts[i]));
    assert Concat(fp) == BigEndian32(|body|) + body;
    BigEndian32RoundTrip(|body|);
    var s := Concat(fp) + rest;
    assert s[..4] == BigEndian32(|body|);
    assert s[4..4 + |body|] == body;
    assert s[4 + |body|..] == rest;
    UnpackAllPackAll(parts);
  }

  /** What a run of sends puts on the wire when the link carries only
      `budget` more sends: the first `budget` buffers, whole, and nothing of
      the rest. */
  function Transmit(parts: seq<seq<byte>>, budget: nat): (r: seq<byte>)
  {
    if parts == [] || budget == 0 then [] else parts[0] + Transmit(parts[1..], budget - 1)
  }

  /** A send budget that covers every buffer puts all of them on the wire, in
      order; with no budget nothing is sent. */
  lemma {:induction false} TransmitAll(parts: seq<seq<byte>>, budget: nat)
    ensures budget >= |parts| ==> Transmit(parts, budget) == Concat(parts)
    ensures budget == 0 ==> Transmit(parts, budget) == []
  {
    if parts != [] && budget > 0 {
      TransmitAll(parts[1..], budget - 1);
    }
  }

  /** The budget left after `k` sends against a budget of `budget`: every
      send past the budget fails and spends nothing. */
  function Remaining(budget: nat, k: nat): (r: nat)
    ensures r <= budget
    ensures budget >= k ==> r + k == budget
    ensures budget < k ==> r == 0
  {
    if budget >= k then budget - k else 0
  }

  /** A send of one buffer: the buffer, if the budget allows a send. */
  lemma TransmitOne(a: seq<byte>, budget: nat)
    ensures Transmit([a], budget) == if budget >= 1 then a else []
  {
    assert [a][1..] == [];
  }

  /** The first buffer of a run goes out on the budget, the rest on what
      that send leaves of it; with no budget, nothing goes out. */
  lemma TransmitStep(before: seq<byte>, parts: seq<seq<byte>>, budget: nat)
    requires parts != []
    ensures before + Transmit(parts, budget)
      == before + Transmit([parts[0]], budget) + Transmit(parts[1..], Remaining(budget, 1))
  {
    TransmitOne(parts[0], budget);
    if budget > 0 {
      AppendAssoc(before, parts[0], Transmit(parts[1..], budget - 1));
    } else {
      assert before + [] + [] == before + [];
    }
  }

  /** Two buffers sent one after the other onto a wire that already holds
      `before`: the second goes out on what the first left of the budget. */
  lemma TransmitTwoSteps(before: seq<byte>, a: seq<byte>, b: seq<byte>, budget: nat)
    ensures before + Transmit([a, b], budget)
      == before + Transmit([a], budget) + Transmit([b], Remaining(budget, 1))
  {
    assert [a, b][1..] == [b];
    TransmitStep(before, [a, b], budget);
  }

  /** The same for four buffers: each goes out on what the sends before it
      left of the budget. */
  lemma TransmitFourSteps(before: seq<byte>, a: seq<byte>, b: seq<byte>, c: seq<byte>, d: seq<byte>, budget: nat)
    ensures before + Transmit([a, b, c, d], budget)
      == before + Transmit([a], budget) + Transmit([b], Remaining(budget, 1)) + Transmit([c], Remaining(budget, 2)) + Transmit([d], Remaining(budget, 3))
  {
    var x := before + Transmit([a], budget);
    var y := x + Transmit([b], Remaining(budget, 1));
    assert [a, b, c, d][1..] == [b, c, d];
    TransmitStep(before, [a, b, c, d], budget);
    assert [b, c, d][1..] == [c, d];
    TransmitStep(x, [b, c, d], Remaining(budget, 1));
    assert [c, d][1..] == [d];
    TransmitStep(y, [c, d], Remaining(budget, 2));
  }

  lemma TransmitNothing(before: seq<byte>, parts: seq<seq<byte>>)
    ensures before + Transmit(parts, 0) == before
  {
    assert before + [] == before;
  }
}
