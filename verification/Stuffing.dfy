/**
 The entropy-coded segment as bytes (ITU-T T.81 F.1.2.3): bits packed into octets, a zero stuffed after every
 FF, and the marker that ends the segment.
 */
module Stuffing {
  import opened Bits

  // ---------- octets ----------

  /** The complete octets of a bit string. */
  function Pack(bits: seq<bool>): (r: seq<byte>)
    ensures |r| == |bits| / 8
  {
    if |bits| < 8 then [] else
      OctetBound(bits);
      [ValueOf(bits[..8])] + Pack(bits[8..])
  }

  /** The bits left over after the last complete octet. */
  function Rest(bits: seq<bool>): (r: seq<bool>)
    ensures |r| == |bits| % 8
  {
    bits[8 * (|bits| / 8)..]
  }

  lemma OctetBound(bits: seq<bool>)
    requires |bits| >= 8
    ensures ValueOf(bits[..8]) < 256
  {
    Pow2Values();
    ValueOfBound(bits[..8]);
  }

  lemma RestStep(bits: seq<bool>)
    requires |bits| >= 8
    ensures Rest(bits) == Rest(bits[8..])
  {
  }

  lemma PackStep(bits: seq<bool>)
    requires |bits| >= 8
    ensures ValueOf(bits[..8]) < 256 && Pack(bits) == [ValueOf(bits[..8])] + Pack(bits[8..])
  {
    OctetBound(bits);
  }

  lemma ByteBitsStep(c: byte, bs: seq<byte>)
    ensures ByteBits([c] + bs) == BitsOf(c, 8) + ByteBits(bs)
  {
    assert ([c] + bs)[1..] == bs;
  }

  /** Packing loses nothing. */
  lemma {:induction false} PackRest(bits: seq<bool>)
    ensures ByteBits(Pack(bits)) + Rest(bits) == bits
  {
    if |bits| < 8 {
      assert Rest(bits) == bits;
    } else {
      hide *;
      PackRest(bits[8..]);
      RestStep(bits);
      PackStep(bits);
      BitsOfValueOf(bits[..8]);
      ByteBitsStep(ValueOf(bits[..8]), Pack(bits[8..]));
      Associate(bits[..8], ByteBits(Pack(bits[8..])), Rest(bits));
      assert bits[..8] + bits[8..] == bits;
    }
  }

  /** Packing more bits continues from the left-over ones. */
  lemma {:induction false} PackAppend(a: seq<bool>, b: seq<bool>)
    ensures Pack(a + b) == Pack(a) + Pack(Rest(a) + b)
    ensures Rest(a + b) == Rest(Rest(a) + b)
    decreases |a|
  {
    if |a| < 8 {
      assert Rest(a) == a;
    } else {
      hide *;
      PackAppend(a[8..], b);
      PackStep(a);
      PackStep(a + b);
      RestStep(a);
      RestStep(a + b);
      assert (a + b)[8..] == a[8..] + b && (a + b)[..8] == a[..8];
      Associate([ValueOf(a[..8])], Pack(a[8..]), Pack(Rest(a[8..]) + b));
    }
  }

  // ---------- stuffing ----------

  function Stuff(raw: seq<byte>): seq<byte>
  {
    if |raw| == 0 then [] else StuffByte(raw[0]) + Stuff(raw[1..])
  }

  function StuffByte(c: byte): seq<byte>
  {
    if c == 0xFF then [0xFF, 0] else [c]
  }

  lemma {:induction false} StuffAppend(a: seq<byte>, b: seq<byte>)
    ensures Stuff(a + b) == Stuff(a) + Stuff(b)
  {
    if |a| == 0 {
      assert a + b == b;
    } else {
      StuffAppend(a[1..], b);
      StuffFirst(a + b);
      assert (a + b)[1..] == a[1..] + b;
      Associate(StuffByte(a[0]), Stuff(a[1..]), Stuff(b));
    }
  }

  lemma StuffFirst(raw: seq<byte>)
    requires |raw| > 0
    ensures Stuff(raw) == StuffByte(raw[0]) + Stuff(raw[1..])
  {
  }

  /** In a stuffed segment every FF is followed by 00. */
  lemma {:induction false} StuffedFF(raw: seq<byte>, i: nat)
    requires i < |Stuff(raw)| && Stuff(raw)[i] == 0xFF
    ensures i + 1 < |Stuff(raw)| && Stuff(raw)[i + 1] == 0
  {
    var n := |StuffByte(raw[0])|;
    if i >= n {
      StuffedFF(raw[1..], i - n);
    }
  }

  /** How a segment ends: at a marker (FF and a non-zero byte), at the end of the data, or after a lone FF. */
  datatype Ending = Marker(code: byte) | NoMore | LoneFF

  /** A segment read back: the data octets before the end, and how it ended. */
  datatype Segment = Segment(raw: seq<byte>, ending: Ending)

  function Unstuff(bs: seq<byte>): Segment
  {
    if |bs| == 0 then
      Segment([], NoMore)
    else if bs[0] != 0xFF then
      Prepend(bs[0], Unstuff(bs[1..]))
    else if |bs| == 1 then
      Segment([], LoneFF)
    else if bs[1] == 0 then
      Prepend(0xFF, Unstuff(bs[2..]))
    else
      Segment([], Marker(bs[1]))
  }

  function Prepend(c: byte, s: Segment): Segment {
    Segment([c] + s.raw, s.ending)
  }

  /** Reading a stuffed segment back gives its octets and stops at the marker. */
  lemma {:induction false} UnstuffStuff(raw: seq<byte>, tail: seq<byte>)
    requires |tail| >= 2 && tail[0] == 0xFF && tail[1] != 0
    ensures Unstuff(Stuff(raw) + tail) == Segment(raw, Marker(tail[1]))
  {
    if |raw| == 0 {
      assert Stuff(raw) + tail == tail;
    } else {
      hide *;
      UnstuffStuff(raw[1..], tail);
      UnstuffByte(raw[0], Stuff(raw[1..]) + tail);
      StuffFirst(raw);
      Associate(StuffByte(raw[0]), Stuff(raw[1..]), tail);
      PrependSegment(raw, Marker(tail[1]));
    }
  }

  lemma PrependSegment(raw: seq<byte>, e: Ending)
    requires |raw| > 0
    ensures Prepend(raw[0], Segment(raw[1..], e)) == Segment(raw, e)
  {
  }

  lemma UnstuffByte(c: byte, more: seq<byte>)
    ensures Unstuff(StuffByte(c) + more) == Prepend(c, Unstuff(more))
  {
    var bs := StuffByte(c) + more;
    if c == 0xFF {
      assert bs[0] == 0xFF && bs[1] == 0 && bs[2..] == more;
    } else {
      assert bs[0] == c && bs[1..] == more;
    }
  }
}
