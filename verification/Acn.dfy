/** acn.c: E1.31 packets, whose universes are laid out in the pixel buffer block by block. */
module Acn {
  import opened Bytes
  import opened Limits
  import opened PixelBuffer
  import opened Socket
  import opened Hardware
  import Wire
  import Zcpp
  import Datagrams

  const IDENTIFIER_AT := 4
  const UNIVERSE_AT := 113
  const PROPERTY_COUNT_AT := 123
  const DATA_AT := 126

  /** "ASC-E1.17" and the NUL at which the comparison stops, two bytes before the field ends. */
  function Identifier(): seq<byte> {
    [0x41, 0x53, 0x43, 0x2D, 0x45, 0x31, 0x2E, 0x31, 0x37, 0]
  }

  function GetUniverse(eth: Eth): nat {
    eth[UNIVERSE_AT] as int * 0x100 + eth[UNIVERSE_AT + 1]
  }

  /** The data bytes: the property count without the START code; -1 for a count of 0. */
  function GetPropertyCount(eth: Eth): int {
    eth[PROPERTY_COUNT_AT] as int * 0x100 + eth[PROPERTY_COUNT_AT + 1] as int - 1
  }

  predicate Accepted(eth: Eth, universeStart: int, universeEnd: int) {
    && eth[IDENTIFIER_AT..IDENTIFIER_AT + 10] == Identifier()
    && universeStart <= GetUniverse(eth) <= universeEnd
  }

  /** The copy reads inside the receive buffer and writes inside the pixel buffer. */
  predicate AcnInside(eth: Eth, universeStart: int) {
    && 0 <= GetPropertyCount(eth) <= ETH_BUFFER_SIZE - DATA_AT
    && 0 <= (GetUniverse(eth) - universeStart) * UNIVERSE_SIZE
    && (GetUniverse(eth) - universeStart) * UNIVERSE_SIZE + GetPropertyCount(eth) <= PIXEL_BUFFER_SIZE
  }

  function AcnWrite(eth: Eth, universeStart: int): Write
    requires AcnInside(eth, universeStart)
  {
    Write((GetUniverse(eth) - universeStart) * UNIVERSE_SIZE, eth[DATA_AT..DATA_AT + GetPropertyCount(eth)])
  }

  datatype Outcome = Done(pixels: Pixels) | OutOfBounds

  function Handle(px: Pixels, universeStart: int, universeEnd: int, eth: Eth): Outcome {
    if !Accepted(eth, universeStart, universeEnd) then Done(px)
    else if AcnInside(eth, universeStart) then Done(Apply(px, AcnWrite(eth, universeStart)))
    else OutOfBounds
  }

  class AcnListener {
    const hw: ThreadCtrl
    const ethBuffer: array<byte>
    const universeStart: int
    const universeEnd: int

    ghost predicate Valid() {
      && hw.Valid()
      && ethBuffer.Length == ETH_BUFFER_SIZE
      && ethBuffer != hw.buffer
      && ethBuffer as object != hw.channelCount
      && ethBuffer as object != hw.startChannel
    }

    /** The universes as `main` sets them up from the file. */
    constructor (hw: ThreadCtrl, universeStart: int, universeCount: int)
      requires hw.Valid()
      ensures Valid() && this.hw == hw && fresh(ethBuffer)
      ensures this.universeStart == universeStart && universeEnd == universeStart + universeCount - 1
    {
      this.hw := hw;
      ethBuffer := new byte[ETH_BUFFER_SIZE];
      this.universeStart, universeEnd := universeStart, universeStart + universeCount - 1;
    }

    /** The turn of the receive loop after `recvfrom`. */
    method Dispatch()
      requires Valid() && Handle(hw.Channels(), universeStart, universeEnd, ethBuffer[..]).Done?
      modifies hw.buffer
      ensures Done(hw.Channels()) == Handle(old(hw.Channels()), universeStart, universeEnd, ethBuffer[..])
    {
      if ethBuffer[IDENTIFIER_AT..IDENTIFIER_AT + 10] == Identifier() {
        var universe := GetUniverse(ethBuffer[..]);
        if universeStart <= universe && universe <= universeEnd {
          var bufferOffset := (universe - universeStart) * UNIVERSE_SIZE;
          Memcpy(hw.buffer, bufferOffset, ethBuffer, DATA_AT, GetPropertyCount(ethBuffer[..]));
        }
      }
    }
  }

  /** A packet's property count is one E1.31 allows: START code and up to 512 slots. */
  predicate ProperCount(eth: Eth) {
    0 <= GetPropertyCount(eth) <= UNIVERSE_SIZE
  }

  /** A universe writes inside its own 512-byte block. */
  lemma WritesOwnBlock(eth: Eth, universeStart: int)
    requires ProperCount(eth) && AcnInside(eth, universeStart)
    ensures var w, block := AcnWrite(eth, universeStart), UNIVERSE_SIZE * (GetUniverse(eth) - universeStart);
            forall ch :: w.Covers(ch) ==> block <= ch < block + UNIVERSE_SIZE
  {
  }

  /** Packets of different universes may arrive in either order. */
  lemma DifferentUniversesCommute(px: Pixels, e: Eth, f: Eth, universeStart: int, universeEnd: int)
    requires ProperCount(e) && ProperCount(f) && GetUniverse(e) != GetUniverse(f)
    requires Handle(px, universeStart, universeEnd, e).Done? && Handle(px, universeStart, universeEnd, f).Done?
    ensures var first := Handle(px, universeStart, universeEnd, e);
            var second := Handle(px, universeStart, universeEnd, f);
            && Handle(first.pixels, universeStart, universeEnd, f).Done?
            && Handle(first.pixels, universeStart, universeEnd, f) ==
               Handle(second.pixels, universeStart, universeEnd, e)
  {
    if Accepted(e, universeStart, universeEnd) && Accepted(f, universeStart, universeEnd) {
      DisjointWritesCommute(px, AcnWrite(e, universeStart), AcnWrite(f, universeStart));
    }
    hide Apply, Accepted, AcnInside, AcnWrite;
  }

  /** An accepted packet does to the pixels what a ZCPP data packet for the universe's block does. */
  lemma RefinesZcppData(e: Eth, universeStart: int, universeEnd: int, s: Zcpp.Sys, zcppEth: Eth)
    requires Accepted(e, universeStart, universeEnd) && AcnInside(e, universeStart)
    ensures var w := AcnWrite(e, universeStart);
            var d := Wire.DataPacket(0, 0, 0, w.at, 0, w.data);
            && |w.data| == GetPropertyCount(e)
            && Zcpp.Handle(s, Received(zcppEth, Datagram(Wire.DataBytes(d)))) ==
               Zcpp.Done(s.(pixels := Handle(s.pixels, universeStart, universeEnd, e).pixels))
  {
    var w := AcnWrite(e, universeStart);
    Datagrams.DataRoundTrip(Wire.DataPacket(0, 0, 0, w.at, 0, w.data), zcppEth, s);
  }

  // ----- packets as their senders lay them out

  /** The fields the receiver does not look at are kept as blocks of bytes. */
  datatype AcnPacketRaw = AcnPacket(preamble: seq<byte>, middle: seq<byte>, universe: uint16, dmp: seq<byte>,
                                    startCode: byte, data: seq<byte>)

  type AcnPacket = p: AcnPacketRaw |
      |p.preamble| == IDENTIFIER_AT && |p.middle| == 99 && |p.dmp| == 8 && |p.data| <= UNIVERSE_SIZE
    witness AcnPacket(seq(4, i => 0), seq(99, i => 0), 0, seq(8, i => 0), 0, [])

  function AcnBytes(p: AcnPacket): (m: seq<byte>)
    ensures |m| == DATA_AT + |p.data|
    ensures m[IDENTIFIER_AT..IDENTIFIER_AT + 10] == Identifier()
    ensures m[UNIVERSE_AT..UNIVERSE_AT + 2] == ToWire16(p.universe)
    ensures m[PROPERTY_COUNT_AT..PROPERTY_COUNT_AT + 2] == ToWire16(1 + |p.data|)
    ensures m[DATA_AT..] == p.data
  {
    p.preamble + Identifier() + p.middle + ToWire16(p.universe) + p.dmp + ToWire16(1 + |p.data|)
    + [p.startCode] + p.data
  }

  lemma AcnFieldsRoundTrip(p: AcnPacket, eth: Eth)
    ensures var got := Received(eth, Datagram(AcnBytes(p)));
            && got[IDENTIFIER_AT..IDENTIFIER_AT + 10] == Identifier()
            && GetUniverse(got) == p.universe && GetPropertyCount(got) == |p.data|
            && got[DATA_AT..DATA_AT + |p.data|] == p.data
  {
    var m, got := AcnBytes(p), Received(eth, Datagram(AcnBytes(p)));
    ReceivedSlice(eth, m, IDENTIFIER_AT, IDENTIFIER_AT + 10);
    ReceivedSlice(eth, m, UNIVERSE_AT, UNIVERSE_AT + 2);
    ReceivedSlice(eth, m, PROPERTY_COUNT_AT, PROPERTY_COUNT_AT + 2);
    ReceivedSlice(eth, m, DATA_AT, |m|);
    assert m[DATA_AT..|m|] == p.data;
    assert GetUniverse(got) == FromWire16(got[UNIVERSE_AT..UNIVERSE_AT + 2]);
    assert GetPropertyCount(got) == FromWire16(got[PROPERTY_COUNT_AT..PROPERTY_COUNT_AT + 2]) - 1;
  }

  /** The packet is for a universe outside the range, or its data fit the buffer where they go. */
  predicate Fits(p: AcnPacket, universeStart: int, universeEnd: int) {
    universeStart <= p.universe <= universeEnd ==>
      (p.universe - universeStart) * UNIVERSE_SIZE + |p.data| <= PIXEL_BUFFER_SIZE
  }

  lemma HandleAcn(px: Pixels, universeStart: int, universeEnd: int, got: Eth, universe: uint16, data: seq<byte>)
    requires got[IDENTIFIER_AT..IDENTIFIER_AT + 10] == Identifier()
    requires GetUniverse(got) == universe && GetPropertyCount(got) == |data| <= UNIVERSE_SIZE
    requires got[DATA_AT..DATA_AT + |data|] == data
    requires universeStart <= universe <= universeEnd ==>
               (universe - universeStart) * UNIVERSE_SIZE + |data| <= PIXEL_BUFFER_SIZE
    ensures Handle(px, universeStart, universeEnd, got) ==
            if universeStart <= universe <= universeEnd
            then Done(Apply(px, Write((universe - universeStart) * UNIVERSE_SIZE, data)))
            else Done(px)
  {
    hide Apply, GetUniverse, GetPropertyCount, Identifier;
  }

  /** A serialised universe, over any previous contents of the receive buffer. */
  lemma AcnRoundTrip(p: AcnPacket, eth: Eth, px: Pixels, universeStart: int, universeEnd: int)
    requires Fits(p, universeStart, universeEnd)
    ensures Handle(px, universeStart, universeEnd, Received(eth, Datagram(AcnBytes(p)))) ==
            if universeStart <= p.universe <= universeEnd
            then Done(Apply(px, Write((p.universe - universeStart) * UNIVERSE_SIZE, p.data)))
            else Done(px)
  {
    hide AcnBytes, Handle, Received, Apply;
    AcnFieldsRoundTrip(p, eth);
    HandleAcn(px, universeStart, universeEnd, Received(eth, Datagram(AcnBytes(p))), p.universe, p.data);
  }

  // ----- how many universes the buffer has room for

  /** All packets with a proper count stay inside. */
  ghost predicate AllInside(universeStart: int, universeCount: int) {
    forall eth: Eth :: Accepted(eth, universeStart, universeStart + universeCount - 1) && ProperCount(eth) ==>
      AcnInside(eth, universeStart)
  }

  /** The configured range is safe exactly when it is at most 48 universes long, or
      universe numbers, which have 16 bits, do not reach beyond 48 of it. */
  lemma UniverseRangeFits(universeStart: int, universeCount: int)
    ensures AllInside(universeStart, universeCount) <==>
            || universeCount <= MAX_UNIVERSES
            || universeStart >= 0x1_0000 - MAX_UNIVERSES
            || universeStart + universeCount <= 0
  {
    if || universeCount <= MAX_UNIVERSES
       || universeStart >= 0x1_0000 - MAX_UNIVERSES
       || universeStart + universeCount <= 0 {
      forall eth: Eth | Accepted(eth, universeStart, universeStart + universeCount - 1) && ProperCount(eth)
        ensures AcnInside(eth, universeStart)
      {
        assert GetUniverse(eth) < 0x1_0000;
      }
    } else {
      var top := universeStart + universeCount - 1;
      var u: uint16 := if top < 0x1_0000 then top else 0xFFFF;
      var p := AcnPacket(seq(4, i => 0), seq(99, i => 0), u, seq(8, i => 0), 0, seq(UNIVERSE_SIZE, i => 0));
      var eth := seq(ETH_BUFFER_SIZE, i => 0);
      AcnFieldsRoundTrip(p, eth);
      assert !AcnInside(Received(eth, Datagram(AcnBytes(p))), universeStart);
    }
  }
}
