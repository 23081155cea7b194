/** pixelworker.c: gathering each enabled port's channels into a payload that is
    reused from frame to frame, and handing it to the SPI device. */
module Worker {
  import opened Bytes
  import opened Limits
  import opened PixelBuffer
  import opened StringTable
  import opened Hardware
  import opened Frames

  /** `control_buffer`: counts and data, one behind the other in memory. */
  class ControlBuffer {
    const channelCount: array<uint16>
    const channelData: array<byte>

    ghost predicate Valid() {
      && channelCount.Length == STRINGS
      && channelData.Length == MAX_CHANNELS_PER_DEVICE
      && channelCount as object != channelData
    }

    ghost function Arrays(): set<object> {
      {channelCount as object, channelData as object}
    }

    ghost function Memory(): (m: seq<byte>)
      requires Valid()
      reads channelCount, channelData
      ensures |m| == COUNTS_SIZE + MAX_CHANNELS_PER_DEVICE
    {
      WordsInMemory(channelCount[..]) + channelData[..]
    }

    constructor ()
      ensures Valid() && fresh(Arrays())
    {
      channelCount := new uint16[STRINGS](i => 0);
      channelData := new byte[MAX_CHANNELS_PER_DEVICE](i => 0);
    }
  }

  class SpiDevice {
    var count: uint16
    var buffer: ControlBuffer?
    /** What has left the device, transfer by transfer. */
    ghost var sent: seq<seq<byte>>

    constructor ()
      ensures sent == []
    {
      count, buffer, sent := 0, null, [];
    }

    /** The first `count` bytes at `buffer` go out, if the `ioctl` works. */
    method Transfer(works: bool) returns (ret: int)
      requires buffer != null && buffer.Valid() && count <= COUNTS_SIZE + MAX_CHANNELS_PER_DEVICE
      modifies `sent
      ensures sent == old(sent) + if works then [buffer.Memory()[..count]] else []
      ensures ret == if works then 0 else -1
    {
      if !works {
        return -1;
      }
      sent := sent + [buffer.Memory()[..count]];
      return 0;
    }
  }

  ghost function HwArrays(hw: ThreadCtrl): set<object> {
    {hw.buffer as object, hw.channelCount as object, hw.startChannel as object}
  }

  /** One of the worker's four blocks, as an atomic step; the result of the transfer is not looked
      at. Whatever earlier frames left in the payload, what is sent is the frame of the table and
      the pixels as they are now; bytes of the payload behind the frame keep their old values.
      When table writes race with the block, old bytes can be sent: see StalePayloads. */
  method SendPort(hw: ThreadCtrl, port: nat, payload: ControlBuffer, dev: SpiDevice, works: bool)
    requires hw.Valid() && payload.Valid() && payload.Arrays() !! HwArrays(hw)
    requires port < PORTS && PortSafe(hw.Contents(), port)
    modifies payload.channelCount, payload.channelData, dev
    ensures dev.sent == old(dev.sent) + if works then [PortFrame(hw.Channels(), hw.Contents(), port)] else []
    ensures payload.channelCount[..] == HeaderWords(hw.Contents(), port)
    ensures payload.channelData[..] ==
            Splice(old(payload.channelData[..]), 0, Pick(hw.Channels(), Sources(hw.Contents(), port, STRINGS)))
  {
    var b := Gather(hw, port, payload);
    dev.buffer := payload;
    dev.count := Narrow(COUNTS_SIZE + b);
    var _ := dev.Transfer(works);
    PrefixOfPayload(payload.channelCount[..], old(payload.channelData[..]),
                    Pick(hw.Channels(), Sources(hw.Contents(), port, STRINGS)));
  }

  /** The stale bytes are exactly those the count cuts off. */
  lemma PrefixOfPayload(header: seq<uint16>, stale: seq<byte>, data: seq<byte>)
    requires |data| <= |stale|
    ensures (WordsInMemory(header) + Splice(stale, 0, data))[..2 * |header| + |data|] == WordsInMemory(header) + data
  {
  }

  /** One turn of the loop over a port's strings. */
  method GatherString(hw: ThreadCtrl, port: nat, payload: ControlBuffer, a: nat, b: nat) returns (b': nat)
    requires hw.Valid() && payload.Valid() && payload.Arrays() !! HwArrays(hw)
    requires port < PORTS && a < STRINGS && b <= MAX_CHANNELS_PER_DEVICE
    requires var k := Slot(port, a);
             && StringInRange(hw.Contents().counts[k], hw.Contents().starts[k])
             && b + hw.Contents().counts[k] <= MAX_CHANNELS_PER_DEVICE
    modifies payload.channelCount, payload.channelData
    ensures b' == b + hw.Contents().counts[Slot(port, a)]
    ensures payload.channelCount[..] == old(payload.channelCount[..])[a := Narrow(hw.Contents().counts[Slot(port, a)])]
    ensures payload.channelData[..] ==
            Splice(old(payload.channelData[..]), b, RangeOf(hw.Channels(), hw.Contents(), Slot(port, a)))
  {
    var k := Slot(port, a);
    b' := b;
    payload.channelCount[a] := Narrow(hw.channelCount[k]);
    if hw.channelCount[k] != 0 {
      Memcpy(payload.channelData, b, hw.buffer, hw.startChannel[k], hw.channelCount[k]);
      b' := b + hw.channelCount[k];
    }
  }

  method Gather(hw: ThreadCtrl, port: nat, payload: ControlBuffer) returns (b: nat)
    requires hw.Valid() && payload.Valid() && payload.Arrays() !! HwArrays(hw)
    requires port < PORTS && PortSafe(hw.Contents(), port)
    modifies payload.channelCount, payload.channelData
    ensures b == Offset(hw.Contents(), port, STRINGS) <= MAX_CHANNELS_PER_DEVICE
    ensures payload.channelCount[..] == HeaderWords(hw.Contents(), port)
    ensures payload.channelData[..] ==
            Splice(old(payload.channelData[..]), 0, Pick(hw.Channels(), Sources(hw.Contents(), port, STRINGS)))
  {
    ghost var t, px := hw.Contents(), hw.Channels();
    b := 0;
    hide PortSafe, Sources, Pick, RangeOf, Splice, Offset, HeaderWords;
    NothingGathered(payload.channelData[..], px, t, port);
    for a := 0 to STRINGS
      invariant b == Offset(t, port, a) <= MAX_CHANNELS_PER_DEVICE
      invariant hw.Contents() == t && hw.Channels() == px
      invariant payload.channelCount[..a] == HeaderWords(t, port)[..a]
      invariant payload.channelData[..] == Splice(old(payload.channelData[..]), 0, Pick(px, Sources(t, port, a)))
    {
      GatherOne(old(payload.channelData[..]), px, t, port, a);
      HeaderOneMore(payload.channelCount[..], t, port, a);
      b := GatherString(hw, port, payload, a, b);
    }
  }

  lemma HeaderOneMore(header: seq<uint16>, t: Table, port: nat, a: nat)
    requires port < PORTS && a < STRINGS == |header| && header[..a] == HeaderWords(t, port)[..a]
    ensures header[a := Narrow(t.counts[Slot(port, a)])][..a + 1] == HeaderWords(t, port)[..a + 1]
  {
  }

  lemma NothingGathered(stale: seq<byte>, px: Pixels, t: Table, port: nat)
    requires port < PORTS && PortSafe(t, port)
    ensures Offset(t, port, 0) == 0 && Splice(stale, 0, Pick(px, Sources(t, port, 0))) == stale
  {
  }

  /** One more string behind those already copied. */
  lemma GatherOne(stale: seq<byte>, px: Pixels, t: Table, port: nat, a: nat)
    requires port < PORTS && a < STRINGS && PortSafe(t, port) && |stale| == MAX_CHANNELS_PER_DEVICE
    ensures var k := Slot(port, a);
            && StringInRange(t.counts[k], t.starts[k])
            && 0 <= Offset(t, port, a) && Offset(t, port, a) + t.counts[k] <= MAX_CHANNELS_PER_DEVICE
            && Offset(t, port, a + 1) == Offset(t, port, a) + t.counts[k]
            && Splice(Splice(stale, 0, Pick(px, Sources(t, port, a))), Offset(t, port, a), RangeOf(px, t, k))
               == Splice(stale, 0, Pick(px, Sources(t, port, a + 1)))
  {
    var k := Slot(port, a);
    hide PortSafe, StringInRange;
    PlaceOfString(t, port, a);
    assert Pick(px, Sources(t, port, a + 1)) == Pick(px, Sources(t, port, a)) + RangeOf(px, t, k);
  }

  /** Every port the worker serves can be gathered. */
  ghost predicate EnabledSafe(t: Table, pixelPorts: int) {
    forall p: nat :: p < PORTS && p < pixelPorts ==> PortSafe(t, p)
  }

  lemma EachPortSafe(t: Table, pixelPorts: int)
    requires EnabledSafe(t, pixelPorts)
    ensures forall p: nat :: p < PORTS && p < pixelPorts ==> PortSafe(t, p)
  {
  }

  class Worker {
    const hw: ThreadCtrl
    const payload1: ControlBuffer
    const payload2: ControlBuffer
    const payload3: ControlBuffer
    const payload4: ControlBuffer
    const spi0: SpiDevice
    const spi1: SpiDevice
    const spi2: SpiDevice
    const spi3: SpiDevice

    ghost predicate Valid() {
      && hw.Valid()
      && payload1.Valid() && payload2.Valid() && payload3.Valid() && payload4.Valid()
      && HwArrays(hw) !! payload1.Arrays() !! payload2.Arrays() !! payload3.Arrays() !! payload4.Arrays()
      && spi0 != spi1 && spi0 != spi2 && spi0 != spi3 && spi1 != spi2 && spi1 != spi3 && spi2 != spi3
    }

    ghost function Repr(): set<object> {
      payload1.Arrays() + payload2.Arrays() + payload3.Arrays() + payload4.Arrays() + {spi0, spi1, spi2, spi3}
    }

    /** What has left the port so far. */
    ghost function Sent(port: nat): seq<seq<byte>>
      requires port < PORTS
      reads spi0, spi1, spi2, spi3
    {
      if port == 0 then spi0.sent else if port == 1 then spi1.sent else if port == 2 then spi2.sent else spi3.sent
    }

    constructor (hw: ThreadCtrl)
      requires hw.Valid()
      ensures Valid() && this.hw == hw && fresh(Repr())
      ensures forall p: nat :: p < PORTS ==> Sent(p) == []
    {
      this.hw := hw;
      payload1 := new ControlBuffer();
      payload2 := new ControlBuffer();
      payload3 := new ControlBuffer();
      payload4 := new ControlBuffer();
      spi0 := new SpiDevice();
      spi1 := new SpiDevice();
      spi2 := new SpiDevice();
      spi3 := new SpiDevice();
    }

    function PayloadOf(port: nat): ControlBuffer
      requires port < PORTS
    {
      if port == 0 then payload1 else if port == 1 then payload2 else if port == 2 then payload3 else payload4
    }

    function DeviceOf(port: nat): SpiDevice
      requires port < PORTS
    {
      if port == 0 then spi0 else if port == 1 then spi1 else if port == 2 then spi2 else spi3
    }

    /** One of the four blocks with its guard. */
    method ServePort(port: nat, works: bool)
      requires Valid() && port < PORTS && (port < hw.pixelPorts ==> PortSafe(hw.Contents(), port))
      modifies PayloadOf(port).Arrays(), DeviceOf(port)
      ensures hw.Contents() == old(hw.Contents()) && hw.Channels() == old(hw.Channels())
      ensures forall p: nat :: p < PORTS && (p != port || hw.pixelPorts <= port || !works) ==> Sent(p) == old(Sent(p))
      ensures port < hw.pixelPorts && works ==>
                Sent(port) == old(Sent(port)) + [PortFrame(hw.Channels(), hw.Contents(), port)]
    {
      if hw.pixelPorts > port {
        SendPort(hw, port, PayloadOf(port), DeviceOf(port), works);
      }
    }

    /** One turn of the worker's loop: every enabled port whose transfer does not fail sends one
        frame, no other port any. */
    method SendFrame(failing: set<nat>)
      requires Valid() && EnabledSafe(hw.Contents(), hw.pixelPorts)
      modifies Repr()
      ensures hw.Contents() == old(hw.Contents()) && hw.Channels() == old(hw.Channels())
      ensures forall p: nat :: p < PORTS ==>
                Sent(p) == old(Sent(p)) +
                if p < hw.pixelPorts && p !in failing then [PortFrame(hw.Channels(), hw.Contents(), p)] else []
    {
      hide PortSafe, PortFrame, EnabledSafe;
      EachPortSafe(hw.Contents(), hw.pixelPorts);
      ServePort(0, 0 !in failing);
      ServePort(1, 1 !in failing);
      ServePort(2, 2 !in failing);
      ServePort(3, 3 !in failing);
    }
  }
}
