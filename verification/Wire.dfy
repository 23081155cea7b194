/** ZCPP.h: packet layouts, the packet-size function and the protocol-number loops. */
module Wire {
  import opened Bytes

  const TYPE_DISCOVERY := 0x00
  const TYPE_DISCOVERY_RESPONSE := 0x01
  const TYPE_CONFIG := 0x0A
  const TYPE_EXTRA_DATA := 0x0B
  const TYPE_QUERY_CONFIG := 0x0C
  const TYPE_QUERY_CONFIG_RESPONSE := 0x0D
  const TYPE_DATA := 0x14
  const TYPE_SYNC := 0x15

  const HEADER_SIZE := 6
  const CONFIG_PORTS_AT := 43
  const PORT_CONFIGS_AT := 44
  const PORT_CONFIG_SIZE := 16
  const EXTRA_RECORDS_AT := 12
  const RECORD_HEADER_SIZE := 3
  const DATA_AT := 15
  const PACKET_SIZE := 1458

  /** 'Z', 'C', 'P', 'P' */
  function Token(): seq<byte> {
    [0x5A, 0x43, 0x50, 0x50]
  }

  // ----- packets as their senders lay them out

  datatype PortConfig = PortConfig(port: byte, str: byte, protocol: byte, grouping: byte,
                                   startChannel: uint32, channels: uint32,
                                   direction: byte, nullPixels: byte, brightness: byte, gamma: byte)

  datatype ConfigPacketRaw = ConfigPacket(version: byte, sequenceNumber: uint16, name: seq<byte>,
                                          flags: byte, priority: byte, filler: byte, ports: seq<PortConfig>)

  type ConfigPacket = c: ConfigPacketRaw | |c.name| == 32 && |c.ports| < 0x100
    witness ConfigPacket(0, 0, seq(32, i => 0), 0, 0, 0, [])

  datatype DataPacketRaw = DataPacket(version: byte, sequenceNumber: byte, flags: byte,
                                      frameAddress: uint32, priority: byte, data: seq<byte>)

  type DataPacket = d: DataPacketRaw | |d.data| < 0x1_0000
    witness DataPacket(0, 0, 0, 0, 0, [])

  datatype ExtraRecordRaw = ExtraRecord(port: byte, str: byte, description: seq<byte>)

  type ExtraRecord = r: ExtraRecordRaw | |r.description| < 0x100
    witness ExtraRecord(0, 0, [])

  function PortConfigBytes(p: PortConfig): (m: seq<byte>)
    ensures |m| == PORT_CONFIG_SIZE
    ensures m[0] == p.port && m[1] == p.str
    ensures m[4..8] == ToWire32(p.startChannel) && m[8..12] == ToWire32(p.channels)
  {
    [p.port, p.str, p.protocol, p.grouping] + ToWire32(p.startChannel) + ToWire32(p.channels)
    + [p.direction, p.nullPixels, p.brightness, p.gamma]
  }

  function PortConfigsBytes(ps: seq<PortConfig>): (m: seq<byte>)
    ensures |m| == PORT_CONFIG_SIZE * |ps|
  {
    if ps == [] then [] else PortConfigsBytes(ps[..|ps| - 1]) + PortConfigBytes(ps[|ps| - 1])
  }

  function ConfigBytes(c: ConfigPacket): (m: seq<byte>)
    ensures |m| == PORT_CONFIGS_AT + PORT_CONFIG_SIZE * |c.ports|
    ensures m[..4] == Token() && m[4] == TYPE_CONFIG && m[CONFIG_PORTS_AT] == |c.ports|
    ensures m[6..8] == ToWire16(c.sequenceNumber)
    ensures m[PORT_CONFIGS_AT..] == PortConfigsBytes(c.ports)
  {
    var kind := Token() + [TYPE_CONFIG, c.version];
    var front := kind + ToWire16(c.sequenceNumber);
    var head := front + c.name + [c.flags, c.priority, c.filler, |c.ports|];
    assert |head| == PORT_CONFIGS_AT && head[CONFIG_PORTS_AT] == |c.ports|;
    assert head[..6] == kind && head[6..8] == front[6..] == ToWire16(c.sequenceNumber);
    var m := head + PortConfigsBytes(c.ports);
    assert m[..6] == kind && m[6..8] == head[6..8];
    m
  }

  function DataBytes(d: DataPacket): (m: seq<byte>)
    ensures |m| == DATA_AT + |d.data|
    ensures m[..4] == Token() && m[4] == TYPE_DATA
    ensures m[8..12] == ToWire32(d.frameAddress) && m[12..14] == ToWire16(|d.data|) && m[DATA_AT..] == d.data
  {
    Token() + [TYPE_DATA, d.version, d.sequenceNumber, d.flags]
    + ToWire32(d.frameAddress) + ToWire16(|d.data|) + [d.priority] + d.data
  }

  function RecordBytes(r: ExtraRecord): (m: seq<byte>)
    ensures |m| == RECORD_HEADER_SIZE + |r.description| && m[2] == |r.description|
  {
    [r.port, r.str, |r.description|] + r.description
  }

  function RecordsBytes(rs: seq<ExtraRecord>): seq<byte> {
    if rs == [] then [] else RecordBytes(rs[0]) + RecordsBytes(rs[1..])
  }

  function ExtraDataBytes(version: byte, sequenceNumber: uint16, flags: byte, priority: byte, filler: byte,
                          rs: seq<ExtraRecord>): (m: seq<byte>)
    requires |rs| < 0x100
    ensures |m| == EXTRA_RECORDS_AT + |RecordsBytes(rs)|
    ensures m[4] == TYPE_EXTRA_DATA && m[EXTRA_RECORDS_AT - 1] == |rs| && m[EXTRA_RECORDS_AT..] == RecordsBytes(rs)
  {
    Token() + [TYPE_EXTRA_DATA, version] + ToWire16(sequenceNumber)
    + [flags, priority, filler, |rs|] + RecordsBytes(rs)
  }

  /** The serialised port configurations, read back at their place. */
  lemma {:induction false} PortConfigsAt(ps: seq<PortConfig>, a: nat)
    requires a < |ps|
    ensures PortConfigsBytes(ps)[PORT_CONFIG_SIZE * a..PORT_CONFIG_SIZE * a + PORT_CONFIG_SIZE]
         == PortConfigBytes(ps[a])
  {
    var front, o := ps[..|ps| - 1], 16 * a;
    var m, n := PortConfigsBytes(front), PortConfigsBytes(ps);
    assert n == m + PortConfigBytes(ps[|ps| - 1]);
    if a < |front| {
      PortConfigsAt(front, a);
      assert o + 16 <= |m|;
      assert n[o..o + 16] == m[o..o + 16];
    } else {
      assert |m| == o && |n| == o + 16;
      assert n[o..o + 16] == PortConfigBytes(ps[a]);
    }
  }

  // ----- packet size

  /** A walk over `n` records from `at` on reads no length outside the packet. */
  predicate WalkInside(raw: seq<byte>, at: nat, n: nat)
    decreases n
  {
    n == 0 || (at + 2 < |raw| && WalkInside(raw, at + RECORD_HEADER_SIZE + raw[at + 2], n - 1))
  }

  /** Where a walk over `n` records from `at` on ends. */
  function WalkEnd(raw: seq<byte>, at: nat, n: nat): (end: nat)
    requires WalkInside(raw, at, n)
    ensures n == 0 ==> end == at
    ensures 0 < n ==> at < end <= |raw| + 0xFF
    decreases n
  {
    if n == 0 then at else WalkEnd(raw, at + RECORD_HEADER_SIZE + raw[at + 2], n - 1)
  }

  predicate SizeInside(raw: seq<byte>) {
    && |raw| == PACKET_SIZE
    && (raw[4] == TYPE_EXTRA_DATA ==> WalkInside(raw, EXTRA_RECORDS_AT, raw[EXTRA_RECORDS_AT - 1]))
  }

  /** The size by packet type; 28, not 44, for a configuration, because the header
      constant subtracts a PortConfig that the struct's flexible array does not hold. */
  function ActualSize(raw: seq<byte>): int
    requires SizeInside(raw)
  {
    var kind := raw[4];
    if kind == TYPE_DISCOVERY then 8
    else if kind == TYPE_DISCOVERY_RESPONSE then 88
    else if kind == TYPE_CONFIG then PORT_CONFIGS_AT - PORT_CONFIG_SIZE + raw[CONFIG_PORTS_AT] * PORT_CONFIG_SIZE
    else if kind == TYPE_EXTRA_DATA then WalkEnd(raw, EXTRA_RECORDS_AT, raw[EXTRA_RECORDS_AT - 1])
    else if kind == TYPE_QUERY_CONFIG then HEADER_SIZE
    else if kind == TYPE_QUERY_CONFIG_RESPONSE then 44 + raw[CONFIG_PORTS_AT] * PORT_CONFIG_SIZE
    else if kind == TYPE_DATA then DATA_AT + FromWire16(raw[12..14])
    else if kind == TYPE_SYNC then 7
    else 0
  }

  /** The C function: an `int` accumulated by the loop, returned as 16 bits. */
  method GetPacketActualSize(raw: seq<byte>) returns (result: uint16)
    requires SizeInside(raw)
    ensures result == ActualSize(raw) % 0x1_0000
    ensures raw[4] == TYPE_EXTRA_DATA ==> result == ActualSize(raw)
  {
    var kind := raw[4];
    if kind == TYPE_DISCOVERY {
      return 8;
    } else if kind == TYPE_DISCOVERY_RESPONSE {
      return 88;
    } else if kind == TYPE_CONFIG {
      return PORT_CONFIGS_AT - PORT_CONFIG_SIZE + raw[CONFIG_PORTS_AT] as int * PORT_CONFIG_SIZE;
    } else if kind == TYPE_EXTRA_DATA {
      var size := EXTRA_RECORDS_AT;
      var i := 0;
      while i < raw[EXTRA_RECORDS_AT - 1]
        invariant 0 <= i <= raw[EXTRA_RECORDS_AT - 1] && EXTRA_RECORDS_AT <= size
        invariant WalkInside(raw, size, raw[EXTRA_RECORDS_AT - 1] - i)
        invariant WalkEnd(raw, size, raw[EXTRA_RECORDS_AT - 1] - i) == ActualSize(raw)
      {
        size := size + RECORD_HEADER_SIZE + raw[size + 2];
        i := i + 1;
      }
      return size % 0x1_0000;
    } else if kind == TYPE_QUERY_CONFIG {
      return HEADER_SIZE;
    } else if kind == TYPE_QUERY_CONFIG_RESPONSE {
      return 44 + raw[CONFIG_PORTS_AT] as int * PORT_CONFIG_SIZE;
    } else if kind == TYPE_DATA {
      return (DATA_AT + FromWire16(raw[12..14]) as int) % 0x1_0000;
    } else if kind == TYPE_SYNC {
      return 7;
    }
    return 0;
  }

  lemma FirstRecord(raw: seq<byte>, at: nat, rs: seq<ExtraRecord>)
    requires rs != [] && at + |RecordsBytes(rs)| <= |raw|
    requires raw[at..at + |RecordsBytes(rs)|] == RecordsBytes(rs)
    ensures var next, rest := at + |RecordBytes(rs[0])|, RecordsBytes(rs[1..]);
            && at + RECORD_HEADER_SIZE <= next && raw[at + 2] == next - at - RECORD_HEADER_SIZE
            && next + |rest| == at + |RecordsBytes(rs)| && raw[next..next + |rest|] == rest
  {
    var bytes, first, rest := RecordsBytes(rs), RecordBytes(rs[0]), RecordsBytes(rs[1..]);
    assert raw[at + 2] == bytes[2] == first[2];
    SubSlice(raw, at, |bytes|, |first|, |bytes|);
    assert bytes[|first|..|bytes|] == rest;
  }

  /** Over serialised records the walk is inside the packet, stands at the boundary
      before record `k` after `k` steps, and ends where the last record ends. */
  lemma {:induction false} WalkOverRecords(raw: seq<byte>, at: nat, rs: seq<ExtraRecord>, k: nat)
    requires k <= |rs|
    requires at + |RecordsBytes(rs)| <= |raw|
    requires raw[at..at + |RecordsBytes(rs)|] == RecordsBytes(rs)
    ensures WalkInside(raw, at, |rs|) && WalkEnd(raw, at, |rs|) == at + |RecordsBytes(rs)|
    ensures WalkInside(raw, at, k) && WalkEnd(raw, at, k) == at + |RecordsBytes(rs[..k])|
    decreases |rs|
  {
    if rs != [] {
      FirstRecord(raw, at, rs);
      hide RecordBytes;
      WalkOverRecords(raw, at + |RecordBytes(rs[0])|, rs[1..], if k == 0 then 0 else k - 1);
      if 0 < k {
        assert rs[..k][1..] == rs[1..][..k - 1];
      }
    }
  }

  /** The size function against the packets' own length: right for data; right for extra
      data, and the 16-bit result never wraps; 16 short for every configuration. */
  lemma SizeOfData(raw: seq<byte>, d: DataPacket)
    requires |raw| == PACKET_SIZE && DataBytes(d) <= raw
    ensures SizeInside(raw) && ActualSize(raw) == |DataBytes(d)|
  {
  }

  /** The sizes type by type: the widths of the packed structs' fields, and 0 for other types. */
  lemma SizesByType(raw: seq<byte>)
    requires SizeInside(raw)
    ensures raw[4] == 0x00 ==> ActualSize(raw) == 6 + 1 + 1
    ensures raw[4] == 0x01 ==>
              ActualSize(raw) == 6 + 1 + 1 + 2 + 2 + 12 + 6 + 2 + 4 + 4 + 32 + 4 + 1 + 1 + 2 + 2 + 2 + 4
    ensures raw[4] == 0x0A ==> ActualSize(raw) == 6 + 2 + 32 + 1 + 1 + 1 + 1 - 16 + 16 * raw[43] as int
    ensures raw[4] == 0x0B ==> ActualSize(raw) == WalkEnd(raw, 12, raw[11])
    ensures raw[4] == 0x0C ==> ActualSize(raw) == 6
    ensures raw[4] == 0x0D ==> ActualSize(raw) == 6 + 2 + 32 + 2 + 1 + 1 + 16 * raw[43] as int
    ensures raw[4] == 0x14 ==> ActualSize(raw) == 15 + raw[12] as int * 0x100 + raw[13] as int
    ensures raw[4] == 0x15 ==> ActualSize(raw) == 6 + 1
    ensures raw[4] !in {0x00, 0x01, 0x0A, 0x0B, 0x0C, 0x0D, 0x14, 0x15} ==> ActualSize(raw) == 0
  {
  }

  lemma SizeOfConfig(raw: seq<byte>, c: ConfigPacket)
    requires |raw| == PACKET_SIZE && ConfigBytes(c) <= raw
    ensures SizeInside(raw) && ActualSize(raw) == |ConfigBytes(c)| - PORT_CONFIG_SIZE
  {
  }

  lemma SizeOfExtraData(raw: seq<byte>, version: byte, sequenceNumber: uint16, flags: byte, priority: byte,
                        filler: byte, rs: seq<ExtraRecord>)
    requires |rs| < 0x100
    requires |raw| == PACKET_SIZE && ExtraDataBytes(version, sequenceNumber, flags, priority, filler, rs) <= raw
    ensures SizeInside(raw)
    ensures ActualSize(raw) == EXTRA_RECORDS_AT + |RecordsBytes(rs)| < 0x1_0000
  {
    var m := ExtraDataBytes(version, sequenceNumber, flags, priority, filler, rs);
    assert raw[4] == m[4] && raw[EXTRA_RECORDS_AT - 1] == m[EXTRA_RECORDS_AT - 1];
    assert raw[EXTRA_RECORDS_AT..EXTRA_RECORDS_AT + |RecordsBytes(rs)|] == m[EXTRA_RECORDS_AT..];
    WalkOverRecords(raw, EXTRA_RECORDS_AT, rs, |rs|);
  }

  // ----- protocol numbers and discovery bit masks

  function Pow2(n: nat): (p: nat)
    ensures 0 < p
  {
    if n == 0 then 1 else 2 * Pow2(n - 1)
  }

  /** The number of the highest bit set; 0 for no bit. */
  function HighestBit(mask: nat): (n: nat)
    ensures 0 < mask ==> Pow2(n) <= mask < Pow2(n + 1)
  {
    if mask < 2 then 0 else 1 + HighestBit(mask / 2)
  }

  lemma {:induction false} HighestBitUnique(mask: nat, n: nat)
    requires Pow2(n) <= mask < Pow2(n + 1)
    ensures HighestBit(mask) == n
  {
    if 0 < n {
      HighestBitUnique(mask / 2, n - 1);
    }
  }

  lemma {:induction false} Pow2Increases(m: nat, n: nat)
    requires m < n
    ensures 2 * Pow2(m) <= Pow2(n)
  {
    if m < n - 1 {
      Pow2Increases(m, n - 1);
    }
  }

  method DiscoveryProtocolToProtocol(mask: uint32) returns (res: byte)
    ensures res == HighestBit(mask) < 32
  {
    res := 0;
    var rest: uint32 := mask / 2;
    Pow2OfWidth();
    if 0 < mask && 32 <= HighestBit(mask) {
      Pow2Increases(31, HighestBit(mask));
    }
    while rest != 0
      invariant res + (if rest == 0 then 0 else 1 + HighestBit(rest)) == HighestBit(mask)
      decreases rest
    {
      res := res + 1;
      rest := rest / 2;
    }
  }

  lemma Pow2OfWidth()
    ensures Pow2(32) == 0x1_0000_0000
  {
    assert Pow2(8) == 0x100;
    assert Pow2(16) == 0x1_0000;
    assert Pow2(24) == 0x100_0000;
  }

  /** The shifts leave a 32-bit word empty once the bit is pushed out of it. */
  method ProtocolToDiscoveryProtocol(protocol: byte) returns (res: uint32)
    ensures res == if protocol < 32 then Pow2(protocol) else 0
  {
    res := 1;
    var left := protocol;
    Pow2OfWidth();
    while left != 0
      invariant 0 <= left <= protocol
      invariant res == if protocol - left < 32 then Pow2(protocol - left) else 0
      decreases left
    {
      left := left - 1;
      if protocol - left < 32 {
        Pow2Increases(protocol - left, 32);
      }
      res := (res as int * 2) % 0x1_0000_0000;
    }
  }

  /** There and back: a protocol below 32 comes back as itself, a mask as its highest bit
      alone, so it is unchanged exactly when it is a power of two. */
  method ProtocolRoundTrip(protocol: byte, mask: uint32) returns (protocol': byte, mask': uint32)
    requires protocol < 32 && 0 < mask
    ensures protocol' == protocol
    ensures mask' == Pow2(HighestBit(mask)) && mask' <= mask < 2 * mask'
    ensures mask' == mask <==> exists k: nat :: mask == Pow2(k)
  {
    var m := ProtocolToDiscoveryProtocol(protocol);
    Pow2Increases(protocol, protocol + 1);
    HighestBitUnique(m, protocol);
    protocol' := DiscoveryProtocolToProtocol(m);
    var p := DiscoveryProtocolToProtocol(mask);
    mask' := ProtocolToDiscoveryProtocol(p);
    forall k: nat | mask == Pow2(k)
      ensures mask' == mask
    {
      HighestBitUnique(mask, k);
    }
  }
}
