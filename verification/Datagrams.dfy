/** From the bytes a sender puts into a datagram to their effect: the packets' round trip
    through the reused receive buffer, and when stale bytes of that buffer matter. */
module Datagrams {
  import opened Bytes
  import opened Limits
  import opened PixelBuffer
  import opened StringTable
  import opened Wire
  import opened Socket
  import opened Zcpp

  // ----- round trip

  /** Every port configuration names a string of the table. */
  ghost predicate InTable(ps: seq<PortConfig>) {
    forall a :: 0 <= a < |ps| ==> ps[a].port < PORTS && ps[a].str < STRINGS
  }

  ghost function EntriesOf(ps: seq<PortConfig>): (es: seq<Entry>)
    requires InTable(ps)
    ensures |es| == |ps|
  {
    seq(|ps|, a requires 0 <= a < |ps| =>
      Entry(ps[a].port, ps[a].str, ToInt32(ps[a].startChannel), ToInt32(ps[a].channels)))
  }

  lemma PortConfigPlace(c: ConfigPacket, a: nat)
    requires a < |c.ports|
    ensures var o := PORT_CONFIGS_AT + PORT_CONFIG_SIZE * a;
            ConfigBytes(c)[o..o + PORT_CONFIG_SIZE] == PortConfigBytes(c.ports[a])
  {
    hide ConfigBytes, PortConfigsBytes, PortConfigBytes;
    var m, i := ConfigBytes(c), PORT_CONFIG_SIZE * a;
    PortConfigsAt(c.ports, a);
    assert m[PORT_CONFIGS_AT..|m|] == m[PORT_CONFIGS_AT..];
    SubSlice(m, PORT_CONFIGS_AT, PORT_CONFIG_SIZE * |c.ports|, i, i + PORT_CONFIG_SIZE);
  }

  lemma EntryInPlace(eth: Eth, a: nat, p: PortConfig)
    requires PORT_CONFIGS_AT + PORT_CONFIG_SIZE * (a + 1) <= ETH_BUFFER_SIZE
    requires var o := PORT_CONFIGS_AT + PORT_CONFIG_SIZE * a; eth[o..o + PORT_CONFIG_SIZE] == PortConfigBytes(p)
    ensures EntryAt(eth, a) == Entry(p.port, p.str, ToInt32(p.startChannel), ToInt32(p.channels))
  {
    var o, m := PORT_CONFIGS_AT + PORT_CONFIG_SIZE * a, PortConfigBytes(p);
    var e := eth[o..o + PORT_CONFIG_SIZE];
    assert eth[o] == e[0] && eth[o + 1] == e[1];
    SubSlice(eth, o, PORT_CONFIG_SIZE, 4, 8);
    SubSlice(eth, o, PORT_CONFIG_SIZE, 8, 12);
  }

  lemma EntryRoundTrip(c: ConfigPacket, eth: Eth, a: nat)
    requires |ConfigBytes(c)| <= ETH_BUFFER_SIZE && InTable(c.ports) && a < |c.ports|
    ensures EntryAt(Received(eth, Datagram(ConfigBytes(c))), a) == EntriesOf(c.ports)[a]
  {
    var o := PORT_CONFIGS_AT + PORT_CONFIG_SIZE * a;
    PortConfigPlace(c, a);
    ReceivedSlice(eth, ConfigBytes(c), o, o + PORT_CONFIG_SIZE);
    EntryInPlace(Received(eth, Datagram(ConfigBytes(c))), a, c.ports[a]);
  }

  lemma ConfigFieldsRoundTrip(c: ConfigPacket, eth: Eth)
    requires |ConfigBytes(c)| <= ETH_BUFFER_SIZE
    ensures var got := Received(eth, Datagram(ConfigBytes(c)));
            && got[..4] == Token() && got[4] == TYPE_CONFIG
            && FromWire16(got[6..8]) == c.sequenceNumber && got[CONFIG_PORTS_AT] == |c.ports|
  {
    hide ConfigBytes;
    var m := ConfigBytes(c);
    ReceivedSlice(eth, m, 0, 4);
    ReceivedSlice(eth, m, 6, 8);
  }

  lemma HandleConfig(s: Sys, got: Eth, sequence: uint16, es: seq<Entry>)
    requires got[..4] == Token() && got[4] == TYPE_CONFIG
    requires FromWire16(got[6..8]) == sequence && got[CONFIG_PORTS_AT] == |es|
    requires PORT_CONFIGS_AT + PORT_CONFIG_SIZE * |es| <= ETH_BUFFER_SIZE
    requires forall a: nat :: a < |es| ==> EntryAt(got, a) == es[a]
    ensures ConfigInside(got) && DecodeConfig(got) == ConfigMsg(sequence, es)
    ensures Handle(s, got) == Done(s.(config := ConfigStep(s.config, ConfigMsg(sequence, es))))
  {
    assert EntriesUpTo(got, |es|) == es;
  }

  /** A serialised configuration of any number of entries that fits the receive buffer has,
      over any previous contents of that buffer, the effect of its own entries. */
  lemma ConfigRoundTrip(c: ConfigPacket, eth: Eth, s: Sys)
    requires |ConfigBytes(c)| <= ETH_BUFFER_SIZE && InTable(c.ports)
    ensures Handle(s, Received(eth, Datagram(ConfigBytes(c)))) ==
            Done(s.(config := ConfigStep(s.config, ConfigMsg(c.sequenceNumber, EntriesOf(c.ports)))))
    ensures CellsOf(s.config.lastSequence, Received(eth, Datagram(ConfigBytes(c)))) ==
            ConfigCells(s.config.lastSequence, ConfigMsg(c.sequenceNumber, EntriesOf(c.ports)))
  {
    var got := Received(eth, Datagram(ConfigBytes(c)));
    ConfigFieldsRoundTrip(c, eth);
    forall a: nat | a < |c.ports|
      ensures EntryAt(got, a) == EntriesOf(c.ports)[a]
    {
      EntryRoundTrip(c, eth, a);
    }
    HandleConfig(s, got, c.sequenceNumber, EntriesOf(c.ports));
  }

  lemma DataFieldsRoundTrip(d: DataPacket, eth: Eth)
    requires |DataBytes(d)| <= ETH_BUFFER_SIZE
    ensures var got := Received(eth, Datagram(DataBytes(d)));
            && got[..4] == Token() && got[4] == TYPE_DATA
            && DataAddress(got) == d.frameAddress && DataLength(got) == |d.data|
            && got[DATA_AT..DATA_AT + |d.data|] == d.data
  {
    var m := DataBytes(d);
    ReceivedSlice(eth, m, 0, 4);
    ReceivedSlice(eth, m, 8, 12);
    ReceivedSlice(eth, m, 12, 14);
    ReceivedSlice(eth, m, DATA_AT, |m|);
    assert m[DATA_AT..|m|] == d.data;
  }

  lemma HandleData(s: Sys, got: Eth, w: Write)
    requires got[..4] == Token() && got[4] == TYPE_DATA
    requires DataAddress(got) == w.at && DataLength(got) == |w.data|
    requires DATA_AT + |w.data| <= ETH_BUFFER_SIZE && got[DATA_AT..DATA_AT + |w.data|] == w.data
    ensures Handle(s, got) == Done(s.(pixels := Apply(s.pixels, w)))
  {
  }

  lemma DataRoundTrip(d: DataPacket, eth: Eth, s: Sys)
    requires |DataBytes(d)| <= ETH_BUFFER_SIZE && d.frameAddress + |d.data| <= PIXEL_BUFFER_SIZE
    ensures Handle(s, Received(eth, Datagram(DataBytes(d)))) ==
            Done(s.(pixels := Apply(s.pixels, Write(d.frameAddress, d.data))))
  {
    DataFieldsRoundTrip(d, eth);
    HandleData(s, Received(eth, Datagram(DataBytes(d))), Write(d.frameAddress, d.data));
  }

  // ----- stale bytes

  /** The datagram holds every byte that handling it reads. */
  predicate Covered(d: seq<byte>) {
    || |d| >= ETH_BUFFER_SIZE
    || (exists i :: 0 <= i < 4 && i < |d| && d[i] != Token()[i])
    || (|d| >= 5 && d[4] == TYPE_CONFIG && |d| >= PORT_CONFIGS_AT
        && (d[CONFIG_PORTS_AT] == 0 || |d| >= PORT_CONFIGS_AT + PORT_CONFIG_SIZE * d[CONFIG_PORTS_AT] - 4))
    || (|d| >= 5 && d[4] == TYPE_DATA && |d| >= 14
        && (FromWire16(d[12..14]) == 0 || |d| >= DATA_AT + FromWire16(d[12..14])))
    || (|d| >= 5 && d[4] != TYPE_CONFIG && d[4] != TYPE_DATA)
  }

  /** By its own bytes the datagram has another token, or a type that changes nothing. */
  predicate Ignored(d: seq<byte>) {
    || (exists i :: 0 <= i < 4 && i < |d| && d[i] != Token()[i])
    || (|d| >= 5 && d[4] != TYPE_CONFIG && d[4] != TYPE_DATA)
  }

  lemma IgnoredBuffer(d: seq<byte>, eth: Eth)
    requires Ignored(d)
    ensures var x := Received(eth, Datagram(d)); x[..4] != Token() || (x[4] != TYPE_CONFIG && x[4] != TYPE_DATA)
  {
    var x := Received(eth, Datagram(d));
    if i :| 0 <= i < 4 && i < |d| && d[i] != Token()[i] {
      assert x[..4][i] == d[i];
    }
  }

  /** A configuration or data datagram of its true size is covered. */
  lemma TrueSizeIsCovered(c: ConfigPacket, d: DataPacket)
    ensures Covered(ConfigBytes(c)) && Covered(DataBytes(d))
  {
  }

  lemma SameEntries(d: seq<byte>, e: Eth, f: Eth, a: nat)
    requires |d| <= ETH_BUFFER_SIZE
    requires PORT_CONFIGS_AT + PORT_CONFIG_SIZE * (a + 1) <= ETH_BUFFER_SIZE
    requires PORT_CONFIGS_AT + PORT_CONFIG_SIZE * (a + 1) - 4 <= |d|
    ensures EntryAt(Received(e, Datagram(d)), a) == EntryAt(Received(f, Datagram(d)), a)
  {
  }

  lemma CoveredConfig(d: seq<byte>, s: Sys, e: Eth, f: Eth)
    requires PORT_CONFIGS_AT <= |d| < ETH_BUFFER_SIZE && Covered(d) && d[..4] == Token() && d[4] == TYPE_CONFIG
    ensures Handle(s, Received(e, Datagram(d))) == Handle(s, Received(f, Datagram(d)))
  {
    var x, y := Received(e, Datagram(d)), Received(f, Datagram(d));
    ReceivedSlice(e, d, 6, 8);
    ReceivedSlice(f, d, 6, 8);
    assert x[..4] == d[..4] == y[..4];
    assert x[CONFIG_PORTS_AT] == d[CONFIG_PORTS_AT] == y[CONFIG_PORTS_AT];
    if PORT_CONFIGS_AT + PORT_CONFIG_SIZE * d[CONFIG_PORTS_AT] <= ETH_BUFFER_SIZE {
      forall a: nat | a < d[CONFIG_PORTS_AT]
        ensures EntryAt(x, a) == EntryAt(y, a)
      {
        SameEntries(d, e, f, a);
      }
      if ConfigInside(x) && ConfigInside(y) {
        assert DecodeConfig(x).entries == DecodeConfig(y).entries;
      }
    }
  }

  lemma CoveredData(d: seq<byte>, s: Sys, e: Eth, f: Eth)
    requires 14 <= |d| < ETH_BUFFER_SIZE && Covered(d) && d[..4] == Token() && d[4] == TYPE_DATA
    ensures Handle(s, Received(e, Datagram(d))) == Handle(s, Received(f, Datagram(d)))
  {
    var x, y := Received(e, Datagram(d)), Received(f, Datagram(d));
    ReceivedSlice(e, d, 8, 12);
    ReceivedSlice(f, d, 8, 12);
    ReceivedSlice(e, d, 12, 14);
    ReceivedSlice(f, d, 12, 14);
    assert x[..4] == d[..4] == y[..4];
    var n := FromWire16(d[12..14]);
    if 0 < n {
      ReceivedSlice(e, d, DATA_AT, DATA_AT + n);
      ReceivedSlice(f, d, DATA_AT, DATA_AT + n);
    }
  }

  lemma CoveredIndependent(d: seq<byte>, s: Sys, e: Eth, f: Eth)
    requires Covered(d)
    ensures Handle(s, Received(e, Datagram(d))) == Handle(s, Received(f, Datagram(d)))
  {
    var x, y := Received(e, Datagram(d)), Received(f, Datagram(d));
    if |d| >= ETH_BUFFER_SIZE {
      assert x == y;
    } else if i :| 0 <= i < 4 && i < |d| && d[i] != Token()[i] {
      assert x[..4][i] == d[i] && y[..4][i] == d[i];
    } else {
      assert d[..4] == Token();
      assert x[..4] == d[..4] == y[..4];
      if d[4] == TYPE_CONFIG {
        CoveredConfig(d, s, e, f);
      } else if d[4] == TYPE_DATA {
        CoveredData(d, s, e, f);
      }
    }
  }

  function Dark(): Sys {
    Sys(ConfigState(Cleared(), 0), seq(PIXEL_BUFFER_SIZE, i => 0))
  }

  /** Too short to have a type: an old packet may complete the datagram. */
  lemma UncoveredHeader(d: seq<byte>) returns (s: Sys, e: Eth, f: Eth)
    requires |d| <= 4 && d <= Token()
    ensures Handle(s, Received(e, Datagram(d))) != Handle(s, Received(f, Datagram(d)))
  {
    var previous := DataPacket(0, 0, 0, 0, 0, [1]);
    hide DataBytes, DataAddress, DataLength, DataInside;
    s, f := Dark(), seq(ETH_BUFFER_SIZE, i => 0);
    e := Received(f, Datagram(DataBytes(previous)));
    DataRoundTrip(previous, f, s);
    assert Received(e, Datagram(d)) == e by {
      ReceivedSlice(f, DataBytes(previous), 0, 4);
      assert forall i :: 0 <= i < |d| ==> d[i] == e[..4][i];
    }
    assert Handle(s, e).sys.pixels[0] == 1;
    assert Handle(s, Received(f, Datagram(d))) == Done(s) by {
      assert Received(f, Datagram(d))[4] == 0;
    }
  }

  /** The last data byte that is written is stale: changing it shows. */
  lemma UncoveredByte(d: seq<byte>, x: Eth) returns (f: Eth)
    requires x[..4] == Token() && x[4] == TYPE_DATA && DataInside(x) && 0 < DataLength(x)
    requires d <= x && |d| <= DATA_AT + DataLength(x) - 1
    ensures Handle(Dark(), x) != Handle(Dark(), f) && d <= f
  {
    var last := DATA_AT + DataLength(x) - 1;
    f := x[last := (x[last] as int + 1) % 0x100];
    assert f[8..12] == x[8..12] && f[12..14] == x[12..14] && f[..4] == x[..4];
    var ch := DataAddress(x) + DataLength(x) - 1;
    assert Handle(Dark(), x).sys.pixels[ch] == x[last];
    assert Handle(Dark(), f).sys.pixels[ch] == f[last];
  }

  /** No data, but the low byte of the length is stale: an old packet may bring a byte. */
  lemma UncoveredLength(d: seq<byte>, x: Eth) returns (f: Eth)
    requires x[..4] == Token() && x[4] == TYPE_DATA && DataInside(x) && DataLength(x) == 0
    requires d <= x && |d| <= 13
    ensures Handle(Dark(), x) != Handle(Dark(), f) && d <= f
  {
    f := x[13 := 1][DATA_AT := 1];
    assert x[12] == 0 && f[12..14] == [0, 1];
    assert f[8..12] == x[8..12] && f[..4] == x[..4];
    assert Handle(Dark(), x) == Done(Dark());
    if DataAddress(x) < PIXEL_BUFFER_SIZE {
      assert Handle(Dark(), f).sys.pixels[DataAddress(x)] == 1;
    }
  }

  lemma UncoveredData(d: seq<byte>, eth: Eth, s0: Sys) returns (s: Sys, e: Eth, f: Eth)
    requires 5 <= |d| < ETH_BUFFER_SIZE && !Covered(d) && d[4] == TYPE_DATA
    requires Handle(s0, Received(eth, Datagram(d))).Done?
    ensures Handle(s, Received(e, Datagram(d))) != Handle(s, Received(f, Datagram(d)))
  {
    var x := Received(eth, Datagram(d));
    assert d[..4] == Token();
    assert x[..4] == Token() && x[4] == TYPE_DATA;
    assert |d| >= 14 ==> x[12..14] == d[12..14];
    s, e := Dark(), x;
    if 0 < DataLength(x) {
      f := UncoveredByte(d, x);
    } else {
      f := UncoveredLength(d, x);
    }
    assert Received(e, Datagram(d)) == x && Received(f, Datagram(d)) == f;
  }

  lemma UncoveredEntry(d: seq<byte>, x: Eth) returns (f: Eth)
    requires x[..4] == Token() && x[4] == TYPE_CONFIG && ConfigInside(x) && 0 < x[CONFIG_PORTS_AT]
    requires d <= x && |d| <= PORT_CONFIGS_AT + PORT_CONFIG_SIZE * (x[CONFIG_PORTS_AT] - 1) + 11
    ensures Handle(Dark(), x) != Handle(Dark(), f) && d <= f
  {
    var n := x[CONFIG_PORTS_AT];
    var o := PORT_CONFIGS_AT + PORT_CONFIG_SIZE * (n - 1);
    f := x[o + 11 := (x[o + 11] as int + 1) % 0x100];
    assert f[..4] == x[..4] && f[6..8] == x[6..8];
    forall a: nat | a < n
      ensures EntryAt(f, a).port == EntryAt(x, a).port && EntryAt(f, a).str == EntryAt(x, a).str
    {
    }
    var p, q := x[o + 8..o + 12], f[o + 8..o + 12];
    assert p[3] != q[3];
    FromWireInjective(x[6..8], p);
    FromWireInjective(x[6..8], q);
    assert EntryAt(x, n - 1).count != EntryAt(f, n - 1).count;
    LastEntryShows(x);
    LastEntryShows(f);
  }

  lemma LastEntryShows(x: Eth)
    requires x[..4] == Token() && x[4] == TYPE_CONFIG && ConfigInside(x) && 0 < x[CONFIG_PORTS_AT]
    ensures var e := EntryAt(x, x[CONFIG_PORTS_AT] - 1);
            Handle(Dark(), x).sys.config.table.counts[Slot(e.port, e.str)] == e.count
  {
  }

  lemma OneEntryShows(f: Eth, p: PortConfig)
    requires f[..4] == Token() && f[4] == TYPE_CONFIG && f[CONFIG_PORTS_AT] == 1
    requires f[PORT_CONFIGS_AT..PORT_CONFIGS_AT + PORT_CONFIG_SIZE] == PortConfigBytes(p)
    requires p.port == 0 && p.str == 0 && p.channels == 1
    ensures Handle(Dark(), f).Done? && Handle(Dark(), f).sys.config.table.counts[0] == 1
  {
    EntryInPlace(f, 0, p);
    LastEntryShows(f);
  }

  /** No entries, but their number is stale: an old packet may bring one. */
  lemma UncoveredNumber(d: seq<byte>, x: Eth) returns (f: Eth)
    requires x[..4] == Token() && x[4] == TYPE_CONFIG && x[CONFIG_PORTS_AT] == 0
    requires d <= x && |d| <= CONFIG_PORTS_AT
    ensures Handle(Dark(), x) != Handle(Dark(), f) && d <= f
  {
    var p := PortConfig(0, 0, 0, 0, 0, 1, 0, 0, 0, 0);
    f := Splice(Splice(x, CONFIG_PORTS_AT, [1]), PORT_CONFIGS_AT, PortConfigBytes(p));
    assert f[..CONFIG_PORTS_AT] == x[..CONFIG_PORTS_AT];
    assert f[..4] == f[..CONFIG_PORTS_AT][..4] == x[..CONFIG_PORTS_AT][..4] == x[..4];
    OneEntryShows(f, p);
    assert Handle(Dark(), x).sys.config.table == Cleared();
  }

  lemma UncoveredConfig(d: seq<byte>, eth: Eth, s0: Sys) returns (s: Sys, e: Eth, f: Eth)
    requires 5 <= |d| < ETH_BUFFER_SIZE && !Covered(d) && d[4] == TYPE_CONFIG
    requires Handle(s0, Received(eth, Datagram(d))).Done?
    ensures Handle(s, Received(e, Datagram(d))) != Handle(s, Received(f, Datagram(d)))
  {
    var x := Received(eth, Datagram(d));
    assert d[..4] == Token();
    assert x[..4] == Token() && x[4] == TYPE_CONFIG;
    assert CONFIG_PORTS_AT < |d| ==> x[CONFIG_PORTS_AT] == d[CONFIG_PORTS_AT];
    s, e := Dark(), x;
    if 0 < x[CONFIG_PORTS_AT] {
      f := UncoveredEntry(d, x);
    } else {
      f := UncoveredNumber(d, x);
    }
    assert Received(e, Datagram(d)) == x && Received(f, Datagram(d)) == f;
  }

  /** Handling is a function of the datagram and the prior state, whatever the receive buffer
      held before, exactly when the datagram holds every byte that is read. (The datagram is one
      the code can handle at all: over some buffer it stays inside its arrays.) */
  lemma StaleBytesMatterIffUncovered(d: seq<byte>, eth: Eth, s0: Sys)
    requires Handle(s0, Received(eth, Datagram(d))).Done?
    ensures Covered(d) <==>
            forall s: Sys, e: Eth, f: Eth :: Handle(s, Received(e, Datagram(d))) == Handle(s, Received(f, Datagram(d)))
  {
    if Covered(d) {
      forall s: Sys, e: Eth, f: Eth
        ensures Handle(s, Received(e, Datagram(d))) == Handle(s, Received(f, Datagram(d)))
      {
        CoveredIndependent(d, s, e, f);
      }
    } else if |d| <= 4 {
      var s, e, f := UncoveredHeader(d);
    } else if d[4] == TYPE_DATA {
      var s, e, f := UncoveredData(d, eth, s0);
    } else {
      var s, e, f := UncoveredConfig(d, eth, s0);
    }
  }
}
