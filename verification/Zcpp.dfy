/** zcpp_implementation.c: what a received ZCPP datagram does to the shared state. */
module Zcpp {
  import opened Bytes
  import opened Limits
  import opened PixelBuffer
  import opened StringTable
  import opened Wire
  import opened Hardware
  import opened Socket

  // ----- what the buffer means

  function EntryAt(eth: Eth, a: nat): EntryRaw
    requires PORT_CONFIGS_AT + PORT_CONFIG_SIZE * (a + 1) <= ETH_BUFFER_SIZE
  {
    var o := PORT_CONFIGS_AT + PORT_CONFIG_SIZE * a;
    Entry(eth[o], eth[o + 1], ToInt32(FromWire32(eth[o + 4..o + 8])), ToInt32(FromWire32(eth[o + 8..o + 12])))
  }

  /** Handling the configuration reads inside the receive buffer and writes inside the table. */
  predicate ConfigInside(eth: Eth) {
    && PORT_CONFIGS_AT + PORT_CONFIG_SIZE * eth[CONFIG_PORTS_AT] <= ETH_BUFFER_SIZE
    && forall a: nat :: a < eth[CONFIG_PORTS_AT] ==> EntryAt(eth, a).port < PORTS && EntryAt(eth, a).str < STRINGS
  }

  function EntriesUpTo(eth: Eth, n: nat): (es: seq<Entry>)
    requires ConfigInside(eth) && n <= eth[CONFIG_PORTS_AT]
    ensures |es| == n
  {
    seq(n, a requires 0 <= a < n => EntryAt(eth, a))
  }

  function DecodeConfig(eth: Eth): ConfigMsg
    requires ConfigInside(eth)
  {
    ConfigMsg(FromWire16(eth[6..8]), EntriesUpTo(eth, eth[CONFIG_PORTS_AT]))
  }

  function DataAddress(eth: Eth): nat {
    FromWire32(eth[8..12])
  }

  function DataLength(eth: Eth): nat {
    FromWire16(eth[12..14])
  }

  /** Handling the data reads inside the receive buffer and writes inside the pixel buffer. */
  predicate DataInside(eth: Eth) {
    && DATA_AT + DataLength(eth) <= ETH_BUFFER_SIZE
    && DataAddress(eth) + DataLength(eth) <= PIXEL_BUFFER_SIZE
  }

  function DecodeData(eth: Eth): Write
    requires DataInside(eth)
  {
    Write(DataAddress(eth), eth[DATA_AT..DATA_AT + DataLength(eth)])
  }

  // ----- what handling does

  datatype Sys = Sys(config: ConfigState, pixels: Pixels)

  /** OutOfBounds: the C code would leave one of its arrays. */
  datatype Outcome = Done(sys: Sys) | OutOfBounds

  /** Only configurations touch the table, only data the pixels; other packets do nothing. */
  function Handle(s: Sys, eth: Eth): (r: Outcome)
    ensures r != Done(s) ==> eth[..4] == Token() && eth[4] in {TYPE_CONFIG, TYPE_DATA}
    ensures r.Done? && eth[4] != TYPE_CONFIG ==> r.sys.config == s.config
    ensures r.Done? && eth[4] != TYPE_DATA ==> r.sys.pixels == s.pixels
  {
    if eth[..4] != Token() then Done(s)
    else if eth[4] == TYPE_CONFIG then
      if ConfigInside(eth) then Done(s.(config := ConfigStep(s.config, DecodeConfig(eth)))) else OutOfBounds
    else if eth[4] == TYPE_DATA then
      if DataInside(eth) then Done(s.(pixels := Apply(s.pixels, DecodeData(eth)))) else OutOfBounds
    else Done(s)
  }

  /** The table cells that handling writes, in order. */
  ghost function CellsOf(lastSequence: nat, eth: Eth): seq<Cell> {
    if eth[..4] == Token() && eth[4] == TYPE_CONFIG && ConfigInside(eth)
    then ConfigCells(lastSequence, DecodeConfig(eth)) else []
  }

  /** The receive loop over a list of arrivals. */
  function Listened(s: Sys, eth: Eth, arrivals: seq<Arrival>): Outcome {
    if arrivals == [] then Done(s)
    else
      var before := Listened(s, eth, arrivals[..|arrivals| - 1]);
      if before.OutOfBounds? then OutOfBounds else Handle(before.sys, EthAfter(eth, arrivals))
  }

  ghost function ListenedCells(s: Sys, eth: Eth, arrivals: seq<Arrival>): seq<Cell>
    requires Listened(s, eth, arrivals).Done?
  {
    if arrivals == [] then []
    else
      var front := arrivals[..|arrivals| - 1];
      ListenedCells(s, eth, front) + CellsOf(Listened(s, eth, front).sys.config.lastSequence, EthAfter(eth, arrivals))
  }

  class ZcppListener {
    const hw: ThreadCtrl
    const ethBuffer: array<byte>
    var lastConfigSequence: nat

    ghost predicate Valid() {
      && hw.Valid()
      && ethBuffer.Length == ETH_BUFFER_SIZE
      && ethBuffer != hw.buffer
      && ethBuffer as object != hw.channelCount
      && ethBuffer as object != hw.startChannel
    }

    ghost function State(): Sys
      requires Valid()
      reads `lastConfigSequence, hw.channelCount, hw.startChannel, hw.buffer
    {
      Sys(ConfigState(hw.Contents(), lastConfigSequence), hw.Channels())
    }

    ghost function EthNow(): Eth
      requires Valid()
      reads ethBuffer
    {
      ethBuffer[..]
    }

    /** The receive buffer is not initialised: it may hold anything. */
    constructor (hw: ThreadCtrl)
      requires hw.Valid()
      ensures Valid() && this.hw == hw && fresh(ethBuffer) && lastConfigSequence == 0
    {
      this.hw := hw;
      ethBuffer := new byte[ETH_BUFFER_SIZE];
      lastConfigSequence := 0;
    }

    method Ntohs(at: nat) returns (v: uint16)
      requires Valid() && at + 2 <= ETH_BUFFER_SIZE
      ensures v == FromWire16(ethBuffer[at..at + 2])
    {
      v := FromWire16([ethBuffer[at], ethBuffer[at + 1]]);
    }

    method Ntohl(at: nat) returns (v: uint32)
      requires Valid() && at + 4 <= ETH_BUFFER_SIZE
      ensures v == FromWire32(ethBuffer[at..at + 4])
    {
      v := FromWire32([ethBuffer[at], ethBuffer[at + 1], ethBuffer[at + 2], ethBuffer[at + 3]]);
    }

    method ClearTable()
      requires Valid()
      modifies hw.channelCount, hw.startChannel, hw`cells
      ensures hw.Contents() == Cleared()
      ensures hw.cells == old(hw.cells) + ClearCells(SLOTS)
    {
      hide AfterCells, ClearCells, Cleared, Written;
      ghost var t := hw.Contents();
      NothingCleared(t);
      for p := 0 to PORTS
        invariant hw.Contents() == AfterCells(t, ClearCells(STRINGS * p))
        invariant hw.cells == old(hw.cells) + ClearCells(STRINGS * p)
      {
        for s := 0 to STRINGS
          invariant hw.Contents() == AfterCells(t, ClearCells(STRINGS * p + s))
          invariant hw.cells == old(hw.cells) + ClearCells(STRINGS * p + s)
        {
          ClearOneMore(t, Slot(p, s));
          hw.SetCount(Slot(p, s), 0);
          hw.SetStart(Slot(p, s), 0);
        }
      }
      AllCleared(t);
    }

    /** One turn of the loop over a configuration's ports. */
    method SetString(a: nat)
      requires Valid() && ConfigInside(EthNow()) && a < EthNow()[CONFIG_PORTS_AT]
      modifies hw.channelCount, hw.startChannel, hw`cells
      ensures hw.Contents() == Put(old(hw.Contents()), EntryAt(EthNow(), a))
      ensures var e := EntryAt(EthNow(), a);
              hw.cells == old(hw.cells) + [CountCell(SlotOf(e), e.count), StartCell(SlotOf(e), e.start)]
    {
      var o := PORT_CONFIGS_AT + PORT_CONFIG_SIZE * a;
      assert EntryAt(EthNow(), a).port < PORTS && EntryAt(EthNow(), a).str < STRINGS;
      var channels := Ntohl(o + 8);
      hw.SetCount(Slot(ethBuffer[o], ethBuffer[o + 1]), ToInt32(channels));
      var start := Ntohl(o + 4);
      hw.SetStart(Slot(ethBuffer[o], ethBuffer[o + 1]), ToInt32(start));
    }

    method SetStrings()
      requires Valid() && ConfigInside(EthNow())
      modifies hw.channelCount, hw.startChannel, hw`cells
      ensures hw.Contents() == Overlay(old(hw.Contents()), DecodeConfig(EthNow()).entries)
      ensures hw.cells == old(hw.cells) + EntryCells(DecodeConfig(EthNow()).entries)
    {
      hide Overlay, Put, EntryCells, EntriesUpTo, DecodeConfig, EntryAt;
      var ports := ethBuffer[CONFIG_PORTS_AT];
      NoEntries(hw.Contents(), EthNow());
      EntriesOfConfig(EthNow());
      for a := 0 to ports
        invariant hw.Contents() == Overlay(old(hw.Contents()), EntriesUpTo(EthNow(), a))
        invariant hw.cells == old(hw.cells) + EntryCells(EntriesUpTo(EthNow(), a))
      {
        EntriesOneMore(old(hw.Contents()), EthNow(), a);
        SetString(a);
      }
    }

    /** The cells of the table are written one by one in the order of ConfigCells. */
    method ProcessConfig()
      requires Valid() && ConfigInside(EthNow())
      modifies `lastConfigSequence, hw.channelCount, hw.startChannel, hw`cells
      ensures State().config == ConfigStep(old(State().config), DecodeConfig(EthNow()))
      ensures hw.cells == old(hw.cells) + ConfigCells(old(lastConfigSequence), DecodeConfig(EthNow()))
    {
      hide Overlay, Cleared, ClearCells, EntryCells, EntriesUpTo, ConfigInside;
      var sequence := Ntohs(6);
      if lastConfigSequence != sequence {
        lastConfigSequence := sequence;
        ClearTable();
      }
      SetStrings();
    }

    method ProcessData()
      requires Valid() && DataInside(EthNow())
      modifies hw.buffer
      ensures hw.Channels() == Apply(old(hw.Channels()), DecodeData(old(EthNow())))
    {
      var bufferOffset := Ntohl(8);
      var len := Ntohs(12);
      Memcpy(hw.buffer, bufferOffset, ethBuffer, DATA_AT, len);
    }

    method Dispatch()
      requires Valid() && Handle(State(), EthNow()).Done?
      modifies `lastConfigSequence, hw.channelCount, hw.startChannel, hw.buffer, hw`cells
      ensures Done(State()) == Handle(old(State()), old(EthNow()))
      ensures hw.cells == old(hw.cells) + CellsOf(old(lastConfigSequence), old(EthNow()))
    {
      if ethBuffer[..4] == Token() {
        match ethBuffer[4] {
          case 0x0A => ProcessConfig();
          case 0x14 => ProcessData();
          case _ =>
        }
      }
    }

    method Listen(arrivals: seq<Arrival>)
      requires Valid() && Listened(State(), EthNow(), arrivals).Done?
      modifies `lastConfigSequence, ethBuffer, hw.channelCount, hw.startChannel, hw.buffer, hw`cells
      ensures Done(State()) == Listened(old(State()), old(EthNow()), arrivals)
      ensures hw.cells == old(hw.cells) + ListenedCells(old(State()), old(EthNow()), arrivals)
      ensures EthNow() == EthAfter(old(EthNow()), arrivals)
    {
      hide Listened, ListenedCells, EthAfter, Handle, CellsOf, Received;
      NothingHeard(State(), EthNow(), arrivals);
      for i := 0 to |arrivals|
        invariant Done(State()) == Listened(old(State()), old(EthNow()), arrivals[..i])
        invariant hw.cells == old(hw.cells) + ListenedCells(old(State()), old(EthNow()), arrivals[..i])
        invariant EthNow() == EthAfter(old(EthNow()), arrivals[..i])
      {
        ListenOneMore(old(State()), old(EthNow()), arrivals, i);
        RecvFrom(ethBuffer, arrivals[i]);
        Dispatch();
      }
      assert arrivals[..|arrivals|] == arrivals;
    }
  }

  lemma NothingCleared(t: Table)
    ensures ClearCells(0) == [] && AfterCells(t, ClearCells(0)) == t
  {
  }

  lemma ClearOneMore(t: Table, k: nat)
    requires k < SLOTS
    ensures ClearCells(k + 1) == ClearCells(k) + [CountCell(k, 0)] + [StartCell(k, 0)]
    ensures AfterCells(t, ClearCells(k + 1)) ==
            Written(Written(AfterCells(t, ClearCells(k)), CountCell(k, 0)), StartCell(k, 0))
  {
    assert ClearCells(k + 1) == ClearCells(k) + [CountCell(k, 0), StartCell(k, 0)];
    AfterTwo(t, ClearCells(k), CountCell(k, 0), StartCell(k, 0));
  }

  lemma AllCleared(t: Table)
    ensures AfterCells(t, ClearCells(SLOTS)) == Cleared()
  {
    ClearCellsClear(t, SLOTS);
  }

  lemma NoEntries(t: Table, eth: Eth)
    requires ConfigInside(eth)
    ensures Overlay(t, EntriesUpTo(eth, 0)) == t && EntryCells(EntriesUpTo(eth, 0)) == []
  {
  }

  lemma EntriesOneMore(t: Table, eth: Eth, a: nat)
    requires ConfigInside(eth) && a < eth[CONFIG_PORTS_AT]
    ensures Overlay(t, EntriesUpTo(eth, a + 1)) == Put(Overlay(t, EntriesUpTo(eth, a)), EntryAt(eth, a))
    ensures var e := EntryAt(eth, a);
            EntryCells(EntriesUpTo(eth, a + 1)) ==
            EntryCells(EntriesUpTo(eth, a)) + [CountCell(SlotOf(e), e.count), StartCell(SlotOf(e), e.start)]
  {
    hide EntryAt, Put;
    var es := EntriesUpTo(eth, a + 1);
    assert es[..a] == EntriesUpTo(eth, a);
  }

  lemma EntriesOfConfig(eth: Eth)
    requires ConfigInside(eth)
    ensures DecodeConfig(eth).entries == EntriesUpTo(eth, eth[CONFIG_PORTS_AT])
  {
  }

  lemma NothingHeard(s: Sys, eth: Eth, arrivals: seq<Arrival>)
    ensures Listened(s, eth, arrivals[..0]) == Done(s) && ListenedCells(s, eth, arrivals[..0]) == []
    ensures EthAfter(eth, arrivals[..0]) == eth
  {
  }

  lemma ListenOneMore(s: Sys, eth: Eth, arrivals: seq<Arrival>, i: nat)
    requires i < |arrivals| && Listened(s, eth, arrivals).Done?
    ensures EthAfter(eth, arrivals[..i + 1]) == Received(EthAfter(eth, arrivals[..i]), arrivals[i])
    ensures Listened(s, eth, arrivals[..i]).Done? && Listened(s, eth, arrivals[..i + 1]).Done?
    ensures var before, now := Listened(s, eth, arrivals[..i]).sys, EthAfter(eth, arrivals[..i + 1]);
            && Listened(s, eth, arrivals[..i + 1]) == Handle(before, now)
            && ListenedCells(s, eth, arrivals[..i + 1]) ==
               ListenedCells(s, eth, arrivals[..i]) + CellsOf(before.config.lastSequence, now)
  {
    hide Handle, CellsOf, Received;
    assert arrivals[..i + 1][..i] == arrivals[..i];
    ListenedPrefix(s, eth, arrivals, i);
    ListenedPrefix(s, eth, arrivals, i + 1);
  }

  lemma {:induction false} ListenedPrefix(s: Sys, eth: Eth, arrivals: seq<Arrival>, n: nat)
    requires n <= |arrivals| && Listened(s, eth, arrivals).Done?
    ensures Listened(s, eth, arrivals[..n]).Done?
  {
    if n < |arrivals| {
      ListenedPrefix(s, eth, arrivals[..|arrivals| - 1], n);
      assert arrivals[..|arrivals| - 1][..n] == arrivals[..n];
    } else {
      assert arrivals[..n] == arrivals;
    }
  }

  /** Handling the same buffer twice in direct succession is handling it once. */
  lemma HandlingTwice(s: Sys, eth: Eth)
    requires Handle(s, eth).Done?
    ensures Handle(Handle(s, eth).sys, eth) == Handle(s, eth)
  {
    if eth[..4] == Token() && eth[4] == TYPE_CONFIG {
      var base := if s.config.lastSequence != DecodeConfig(eth).sequence then Cleared() else s.config.table;
      ResendChangesNothing(base, DecodeConfig(eth).entries);
    }
  }

  /** While nobody else writes the state, a failed receive, which handles the previous datagram
      once more, changes nothing. What it does beside another writer is in FailedReceives; before
      the first arrival there is no previous datagram, but whatever the buffer holds. */
  lemma FailedReceiveAlone(s: Sys, eth: Eth, arrivals: seq<Arrival>)
    requires arrivals != [] && Listened(s, eth, arrivals).Done?
    ensures Listened(s, eth, arrivals + [Failed]) == Listened(s, eth, arrivals)
  {
    var all := arrivals + [Failed];
    assert all[..|all| - 1] == arrivals;
    var front := arrivals[..|arrivals| - 1];
    HandlingTwice(Listened(s, eth, front).sys, EthAfter(eth, arrivals));
  }
}
