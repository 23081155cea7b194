/** What configuration messages, written cell by cell, do to a gather that races with them. */
module RacingMessages {
  import opened Limits
  import opened StringTable
  import opened Interleaving
  import opened Races

  /** The cells a run of messages writes, in order. */
  function RunCells(c: ConfigState, ms: seq<ConfigMsg>): seq<Cell> {
    if ms == [] then []
    else
      RunCells(c, ms[..|ms| - 1])
      + ConfigCells(ConfigRun(c, ms[..|ms| - 1]).lastSequence, ms[|ms| - 1])
  }

  /** When all the cells are written the table is that of the run. */
  lemma {:induction false} RunCellsMakeRun(c: ConfigState, ms: seq<ConfigMsg>)
    ensures AfterCells(c.table, RunCells(c, ms)) == ConfigRun(c, ms).table
  {
    if ms != [] {
      var front := ms[..|ms| - 1];
      RunCellsMakeRun(c, front);
      AfterConcat(c.table, RunCells(c, front), ConfigCells(ConfigRun(c, front).lastSequence, ms[|ms| - 1]));
      CellsMakeStep(ConfigRun(c, front), ms[|ms| - 1]);
    }
  }

  // ----- a bound that keeps every race inside

  /** The port's strings have at most `caps` channels, and would be in range with that many. */
  ghost predicate WithinCaps(t: Table, caps: seq<int>, port: nat)
    requires |caps| == SLOTS && port < PORTS
  {
    forall s: nat :: s < STRINGS ==>
      && 0 <= t.counts[Slot(port, s)] <= caps[Slot(port, s)]
      && StringInRange(caps[Slot(port, s)], t.starts[Slot(port, s)])
  }

  predicate CellWithin(c: Cell, caps: seq<int>, port: nat)
    requires |caps| == SLOTS
  {
    c.k / STRINGS == port ==>
      match c
      case CountCell(k, v) => 0 <= v <= caps[k]
      case StartCell(k, v) => StringInRange(caps[k], v)
  }

  ghost predicate CellsWithin(cs: seq<Cell>, caps: seq<int>, port: nat)
    requires |caps| == SLOTS
  {
    forall i :: 0 <= i < |cs| ==> CellWithin(cs[i], caps, port)
  }

  lemma {:induction false} VersionsWithin(t: Table, cs: seq<Cell>, caps: seq<int>, port: nat, v: nat)
    requires |caps| == SLOTS && port < PORTS && WithinCaps(t, caps, port) && CellsWithin(cs, caps, port)
    requires v <= |cs|
    ensures WithinCaps(Versions(t, cs)[v], caps, port)
  {
    if 0 < v {
      VersionsWithin(t, cs, caps, port, v - 1);
      assert CellWithin(cs[v - 1], caps, port);
    }
  }

  lemma {:induction false} ChoiceWithin(us: seq<Table>, caps: seq<int>, port: nat, vs: seq<nat>)
    requires |caps| == SLOTS && port < PORTS && Choice(vs, |us|)
    requires forall v :: 0 <= v < |us| ==> WithinCaps(us[v], caps, port)
    ensures ChoiceSum(us, port, vs) <= CapSum(caps, port, |vs|)
  {
    if vs != [] {
      ChoiceWithin(us, caps, port, vs[..|vs| - 1]);
      assert WithinCaps(us[vs[|vs| - 1]], caps, port);
    }
  }

  lemma CapsKeepInside(port: nat, t: Table, cs: seq<Cell>, caps: seq<int>)
    requires |caps| == SLOTS && port < PORTS && WithinCaps(t, caps, port) && CellsWithin(cs, caps, port)
    requires CapSum(caps, port, STRINGS) <= MAX_CHANNELS_PER_DEVICE
    ensures NeverLeaves(port, t, cs)
  {
    var us := Versions(t, cs);
    forall v | 0 <= v < |us|
      ensures WithinCaps(us[v], caps, port)
    {
      VersionsWithin(t, cs, caps, port, v);
    }
    forall s: nat, i: nat, j: nat, l: nat | s < STRINGS && i <= j <= l < |us|
      ensures MixInRange(us, port, s, i, j, l)
    {
      assert WithinCaps(us[j], caps, port) && WithinCaps(us[l], caps, port);
    }
    forall vs: seq<nat> | |vs| == STRINGS && Choice(vs, |us|)
      ensures ChoiceSum(us, port, vs) <= MAX_CHANNELS_PER_DEVICE
    {
      ChoiceWithin(us, caps, port, vs);
    }
    SafeNeverLeaves(port, t, cs);
  }

  /** Under the caps every table on the way is safe. */
  lemma CapsKeepTablesSafe(port: nat, t: Table, cs: seq<Cell>, caps: seq<int>)
    requires |caps| == SLOTS && port < PORTS && WithinCaps(t, caps, port) && CellsWithin(cs, caps, port)
    requires CapSum(caps, port, STRINGS) <= MAX_CHANNELS_PER_DEVICE
    ensures AllSafe(Versions(t, cs), port)
  {
    forall v | 0 <= v <= |cs|
      ensures PortSafe(Versions(t, cs)[v], port)
    {
      VersionsWithin(t, cs, caps, port, v);
      OffsetCapped(Versions(t, cs)[v], caps, port, STRINGS);
    }
  }

  /** A sender's check on one message: no entry asks for more than its string's cap, or for a
      start from which the cap would leave the pixel buffer. */
  ghost predicate MessageWithin(m: ConfigMsg, caps: seq<int>, port: nat)
    requires |caps| == SLOTS
  {
    forall i :: 0 <= i < |m.entries| && m.entries[i].port == port ==>
      && 0 <= m.entries[i].count <= caps[SlotOf(m.entries[i])]
      && StringInRange(caps[SlotOf(m.entries[i])], m.entries[i].start)
  }

  lemma {:induction false} CapAtMostSum(caps: seq<int>, port: nat, s: nat, n: nat)
    requires |caps| == SLOTS && port < PORTS && n <= STRINGS
    requires forall r: nat :: r < STRINGS ==> 0 <= caps[Slot(port, r)]
    ensures 0 <= CapSum(caps, port, n)
    ensures s < n ==> caps[Slot(port, s)] <= CapSum(caps, port, n)
  {
    if 0 < n {
      CapAtMostSum(caps, port, s, n - 1);
    }
  }

  lemma ClearCellWithin(caps: seq<int>, port: nat, i: nat)
    requires |caps| == SLOTS && port < PORTS && i < 2 * SLOTS
    requires forall r: nat :: r < STRINGS ==> 0 <= caps[Slot(port, r)]
    requires CapSum(caps, port, STRINGS) <= MAX_CHANNELS_PER_DEVICE
    ensures CellWithin(ClearCell(i), caps, port)
  {
    var k := i / 2;
    if k / STRINGS == port {
      assert k == Slot(port, k % STRINGS);
      CapAtMostSum(caps, port, k % STRINGS, STRINGS);
    }
  }

  lemma EntryCellWithin(m: ConfigMsg, caps: seq<int>, port: nat, i: nat)
    requires |caps| == SLOTS && port < PORTS && MessageWithin(m, caps, port) && i < 2 * |m.entries|
    ensures CellWithin(EntryCell(m.entries, i), caps, port)
  {
    var e := m.entries[i / 2];
    assert SlotOf(e) / STRINGS == e.port;
  }

  lemma MessageCellsWithin(lastSequence: nat, m: ConfigMsg, caps: seq<int>, port: nat)
    requires |caps| == SLOTS && port < PORTS && MessageWithin(m, caps, port)
    requires forall r: nat :: r < STRINGS ==> 0 <= caps[Slot(port, r)]
    requires CapSum(caps, port, STRINGS) <= MAX_CHANNELS_PER_DEVICE
    ensures CellsWithin(ConfigCells(lastSequence, m), caps, port)
  {
    hide CellWithin, MessageWithin;
    forall i | 0 <= i < 2 * SLOTS
      ensures CellWithin(ClearCell(i), caps, port)
    {
      ClearCellWithin(caps, port, i);
    }
    forall i | 0 <= i < 2 * |m.entries|
      ensures CellWithin(EntryCell(m.entries, i), caps, port)
    {
      EntryCellWithin(m, caps, port, i);
    }
  }

  lemma {:induction false} RunCellsWithin(c: ConfigState, ms: seq<ConfigMsg>, caps: seq<int>, port: nat)
    requires |caps| == SLOTS && port < PORTS
    requires forall i :: 0 <= i < |ms| ==> MessageWithin(ms[i], caps, port)
    requires forall r: nat :: r < STRINGS ==> 0 <= caps[Slot(port, r)]
    requires CapSum(caps, port, STRINGS) <= MAX_CHANNELS_PER_DEVICE
    ensures CellsWithin(RunCells(c, ms), caps, port)
  {
    if ms != [] {
      var front := ms[..|ms| - 1];
      RunCellsWithin(c, front, caps, port);
      MessageCellsWithin(ConfigRun(c, front).lastSequence, ms[|ms| - 1], caps, port);
    }
  }

  /** Senders who give each string of a port a cap, the caps together within a payload, and keep
      every message within them, never drive a gather outside, whatever they send, in however
      many groups: it may begin after any cell write and race with all that follow. */
  lemma RacingMessagesStayInside(c: ConfigState, ms: seq<ConfigMsg>, caps: seq<int>, port: nat, i: nat)
    requires |caps| == SLOTS && port < PORTS && WithinCaps(c.table, caps, port)
    requires forall j :: 0 <= j < |ms| ==> MessageWithin(ms[j], caps, port)
    requires CapSum(caps, port, STRINGS) <= MAX_CHANNELS_PER_DEVICE
    requires i <= |RunCells(c, ms)|
    ensures NeverLeaves(port, AfterCells(c.table, RunCells(c, ms)[..i]), RunCells(c, ms)[i..])
  {
    var cs := RunCells(c, ms);
    RunCellsWithin(c, ms, caps, port);
    VersionsWithin(c.table, cs[..i], caps, port, i);
    CapsKeepInside(port, AfterCells(c.table, cs[..i]), cs[i..], caps);
  }

  // ----- a new configuration tears

  ghost predicate HasChannels(t: Table, port: nat)
    requires port < PORTS
  {
    exists s: nat :: s < STRINGS && t.counts[Slot(port, s)] != 0
  }

  ghost predicate GetsChannels(es: seq<Entry>, port: nat) {
    exists i :: 0 <= i < |es| && es[i].port == port && es[i].count != 0
  }

  lemma {:induction false} VersionPrefix(t: Table, cs: seq<Cell>, v: nat)
    requires v <= |cs|
    ensures Versions(t, cs)[v] == AfterCells(t, cs[..v])
  {
    if 0 < v {
      VersionPrefix(t, cs, v - 1);
      assert cs[..v][..v - 1] == cs[..v - 1];
    } else {
      assert cs[..0] == [];
    }
  }

  /** The cells of a message with a new sequence number. */
  function FreshCells(es: seq<Entry>): (cs: seq<Cell>)
    ensures |cs| == 2 * SLOTS + 2 * |es|
    ensures forall i :: 0 <= i < |cs| ==> cs[i] == if i < 2 * SLOTS then ClearCell(i) else EntryCell(es, i - 2 * SLOTS)
  {
    ClearCells(SLOTS) + EntryCells(es)
  }

  /** The table before a fresh message clears slot `k`. */
  lemma BeforeClear(t: Table, es: seq<Entry>, k: nat)
    requires k < SLOTS
    ensures Versions(t, FreshCells(es))[2 * k].counts[k] == t.counts[k]
  {
    VersionPrefix(t, FreshCells(es), 2 * k);
    assert FreshCells(es)[..2 * k] == ClearCells(k);
    ClearCellsClear(t, k);
  }

  lemma FreshPrefix(es: seq<Entry>, j: nat)
    requires j <= |es|
    ensures FreshCells(es)[..2 * SLOTS + 2 * j] == FreshCells(es[..j])
  {
    var a, b := FreshCells(es)[..2 * SLOTS + 2 * j], FreshCells(es[..j]);
    forall i | 0 <= i < |a|
      ensures a[i] == b[i]
    {
      assert 2 * SLOTS <= i ==> es[(i - 2 * SLOTS) / 2] == es[..j][(i - 2 * SLOTS) / 2];
    }
  }

  /** The table before a fresh message sets its entry `j`. */
  lemma BeforeEntry(t: Table, es: seq<Entry>, j: nat)
    requires j < |es|
    ensures Versions(t, FreshCells(es))[2 * SLOTS + 2 * j] == Overlay(Cleared(), es[..j])
  {
    hide Versions, AfterCells, Overlay;
    VersionPrefix(t, FreshCells(es), 2 * SLOTS + 2 * j);
    FreshPrefix(es, j);
    AfterFresh(t, es[..j]);
  }

  lemma AfterFresh(t: Table, es: seq<Entry>)
    ensures AfterCells(t, FreshCells(es)) == Overlay(Cleared(), es)
  {
    AfterConcat(t, ClearCells(SLOTS), EntryCells(es));
    ClearCellsClear(t, SLOTS);
    assert AfterCells(t, ClearCells(SLOTS)) == Cleared();
    EntryCellsOverlay(Cleared(), es);
  }

  lemma {:induction false} DarkStaysDark(port: nat, t: Table, cs: seq<Cell>, v: nat)
    requires port < PORTS && v <= |cs| && !HasChannels(t, port)
    requires forall i :: 0 <= i < |cs| && cs[i].CountCell? && cs[i].k / STRINGS == port ==> cs[i].v == 0
    ensures !HasChannels(Versions(t, cs)[v], port)
  {
    if 0 < v {
      DarkStaysDark(port, t, cs, v - 1);
    }
  }

  /** The first entry that gives a slot channels. */
  lemma {:induction false} FirstGift(es: seq<Entry>, j: nat) returns (i: nat)
    requires j < |es| && es[j].count != 0
    ensures i <= j && SlotOf(es[i]) == SlotOf(es[j]) && es[i].count != 0
    ensures Overlay(Cleared(), es[..i]).counts[SlotOf(es[j])] == 0
  {
    var k := SlotOf(es[j]);
    OverlayAt(Cleared(), es[..j], k);
    var l := LastFor(es[..j], k);
    if l < 0 || es[..j][l].count == 0 {
      i := j;
    } else {
      i := FirstGift(es, l);
    }
  }

  lemma ClearingChanges(port: nat, t: Table, es: seq<Entry>, s: nat)
    requires port < PORTS && s < STRINGS && t.counts[Slot(port, s)] != 0
    ensures SomeCountChanges(port, t, FreshCells(es))
  {
    var i := 2 * Slot(port, s);
    BeforeClear(t, es, Slot(port, s));
    assert FreshCells(es)[i] == ClearCell(i) == CountCell(Slot(port, s), 0);
    assert ChangesCount(Versions(t, FreshCells(es))[i], FreshCells(es)[i], port);
  }

  lemma SettingChanges(port: nat, t: Table, es: seq<Entry>, j: nat)
    requires port < PORTS && j < |es| && es[j].port == port && es[j].count != 0
    ensures SomeCountChanges(port, t, FreshCells(es))
  {
    hide Versions, AfterCells, Overlay;
    var f := FirstGift(es, j);
    var i := 2 * SLOTS + 2 * f;
    BeforeEntry(t, es, f);
    assert SlotOf(es[f]) / STRINGS == SlotOf(es[j]) / STRINGS == port;
    assert FreshCells(es)[i] == EntryCell(es, 2 * f) == CountCell(SlotOf(es[f]), es[f].count);
    assert ChangesCount(Versions(t, FreshCells(es))[i], FreshCells(es)[i], port);
  }

  lemma FreshWritesDark(port: nat, es: seq<Entry>, i: nat)
    requires port < PORTS && !GetsChannels(es, port) && i < |FreshCells(es)|
    requires FreshCells(es)[i].CountCell? && FreshCells(es)[i].k / STRINGS == port
    ensures FreshCells(es)[i].v == 0
  {
    if 2 * SLOTS <= i {
      var e := es[(i - 2 * SLOTS) / 2];
      assert SlotOf(e) / STRINGS == e.port;
    }
  }

  lemma FreshCountChanges(port: nat, t: Table, es: seq<Entry>)
    requires port < PORTS
    ensures SomeCountChanges(port, t, FreshCells(es)) <==> HasChannels(t, port) || GetsChannels(es, port)
  {
    hide FreshCells;
    if HasChannels(t, port) {
      var s: nat :| s < STRINGS && t.counts[Slot(port, s)] != 0;
      ClearingChanges(port, t, es, s);
    } else if GetsChannels(es, port) {
      var j: nat :| j < |es| && es[j].port == port && es[j].count != 0;
      SettingChanges(port, t, es, j);
    } else {
      NothingChanges(port, t, es);
    }
  }

  lemma NothingChanges(port: nat, t: Table, es: seq<Entry>)
    requires port < PORTS && !HasChannels(t, port) && !GetsChannels(es, port)
    ensures !SomeCountChanges(port, t, FreshCells(es))
  {
    var cs := FreshCells(es);
    forall i: nat | i < |cs| && cs[i].CountCell? && cs[i].k / STRINGS == port
      ensures cs[i].v == 0
    {
      FreshWritesDark(port, es, i);
    }
    forall i | 0 <= i < |cs|
      ensures !ChangesCount(Versions(t, cs)[i], cs[i], port)
    {
      DarkStaysDark(port, t, cs, i);
      if cs[i].CountCell? && cs[i].k / STRINGS == port {
        assert cs[i].k == Slot(port, cs[i].k % STRINGS);
      }
    }
  }

  /** A configuration with a new sequence number, every table on its way safe, can tear the
      frame of a port, even when it sets what was set before, exactly when the port has
      channels or is given some. */
  lemma NewConfigTearsIff(c: ConfigState, m: ConfigMsg, port: nat)
    requires port < PORTS && c.lastSequence != m.sequence
    requires AllSafe(Versions(c.table, ConfigCells(c.lastSequence, m)), port)
    ensures Tears(port, c.table, ConfigCells(c.lastSequence, m)) <==>
            HasChannels(c.table, port) || GetsChannels(m.entries, port)
  {
    FrameTearsIffCountChanges(port, c.table, ConfigCells(c.lastSequence, m));
    FreshCountChanges(port, c.table, m.entries);
    assert FreshCells(m.entries) == ConfigCells(c.lastSequence, m);
  }

  // ----- safe tables do not make a safe race

  /** One string of one channel at the end of the pixel buffer. */
  function LastChannel(): Table {
    Written(Written(Cleared(), CountCell(0, 1)), StartCell(0, PIXEL_BUFFER_SIZE - 1))
  }

  /** The same string moved to the beginning, with two channels. */
  function TwoChannels(): ConfigMsg {
    ConfigMsg(1, [Entry(0, 0, 0, 2)])
  }

  lemma {:induction false} ExampleVersion(v: nat)
    requires v <= |FreshCells(TwoChannels().entries)|
    ensures var u := Versions(LastChannel(), FreshCells(TwoChannels().entries))[v];
            && (forall k :: 0 < k < SLOTS ==> u.counts[k] == 0)
            && u.counts[0] == (if v == 0 then 1 else if v <= 2 * SLOTS then 0 else 2)
            && u.starts[0] == (if v <= 1 then PIXEL_BUFFER_SIZE - 1 else 0)
  {
    if 0 < v {
      ExampleVersion(v - 1);
    }
  }

  lemma FewChannelsAreSafe(u: Table)
    requires forall k :: 0 < k < SLOTS ==> u.counts[k] == 0
    requires StringInRange(u.counts[0], u.starts[0]) && u.counts[0] <= 2
    ensures PortSafe(u, 0)
  {
    assert Offset(u, 0, 1) == u.counts[0];
    assert Offset(u, 0, 3) == u.counts[0];
    assert Offset(u, 0, 5) == u.counts[0];
    assert Offset(u, 0, 7) == u.counts[0];
  }

  /** A message from a safe table to a safe table, within capacity, with every table between
      them safe, and a schedule that drives the gather outside the pixel buffer: it tests and
      reads the start before the message, and the length after it. */
  lemma SafeTablesUnsafeRace()
    ensures var c, m := ConfigState(LastChannel(), 0), TwoChannels();
            && GroupFits(c, [m], 0)
            && AllSafe(Versions(c.table, ConfigCells(0, m)), 0)
            && AfterCells(c.table, ConfigCells(0, m)) == ConfigStep(c, m).table
            && exists tr: seq<Machine>, ls: seq<Label> ::
                 WriteRun(tr, ls, 0, c.table, ConfigCells(0, m)) && tr[|ls|].gather.pc == Fault
  {
    var c, m := ConfigState(LastChannel(), 0), TwoChannels();
    var cs := FreshCells(m.entries);
    assert cs == ConfigCells(0, m);
    ExampleFits();
    CellsMakeStep(c, m);
    forall v | 0 <= v <= |cs|
      ensures PortSafe(Versions(c.table, cs)[v], 0)
    {
      ExampleVersion(v);
      FewChannelsAreSafe(Versions(c.table, cs)[v]);
    }
    ExampleVersion(0);
    ExampleVersion(|cs|);
    assert !MixInRange(Versions(c.table, cs), 0, 0, 0, 0, |cs|);
    var h, v := BadMixFaults(0, c.table, cs, 0, 0, 0, |cs|);
    var tr: seq<Machine>, ls: seq<Label> :| ReachedBy(tr, ls, 0, c.table, cs, Fresh(), h, v);
    assert WriteRun(tr, ls, 0, c.table, cs) && tr[|ls|].gather.pc == Fault;
  }

  lemma ExampleFits()
    ensures GroupFits(ConfigState(LastChannel(), 0), [TwoChannels()], 0)
  {
    var es := TwoChannels().entries;
    ExampleGroup();
    var caps := Caps(Cleared(), es);
    assert es[..0] == [];
    assert caps[0] == 2 && forall k :: 0 < k < SLOTS ==> caps[k] == 0;
    assert CapSum(caps, 0, 1) == 2;
    assert CapSum(caps, 0, 3) == 2;
    assert CapSum(caps, 0, 5) == 2;
    assert CapSum(caps, 0, 7) == 2;
  }

  lemma ExampleGroup()
    ensures GroupEntries([TwoChannels()]) == TwoChannels().entries
    ensures GroupBase(ConfigState(LastChannel(), 0), [TwoChannels()]) == Cleared()
  {
    var m := TwoChannels();
    assert [m][..0] == [] && [m][0..] == [m];
    assert AllEntries([m]) == [] + m.entries;
  }
}
