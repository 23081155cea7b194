/** The table of virtual strings: for each of four ports and eight strings, how
    many channels it has and where they start in the pixel buffer; and the
    configuration messages that overlay it. */
module StringTable {

  import opened Limits

  datatype TableRaw = Table(counts: seq<int>, starts: seq<int>)

  type Table = t: TableRaw | |t.counts| == SLOTS && |t.starts| == SLOTS
    witness Table(seq(SLOTS, i => 0), seq(SLOTS, i => 0))

  datatype EntryRaw = Entry(port: nat, str: nat, start: int, count: int)

  /** An entry that addresses a string of the table. */
  type Entry = e: EntryRaw | e.port < PORTS && e.str < STRINGS
    witness Entry(0, 0, 0, 0)

  function Slot(port: nat, str: nat): (k: nat)
    requires port < PORTS && str < STRINGS
    ensures k < SLOTS
    ensures k / STRINGS == port && k % STRINGS == str
  {
    STRINGS * port + str
  }

  function SlotOf(e: Entry): (k: nat)
    ensures k < SLOTS
  {
    Slot(e.port, e.str)
  }

  /** The table without channels. */
  function Cleared(): (t: Table)
    ensures forall k :: 0 <= k < SLOTS ==> t.counts[k] == 0 && t.starts[k] == 0
  {
    Table(seq(SLOTS, i => 0), seq(SLOTS, i => 0))
  }

  function Put(t: Table, e: Entry): Table {
    Table(t.counts[SlotOf(e) := e.count], t.starts[SlotOf(e) := e.start])
  }

  /** The entries applied one after the other. */
  function Overlay(t: Table, es: seq<Entry>): Table {
    if es == [] then t else Put(Overlay(t, es[..|es| - 1]), es[|es| - 1])
  }

  /** The position of the last entry for slot `k`, or -1. */
  function LastFor(es: seq<Entry>, k: nat): (i: int)
    ensures -1 <= i < |es|
    ensures 0 <= i ==> SlotOf(es[i]) == k
    ensures forall j :: 0 <= j < |es| && i < j ==> SlotOf(es[j]) != k
  {
    if es == [] then -1
    else if SlotOf(es[|es| - 1]) == k then |es| - 1
    else LastFor(es[..|es| - 1], k)
  }

  /** Last entry wins, slot by slot; a slot no entry names keeps its value. */
  lemma {:induction false} OverlayAt(t: Table, es: seq<Entry>, k: nat)
    requires k < SLOTS
    ensures var i := LastFor(es, k);
            && Overlay(t, es).counts[k] == (if i < 0 then t.counts[k] else es[i].count)
            && Overlay(t, es).starts[k] == (if i < 0 then t.starts[k] else es[i].start)
  {
    if es != [] {
      OverlayAt(t, es[..|es| - 1], k);
    }
  }

  lemma {:induction false} OverlayConcat(t: Table, es: seq<Entry>, fs: seq<Entry>)
    ensures Overlay(t, es + fs) == Overlay(Overlay(t, es), fs)
  {
    if fs == [] {
      assert es + fs == es;
    } else {
      OverlayConcat(t, es, fs[..|fs| - 1]);
      assert (es + fs)[..|es + fs| - 1] == es + fs[..|fs| - 1];
    }
  }

  /** Two overlays agree when every slot has the same last entry, or none. */
  lemma OverlaySame(t: Table, u: Table, es: seq<Entry>, fs: seq<Entry>)
    requires forall k: nat :: k < SLOTS ==>
               && (LastFor(es, k) < 0 <==> LastFor(fs, k) < 0)
               && (LastFor(es, k) < 0 ==> t.counts[k] == u.counts[k] && t.starts[k] == u.starts[k])
               && (LastFor(es, k) >= 0 ==> es[LastFor(es, k)] == fs[LastFor(fs, k)])
    ensures Overlay(t, es) == Overlay(u, fs)
  {
    forall k: nat | k < SLOTS
      ensures Overlay(t, es).counts[k] == Overlay(u, fs).counts[k]
      ensures Overlay(t, es).starts[k] == Overlay(u, fs).starts[k]
    {
      OverlayAt(t, es, k);
      OverlayAt(u, fs, k);
    }
  }

  /** Sending the whole list again changes nothing. */
  lemma ResendChangesNothing(t: Table, es: seq<Entry>)
    ensures Overlay(Overlay(t, es), es) == Overlay(t, es)
  {
    forall k: nat | k < SLOTS
      ensures LastFor(es, k) < 0 ==>
                Overlay(t, es).counts[k] == t.counts[k] && Overlay(t, es).starts[k] == t.starts[k]
    {
      OverlayAt(t, es, k);
    }
    OverlaySame(Overlay(t, es), t, es, es);
  }

  ghost predicate DistinctSlots(es: seq<Entry>) {
    forall i, j :: 0 <= i < j < |es| ==> SlotOf(es[i]) != SlotOf(es[j])
  }

  /** The order of entries for distinct strings does not matter. */
  lemma PermutingDistinctSlots(t: Table, es: seq<Entry>, fs: seq<Entry>)
    requires DistinctSlots(es)
    requires multiset(es) == multiset(fs)
    ensures Overlay(t, es) == Overlay(t, fs)
  {
    assert forall e: Entry :: e in es <==> e in multiset(es);
    assert forall e: Entry :: e in fs <==> e in multiset(fs);
    forall k: nat | k < SLOTS
      ensures LastFor(es, k) < 0 <==> LastFor(fs, k) < 0
      ensures LastFor(es, k) >= 0 ==> es[LastFor(es, k)] == fs[LastFor(fs, k)]
    {
      var i, j := LastFor(es, k), LastFor(fs, k);
      if 0 <= i {
        assert es[i] in fs;
      }
      if 0 <= j {
        assert fs[j] in es;
      }
    }
    OverlaySame(t, t, es, fs);
  }

  // ----- configuration messages

  datatype ConfigMsg = ConfigMsg(sequence: nat, entries: seq<Entry>)

  datatype ConfigState = ConfigState(table: Table, lastSequence: nat)

  /** One configuration packet: clear when the sequence number is new, then overlay. */
  function ConfigStep(c: ConfigState, m: ConfigMsg): ConfigState {
    if c.lastSequence != m.sequence then
      ConfigState(Overlay(Cleared(), m.entries), m.sequence)
    else
      ConfigState(Overlay(c.table, m.entries), c.lastSequence)
  }

  function ConfigRun(c: ConfigState, ms: seq<ConfigMsg>): ConfigState {
    if ms == [] then c else ConfigStep(ConfigRun(c, ms[..|ms| - 1]), ms[|ms| - 1])
  }

  /** Where the longest suffix of messages that share the final sequence number starts. */
  function GroupStart(ms: seq<ConfigMsg>): (j: nat)
    requires ms != []
    ensures j < |ms|
    ensures forall i :: j <= i < |ms| ==> ms[i].sequence == ms[|ms| - 1].sequence
    ensures j == 0 || ms[j - 1].sequence != ms[|ms| - 1].sequence
  {
    if |ms| == 1 then 0
    else if ms[|ms| - 2].sequence == ms[|ms| - 1].sequence then GroupStart(ms[..|ms| - 1])
    else |ms| - 1
  }

  function AllEntries(ms: seq<ConfigMsg>): seq<Entry> {
    if ms == [] then [] else AllEntries(ms[..|ms| - 1]) + ms[|ms| - 1].entries
  }

  /** The entries of the final group, in order of arrival. */
  function GroupEntries(ms: seq<ConfigMsg>): seq<Entry>
    requires ms != []
  {
    AllEntries(ms[GroupStart(ms)..])
  }

  /** The table a run's final group of messages is laid over. */
  function GroupBase(c: ConfigState, ms: seq<ConfigMsg>): Table
    requires ms != []
  {
    if GroupStart(ms) == 0 && ms[0].sequence == c.lastSequence then c.table else Cleared()
  }

  /** After any run, the table is the overlay of the final group's entries, and nothing
      else, over an empty table; only a group that began with the run and carries the
      sequence number already in force keeps the table it found. */
  lemma {:induction false} RunIsFinalGroup(c: ConfigState, ms: seq<ConfigMsg>)
    requires ms != []
    ensures ConfigRun(c, ms) ==
            ConfigState(Overlay(GroupBase(c, ms), GroupEntries(ms)), ms[|ms| - 1].sequence)
  {
    var n, j := |ms|, GroupStart(ms);
    var front, last := ms[..n - 1], ms[n - 1];
    if n == 1 {
      assert ms[j..] == [last] && front == [];
      assert AllEntries([last]) == [] + last.entries == last.entries by {
        assert [last][..0] == [];
      }
    } else {
      RunIsFinalGroup(c, front);
      assert front[n - 2] == ms[n - 2];
      if ms[n - 2].sequence == last.sequence {
        assert ms[j..][..|ms[j..]| - 1] == front[j..];
        OverlayConcat(GroupBase(c, front), AllEntries(front[j..]), last.entries);
      } else {
        assert ms[j..] == [last] && [last][..0] == [];
        assert AllEntries([last]) == last.entries;
      }
    }
  }

  ghost predicate AllZero(ms: seq<ConfigMsg>) {
    forall i :: 0 <= i < |ms| ==> ms[i].sequence == 0
  }

  /** Count and start of a string as a run of messages configures it: the last entry for
      it in the final group decides; without one, what the group started from. The initial
      sequence number is 0, so only a run that is one group numbered 0 sees the file. */
  ghost function Configured(file: Table, ms: seq<ConfigMsg>, k: nat): (int, int)
    requires k < SLOTS
  {
    if ms != [] && 0 <= LastFor(GroupEntries(ms), k) then
      var e := GroupEntries(ms)[LastFor(GroupEntries(ms), k)];
      (e.count, e.start)
    else if AllZero(ms) then (file.counts[k], file.starts[k])
    else (0, 0)
  }

  lemma TableAfterRun(file: Table, ms: seq<ConfigMsg>, k: nat)
    requires k < SLOTS
    ensures var t := ConfigRun(ConfigState(file, 0), ms).table;
            (t.counts[k], t.starts[k]) == Configured(file, ms, k)
  {
    if ms != [] {
      RunIsFinalGroup(ConfigState(file, 0), ms);
      var base := GroupBase(ConfigState(file, 0), ms);
      assert base == if AllZero(ms) then file else Cleared();
      OverlayAt(base, GroupEntries(ms), k);
    }
  }

  function Flatten(parts: seq<seq<Entry>>): seq<Entry> {
    if parts == [] then [] else Flatten(parts[..|parts| - 1]) + parts[|parts| - 1]
  }

  function SameSequence(sequence: nat, parts: seq<seq<Entry>>): (ms: seq<ConfigMsg>)
    ensures |ms| == |parts|
  {
    seq(|parts|, i requires 0 <= i < |parts| => ConfigMsg(sequence, parts[i]))
  }

  /** However a list of entries is cut into packets of one sequence number, the
      result is that of the uncut list. */
  lemma {:induction false} SplittingChangesNothing(c: ConfigState, sequence: nat, parts: seq<seq<Entry>>)
    requires parts != []
    ensures ConfigRun(c, SameSequence(sequence, parts)) == ConfigStep(c, ConfigMsg(sequence, Flatten(parts)))
  {
    var ms, front := SameSequence(sequence, parts), parts[..|parts| - 1];
    assert ms[..|ms| - 1] == SameSequence(sequence, front);
    if front == [] {
      assert Flatten(parts) == [] + parts[0] == parts[0];
    } else {
      SplittingChangesNothing(c, sequence, front);
      var base := if c.lastSequence != sequence then Cleared() else c.table;
      OverlayConcat(base, Flatten(front), parts[|parts| - 1]);
    }
  }

  // ----- what a gather needs of the table

  /** The sum of the counts of the first `n` strings of a port. */
  function Offset(t: Table, port: nat, n: nat): int
    requires port < PORTS && n <= STRINGS
  {
    if n == 0 then 0 else Offset(t, port, n - 1) + t.counts[Slot(port, n - 1)]
  }

  /** No access of a gather of this port leaves the pixel buffer or the payload. */
  predicate PortSafe(t: Table, port: nat)
    requires port < PORTS
  {
    && (forall s: nat :: s < STRINGS ==> StringInRange(t.counts[Slot(port, s)], t.starts[Slot(port, s)]))
    && Offset(t, port, STRINGS) <= MAX_CHANNELS_PER_DEVICE
  }

  /** The start of a string without channels is never used. */
  predicate StringInRange(count: int, start: int) {
    0 <= count && (count == 0 || (0 <= start && start + count <= PIXEL_BUFFER_SIZE))
  }

  /** In numbers: every string is within the 24576 bytes of the pixel buffer, and all eight together
      are at most 19200 channels. */
  lemma PortSafeInNumbers(t: Table, port: nat)
    requires port < 4
    ensures PortSafe(t, port) <==>
            && (forall k :: 8 * port <= k < 8 * port + 8 ==>
                  0 <= t.counts[k] && (t.counts[k] == 0 || (0 <= t.starts[k] && t.starts[k] + t.counts[k] <= 24576)))
            && t.counts[8 * port] + t.counts[8 * port + 1] + t.counts[8 * port + 2] + t.counts[8 * port + 3]
               + t.counts[8 * port + 4] + t.counts[8 * port + 5] + t.counts[8 * port + 6] + t.counts[8 * port + 7]
               <= 19200
  {
    OffsetInNumbers(t, port);
    hide Offset;
    if PortSafe(t, port) {
      forall k | 8 * port <= k < 8 * port + 8
        ensures StringInRange(t.counts[k], t.starts[k])
      {
        assert k == Slot(port, k - 8 * port);
      }
    }
  }

  lemma OffsetInNumbers(t: Table, port: nat)
    requires port < 4
    ensures Offset(t, port, 8) ==
            t.counts[8 * port] + t.counts[8 * port + 1] + t.counts[8 * port + 2] + t.counts[8 * port + 3]
            + t.counts[8 * port + 4] + t.counts[8 * port + 5] + t.counts[8 * port + 6] + t.counts[8 * port + 7]
  {
    var k := 8 * port;
    assert Slot(port, 0) == k && Slot(port, 1) == k + 1 && Slot(port, 2) == k + 2 && Slot(port, 3) == k + 3;
    assert Slot(port, 4) == k + 4 && Slot(port, 5) == k + 5 && Slot(port, 6) == k + 6 && Slot(port, 7) == k + 7;
    assert Offset(t, port, 1) == t.counts[k];
    assert Offset(t, port, 3) == Offset(t, port, 1) + t.counts[k + 1] + t.counts[k + 2];
    assert Offset(t, port, 5) == Offset(t, port, 3) + t.counts[k + 3] + t.counts[k + 4];
    assert Offset(t, port, 7) == Offset(t, port, 5) + t.counts[k + 5] + t.counts[k + 6];
  }

  lemma {:induction false} OffsetMonotone(t: Table, port: nat, m: nat, n: nat)
    requires port < PORTS && m <= n <= STRINGS
    requires forall s: nat :: s < STRINGS ==> 0 <= t.counts[Slot(port, s)]
    ensures 0 <= Offset(t, port, m) <= Offset(t, port, n)
    decreases n
  {
    if m < n {
      OffsetMonotone(t, port, m, n - 1);
    } else if 0 < n {
      OffsetMonotone(t, port, n - 1, n - 1);
    }
  }

  /** The channels a list of entries asks for on one port. */
  function EntrySum(es: seq<Entry>, port: nat): int {
    if es == [] then 0
    else EntrySum(es[..|es| - 1], port) + if es[|es| - 1].port == port then es[|es| - 1].count else 0
  }

  lemma {:induction false} OffsetPut(t: Table, e: Entry, port: nat, n: nat)
    requires port < PORTS && n <= STRINGS
    ensures Offset(Put(t, e), port, n) ==
            Offset(t, port, n) + if e.port == port && e.str < n then e.count - t.counts[SlotOf(e)] else 0
  {
    if 0 < n {
      OffsetPut(t, e, port, n - 1);
      assert Slot(port, n - 1) == SlotOf(e) <==> port == e.port && n - 1 == e.str;
    }
  }

  ghost predicate EntriesInRange(es: seq<Entry>) {
    forall i :: 0 <= i < |es| ==> StringInRange(es[i].count, es[i].start)
  }

  ghost predicate TableInRange(t: Table) {
    forall k: nat :: k < SLOTS ==> StringInRange(t.counts[k], t.starts[k])
  }

  /** The most that a slot can come to hold: its count before, or one that an entry asks for. */
  function SlotCap(base: int, es: seq<Entry>, k: nat): (cap: int)
    ensures base <= cap
    ensures forall i :: 0 <= i < |es| && SlotOf(es[i]) == k ==> es[i].count <= cap
    ensures cap == base || exists i :: 0 <= i < |es| && SlotOf(es[i]) == k && es[i].count == cap
  {
    if es == [] then base
    else
      var front, e := SlotCap(base, es[..|es| - 1], k), es[|es| - 1];
      if SlotOf(e) == k && front < e.count then e.count else front
  }

  function Caps(t: Table, es: seq<Entry>): (caps: seq<int>)
    ensures |caps| == SLOTS
  {
    seq(SLOTS, k requires 0 <= k < SLOTS => SlotCap(t.counts[k], es, k))
  }

  function CapSum(caps: seq<int>, port: nat, n: nat): int
    requires |caps| == SLOTS && port < PORTS && n <= STRINGS
  {
    if n == 0 then 0 else CapSum(caps, port, n - 1) + caps[Slot(port, n - 1)]
  }

  /** Entries sent again, in any order and number, leave the caps as they are. */
  lemma ResendsKeepCaps(t: Table, es: seq<Entry>, fs: seq<Entry>)
    requires forall e: Entry :: e in es <==> e in fs
    ensures Caps(t, es) == Caps(t, fs)
  {
    forall k: nat | k < SLOTS
      ensures SlotCap(t.counts[k], es, k) == SlotCap(t.counts[k], fs, k)
    {
      assert forall i :: 0 <= i < |es| ==> es[i] in fs;
      assert forall i :: 0 <= i < |fs| ==> fs[i] in es;
    }
  }

  /** Whatever an overlay makes of a port, it is within the caps, and in range. */
  lemma OverlayCapped(t: Table, es: seq<Entry>, port: nat)
    requires port < PORTS
    requires TableInRange(t) && EntriesInRange(es)
    ensures TableInRange(Overlay(t, es))
    ensures forall k: nat :: k < SLOTS ==> Overlay(t, es).counts[k] <= Caps(t, es)[k]
    ensures Offset(Overlay(t, es), port, STRINGS) <= CapSum(Caps(t, es), port, STRINGS)
  {
    forall k: nat | k < SLOTS
      ensures Overlay(t, es).counts[k] <= Caps(t, es)[k]
      ensures StringInRange(Overlay(t, es).counts[k], Overlay(t, es).starts[k])
    {
      OverlayAt(t, es, k);
    }
    OffsetCapped(Overlay(t, es), Caps(t, es), port, STRINGS);
  }

  lemma {:induction false} OffsetCapped(t: Table, caps: seq<int>, port: nat, n: nat)
    requires |caps| == SLOTS && port < PORTS && n <= STRINGS
    requires forall s: nat :: s < n ==> t.counts[Slot(port, s)] <= caps[Slot(port, s)]
    ensures Offset(t, port, n) <= CapSum(caps, port, n)
  {
    if 0 < n {
      OffsetCapped(t, caps, port, n - 1);
    }
  }

  lemma SlotCapOneMore(base: int, es: seq<Entry>, e: Entry, k: nat)
    requires 0 <= base && 0 <= e.count
    ensures SlotCap(base, es + [e], k) <= SlotCap(base, es, k) + if SlotOf(e) == k then e.count else 0
  {
    assert (es + [e])[..|es|] == es;
  }

  lemma {:induction false} CapSumRaised(caps: seq<int>, raised: seq<int>, port: nat, e: Entry, n: nat)
    requires |caps| == |raised| == SLOTS && port < PORTS && n <= STRINGS && 0 <= e.count
    requires forall k :: 0 <= k < SLOTS ==> raised[k] <= caps[k] + if SlotOf(e) == k then e.count else 0
    ensures CapSum(raised, port, n) <= CapSum(caps, port, n) + if e.port == port && e.str < n then e.count else 0
  {
    if 0 < n {
      CapSumRaised(caps, raised, port, e, n - 1);
      assert Slot(port, n - 1) == SlotOf(e) <==> port == e.port && n - 1 == e.str;
    }
  }

  /** The caps are at most the old total and all that the entries ask for. */
  lemma {:induction false} SumsBoundCaps(t: Table, es: seq<Entry>, port: nat)
    requires port < PORTS && TableInRange(t) && EntriesInRange(es)
    ensures CapSum(Caps(t, es), port, STRINGS) <= Offset(t, port, STRINGS) + EntrySum(es, port)
  {
    if es == [] {
      CapsOfTable(t, port, STRINGS);
    } else {
      var front, e := es[..|es| - 1], es[|es| - 1];
      SumsBoundCaps(t, front, port);
      forall k | 0 <= k < SLOTS
        ensures Caps(t, es)[k] <= Caps(t, front)[k] + if SlotOf(e) == k then e.count else 0
      {
        assert front + [e] == es;
        SlotCapOneMore(t.counts[k], front, e, k);
      }
      CapSumRaised(Caps(t, front), Caps(t, es), port, e, STRINGS);
    }
  }

  lemma {:induction false} CapsOfTable(t: Table, port: nat, n: nat)
    requires port < PORTS && n <= STRINGS
    ensures CapSum(Caps(t, []), port, n) == Offset(t, port, n)
  {
    if 0 < n {
      CapsOfTable(t, port, n - 1);
    }
  }

  /** What a port transmits after an overlay is at most what it transmitted before
      plus what the entries ask for. */
  lemma OverlayBounded(t: Table, es: seq<Entry>, port: nat)
    requires port < PORTS
    requires TableInRange(t) && EntriesInRange(es)
    ensures TableInRange(Overlay(t, es))
    ensures Offset(Overlay(t, es), port, STRINGS) <= Offset(t, port, STRINGS) + EntrySum(es, port)
  {
    OverlayCapped(t, es, port);
    SumsBoundCaps(t, es, port);
  }

  /** A sender's check: in every group of messages, the largest counts that the group asks
      for or started from, string by string, fit a payload together. */
  ghost predicate GroupFits(c: ConfigState, ms: seq<ConfigMsg>, port: nat)
    requires port < PORTS && ms != []
  {
    && EntriesInRange(GroupEntries(ms))
    && CapSum(Caps(GroupBase(c, ms), GroupEntries(ms)), port, STRINGS) <= MAX_CHANNELS_PER_DEVICE
  }

  /** Senders that keep to GroupFits keep every port safe to gather after every packet. */
  lemma CapacityKept(c: ConfigState, ms: seq<ConfigMsg>, port: nat, n: nat)
    requires port < PORTS && n <= |ms|
    requires TableInRange(c.table) && PortSafe(c.table, port)
    requires forall i: nat :: 0 < i <= |ms| ==> GroupFits(c, ms[..i], port)
    ensures PortSafe(ConfigRun(c, ms[..n]).table, port)
  {
    if n != 0 {
      var front := ms[..n];
      assert GroupFits(c, front, port);
      RunIsFinalGroup(c, front);
      OverlayCapped(GroupBase(c, front), GroupEntries(front), port);
    }
  }

  // ----- a message, cell by cell

  datatype CellRaw = CountCell(k: nat, v: int) | StartCell(k: nat, v: int)

  /** A write of one cell of the table. */
  type Cell = c: CellRaw | c.k < SLOTS
    witness CountCell(0, 0)

  function Written(t: Table, c: Cell): Table {
    match c
    case CountCell(k, v) => Table(t.counts[k := v], t.starts)
    case StartCell(k, v) => Table(t.counts, t.starts[k := v])
  }

  function AfterCells(t: Table, cs: seq<Cell>): Table {
    if cs == [] then t else Written(AfterCells(t, cs[..|cs| - 1]), cs[|cs| - 1])
  }

  /** The tables that a sequence of cell writes passes through. */
  function Versions(t: Table, cs: seq<Cell>): (us: seq<Table>)
    ensures |us| == |cs| + 1 && us[0] == t && us[|cs|] == AfterCells(t, cs)
    ensures forall i :: 0 <= i < |cs| ==> us[i + 1] == Written(us[i], cs[i])
  {
    if cs == [] then [t] else Versions(t, cs[..|cs| - 1]) + [AfterCells(t, cs)]
  }

  lemma {:induction false} AfterConcat(t: Table, cs: seq<Cell>, ds: seq<Cell>)
    ensures AfterCells(t, cs + ds) == AfterCells(AfterCells(t, cs), ds)
  {
    if ds == [] {
      assert cs + ds == cs;
    } else {
      AfterConcat(t, cs, ds[..|ds| - 1]);
      assert (cs + ds)[..|cs + ds| - 1] == cs + ds[..|ds| - 1];
    }
  }

  /** The nested loops that clear the table, slot by slot: a count, then a start. */
  function ClearCell(i: nat): Cell
    requires i < 2 * SLOTS
  {
    if i % 2 == 0 then CountCell(i / 2, 0) else StartCell(i / 2, 0)
  }

  function ClearCells(n: nat): (cs: seq<Cell>)
    requires n <= SLOTS
    ensures |cs| == 2 * n
  {
    seq(2 * n, i requires 0 <= i < 2 * n => ClearCell(i))
  }

  /** The loop over the entries: a count, then a start. */
  function EntryCell(es: seq<Entry>, i: nat): Cell
    requires i < 2 * |es|
  {
    var e := es[i / 2];
    if i % 2 == 0 then CountCell(SlotOf(e), e.count) else StartCell(SlotOf(e), e.start)
  }

  function EntryCells(es: seq<Entry>): (cs: seq<Cell>)
    ensures |cs| == 2 * |es|
  {
    seq(2 * |es|, i requires 0 <= i < 2 * |es| => EntryCell(es, i))
  }

  /** The cells a message writes, in the order of the program. */
  function ConfigCells(lastSequence: nat, m: ConfigMsg): seq<Cell> {
    (if lastSequence != m.sequence then ClearCells(SLOTS) else []) + EntryCells(m.entries)
  }

  lemma AfterTwo(t: Table, cs: seq<Cell>, c: Cell, d: Cell)
    ensures AfterCells(t, cs + [c, d]) == Written(Written(AfterCells(t, cs), c), d)
  {
    var all := cs + [c, d];
    assert all[..|all| - 1] == cs + [c];
    assert (cs + [c])[..|cs|] == cs;
  }

  lemma {:induction false} ClearCellsClear(t: Table, n: nat)
    requires n <= SLOTS
    ensures forall k :: 0 <= k < SLOTS ==>
              && AfterCells(t, ClearCells(n)).counts[k] == (if k < n then 0 else t.counts[k])
              && AfterCells(t, ClearCells(n)).starts[k] == (if k < n then 0 else t.starts[k])
  {
    if 0 < n {
      ClearCellsClear(t, n - 1);
      assert ClearCells(n) == ClearCells(n - 1) + [CountCell(n - 1, 0), StartCell(n - 1, 0)];
      AfterTwo(t, ClearCells(n - 1), CountCell(n - 1, 0), StartCell(n - 1, 0));
    }
  }

  lemma {:induction false} EntryCellsOverlay(t: Table, es: seq<Entry>)
    ensures AfterCells(t, EntryCells(es)) == Overlay(t, es)
  {
    if es != [] {
      var front, e := es[..|es| - 1], es[|es| - 1];
      EntryCellsOverlay(t, front);
      assert EntryCells(es) == EntryCells(front) + [CountCell(SlotOf(e), e.count), StartCell(SlotOf(e), e.start)];
      AfterTwo(t, EntryCells(front), CountCell(SlotOf(e), e.count), StartCell(SlotOf(e), e.start));
    }
  }

  /** All the cells of a message together make the configuration step. */
  lemma CellsMakeStep(c: ConfigState, m: ConfigMsg)
    ensures AfterCells(c.table, ConfigCells(c.lastSequence, m)) == ConfigStep(c, m).table
  {
    if c.lastSequence != m.sequence {
      AfterConcat(c.table, ClearCells(SLOTS), EntryCells(m.entries));
      ClearCellsClear(c.table, SLOTS);
      assert AfterCells(c.table, ClearCells(SLOTS)) == Cleared();
      EntryCellsOverlay(Cleared(), m.entries);
    } else {
      assert [] + EntryCells(m.entries) == EntryCells(m.entries);
      EntryCellsOverlay(c.table, m.entries);
    }
  }
}
