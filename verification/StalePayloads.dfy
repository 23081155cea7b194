/** The payload is not cleared between frames. Exactly when a gather that races with table writes
    sends bytes that an earlier frame left in it. */
module StalePayloads {
  import opened Bytes
  import opened Limits
  import opened PixelBuffer
  import opened StringTable
  import opened Frames
  import opened Interleaving
  import opened Races
  import opened RacingMessages

  /** Machines that differ at most in what the payload's data hold. */
  ghost predicate Twins(m: Machine, n: Machine) {
    n == m.(gather := m.gather.(data := n.gather.data))
  }

  /** Both gathers have finished, and what they send differs. */
  ghost predicate SendDifferently(g: Gather, h: Gather) {
    && g.pc == Finished && 0 <= g.b <= MAX_CHANNELS_PER_DEVICE
    && h.pc == Finished && 0 <= h.b <= MAX_CHANNELS_PER_DEVICE
    && Payload(g) != Payload(h)
  }

  ghost predicate StaleRuns(tr: seq<Machine>, us: seq<Machine>, ls: seq<Label>, port: nat, t: Table, cs: seq<Cell>)
    requires port < PORTS
  {
    && WriteRun(tr, ls, port, t, cs) && WriteRun(us, ls, port, t, cs)
    && Twins(tr[0], us[0]) && SendDifferently(tr[|ls|].gather, us[|ls|].gather)
  }

  /** Under some schedule, what is sent depends on what the payload held before. */
  ghost predicate SendsStale(port: nat, t: Table, cs: seq<Cell>)
    requires port < PORTS
  {
    exists tr: seq<Machine>, us: seq<Machine>, ls: seq<Label> :: StaleRuns(tr, us, ls, port, t, cs)
  }

  /** A string that has channels in version `i` has fewer in version `l` than in version `m`. */
  predicate RegrowsAt(us: seq<Table>, port: nat, s: nat, i: nat, l: nat, m: nat)
    requires port < PORTS && s < STRINGS && i < |us| && l < |us| && m < |us|
  {
    us[i].counts[Slot(port, s)] != 0 && us[l].counts[Slot(port, s)] < us[m].counts[Slot(port, s)]
  }

  ghost predicate Regrows(us: seq<Table>, port: nat)
    requires port < PORTS
  {
    exists s: nat, i: nat, l: nat, m: nat :: s < STRINGS && i <= l <= m < |us| && RegrowsAt(us, port, s, i, l, m)
  }

  // ----- without growth every byte sent is a fresh one

  /** So many bytes of the payload are of this gather. */
  function Fresher(g: Gather, us: seq<Table>, port: nat, r: Reads): int
    requires port < PORTS && r.length < |us|
  {
    match g.pc
    case CopyBytes(_, _, i) => g.b + i
    case Advance => g.b + us[r.length].counts[Slot(port, g.a)]
    case _ => g.b
  }

  /** The gathers are alike, and their payloads agree in the first `n` bytes. */
  ghost predicate Alike(g: Gather, h: Gather, n: int) {
    h == g.(data := h.data) && forall p :: 0 <= p < n && p < MAX_CHANNELS_PER_DEVICE ==> g.data[p] == h.data[p]
  }

  lemma AlikeStep(g: Gather, h: Gather, px: Pixels, us: seq<Table>, port: nat, v: nat, r: Reads)
    requires port < PORTS && v < |us| && r.length < |us| && RaceInv(g, us, port, v, r) && !Regrows(us, port)
    requires Alike(g, h, Fresher(g, us, port, r))
    ensures NextReads(g, us, port, v, r).length < |us|
    ensures Alike(GatherStep(g, px, us[v], port), GatherStep(h, px, us[v], port),
                  Fresher(GatherStep(g, px, us[v], port), us, port, NextReads(g, us, port, v, r)))
  {
    if g.pc == Advance {
      assert !RegrowsAt(us, port, g.a, r.test, r.length, v);
    }
    hide ChoiceSum, Choice, Regrows;
  }

  lemma TwinStep(m: Machine, n: Machine, l: Label, port: nat)
    requires port < PORTS && Twins(m, n)
    ensures var m', n' := Step(m, l, port), Step(n, l, port);
            && m'.pixels == n'.pixels && m'.table == n'.table && m'.zcpp == n'.zcpp && m'.acn == n'.acn
            && if l.WorkerStep?
               then m'.gather == GatherStep(m.gather, m.pixels, m.table, port)
                    && n'.gather == GatherStep(n.gather, m.pixels, m.table, port)
               else m'.gather == m.gather && n'.gather == n.gather
  {
    hide GatherStep, CopyPixel, CopyNext;
  }

  /** Runs that started as twins, after the same steps. */
  ghost predicate InStep(m: Machine, n: Machine, us: seq<Table>, port: nat, v: nat, r: Reads)
    requires port < PORTS && v < |us|
  {
    && r.length < |us| && RaceInv(m.gather, us, port, v, r)
    && Twins(m, n) && Alike(m.gather, n.gather, Fresher(m.gather, us, port, r))
  }

  lemma WorkerInStep(m: Machine, n: Machine, us: seq<Table>, port: nat, v: nat, r: Reads)
    requires port < PORTS && v < |us| && RaceSafe(us, port) && !Regrows(us, port)
    requires InStep(m, n, us, port, v, r) && m.table == us[v]
    ensures var r' := NextReads(m.gather, us, port, v, r);
            InStep(Step(m, WorkerStep, port), Step(n, WorkerStep, port), us, port, v, r')
  {
    hide GatherStep, NextReads, RaceSafe, Regrows, RaceInv, Alike, Fresher;
    assert n.gather == m.gather.(data := n.gather.data);
    TwinStep(m, n, WorkerStep, port);
    RaceStep(m.gather, m.pixels, us, port, v, r);
    AlikeStep(m.gather, n.gather, m.pixels, us, port, v, r);
    AlikeAreTwins(Step(m, WorkerStep, port), Step(n, WorkerStep, port),
                  Fresher(GatherStep(m.gather, m.pixels, us[v], port), us, port, NextReads(m.gather, us, port, v, r)));
  }

  lemma AlikeAreTwins(m: Machine, n: Machine, k: int)
    requires m.pixels == n.pixels && m.table == n.table && m.zcpp == n.zcpp && m.acn == n.acn
    requires Alike(m.gather, n.gather, k)
    ensures Twins(m, n)
  {
  }

  lemma OtherInStep(m: Machine, n: Machine, l: Label, us: seq<Table>, port: nat, v: nat, w: nat, r: Reads)
    requires port < PORTS && v <= w < |us| && InStep(m, n, us, port, v, r) && !l.WorkerStep?
    ensures InStep(Step(m, l, port), Step(n, l, port), us, port, w, r)
  {
    RaceInvLater(m.gather, us, port, v, w, r);
    TwinStep(m, n, l, port);
    GatherOfStep(m, l, port);
    hide RaceInv, Alike, Fresher, Step;
  }

  lemma StartInStep(m: Machine, n: Machine, us: seq<Table>, port: nat)
    requires port < PORTS && us != [] && AtStart(m.gather) && Twins(m, n)
    ensures InStep(m, n, us, port, 0, Reads([], 0, 0, 0))
  {
  }

  lemma {:induction false} StayInStep(tr: seq<Machine>, us: seq<Machine>, ls: seq<Label>, port: nat, t: Table,
                                      cs: seq<Cell>, n: nat)
    returns (r: Reads)
    requires port < PORTS && WriteRun(tr, ls, port, t, cs) && WriteRun(us, ls, port, t, cs) && Twins(tr[0], us[0])
    requires n <= |ls| && RaceSafe(Versions(t, cs), port) && !Regrows(Versions(t, cs), port)
    ensures |CellsWritten(ls[..n])| <= |cs|
    ensures InStep(tr[n], us[n], Versions(t, cs), port, |CellsWritten(ls[..n])|, r)
  {
    TableIsVersion(tr, ls, port, t, cs, n);
    hide Step, NextReads, RaceSafe, Regrows, InStep, Versions, AfterCells, Twins;
    if n == 0 {
      r := Reads([], 0, 0, 0);
      StartInStep(tr[0], us[0], Versions(t, cs), port);
    } else {
      var v := |CellsWritten(ls[..n - 1])|;
      TableIsVersion(tr, ls, port, t, cs, n - 1);
      r := StayInStep(tr, us, ls, port, t, cs, n - 1);
      CellsOneMore(ls, n - 1);
      assert tr[n] == Step(tr[n - 1], ls[n - 1], port) && us[n] == Step(us[n - 1], ls[n - 1], port);
      if ls[n - 1].WorkerStep? {
        WorkerInStep(tr[n - 1], us[n - 1], Versions(t, cs), port, v, r);
        r := NextReads(tr[n - 1].gather, Versions(t, cs), port, v, r);
      } else {
        OtherInStep(tr[n - 1], us[n - 1], ls[n - 1], Versions(t, cs), port, v, |CellsWritten(ls[..n])|, r);
      }
    }
  }

  lemma NothingStale(tr: seq<Machine>, us: seq<Machine>, ls: seq<Label>, port: nat, t: Table, cs: seq<Cell>)
    requires port < PORTS && WriteRun(tr, ls, port, t, cs) && WriteRun(us, ls, port, t, cs) && Twins(tr[0], us[0])
    requires RaceSafe(Versions(t, cs), port) && !Regrows(Versions(t, cs), port)
    ensures !SendDifferently(tr[|ls|].gather, us[|ls|].gather)
  {
    hide Versions, AfterCells, RaceSafe, Regrows, RaceInv, Step, WordsInMemory;
    var g, h := tr[|ls|].gather, us[|ls|].gather;
    var r := StayInStep(tr, us, ls, port, t, cs, |ls|);
    if g.pc == Finished && 0 <= g.b <= MAX_CHANNELS_PER_DEVICE {
      assert g.data[..g.b] == h.data[..h.b];
    }
  }

  // ----- with growth some byte sent is an old one

  lemma RaceSafeTables(us: seq<Table>, port: nat, v: nat)
    requires port < PORTS && RaceSafe(us, port) && v < |us|
    ensures PortSafe(us[v], port)
  {
    forall s: nat | s < STRINGS
      ensures StringInRange(us[v].counts[Slot(port, s)], us[v].starts[Slot(port, s)])
    {
      assert MixInRange(us, port, s, v, v, v);
    }
    var vs: seq<nat> := seq(STRINGS, i => v);
    ChoiceLikeTable(us, port, vs, v);
  }

  lemma ReachedInside(port: nat, t: Table, cs: seq<Cell>, f: Gather, g: Gather, v: nat)
    requires port < PORTS && v <= |cs| && RaceSafe(Versions(t, cs), port) && Reaches(port, t, cs, f, g, v)
    ensures Inside(g)
  {
    SafeNeverLeaves(port, t, cs);
    var tr: seq<Machine>, ls: seq<Label> :| ReachedBy(tr, ls, port, t, cs, f, g, v);
  }

  /** The strings before `s` in version `i`, string `s` in version `m`. */
  lemma TwoVersionsFit(us: seq<Table>, port: nat, s: nat, i: nat, m: nat)
    requires port < PORTS && RaceSafe(us, port) && s < STRINGS && i <= m < |us|
    ensures 0 <= us[m].counts[Slot(port, s)]
    ensures Offset(us[i], port, s) + us[m].counts[Slot(port, s)] <= MAX_CHANNELS_PER_DEVICE
  {
    var vs: seq<nat> := seq(s, k => i);
    NoNegativeCounts(us, port);
    ChoiceLikeTable(us, port, vs, i);
    ChoiceOneMore(us, port, vs, m);
    PartOfChoice(us, port, vs + [m], m);
  }

  /** The header stored, the test and the start read in version `i`, the length in version `l`. */
  lemma ReachShortCopy(port: nat, t: Table, cs: seq<Cell>, f: Gather, s: nat, i: nat, l: nat) returns (h: Gather)
    requires port < PORTS && RaceSafe(Versions(t, cs), port) && AtStart(f) && s < STRINGS && i <= l <= |cs|
    requires Versions(t, cs)[i].counts[Slot(port, s)] != 0
    ensures var us, k := Versions(t, cs), Slot(port, s);
            && Reaches(port, t, cs, f, h, l) && h.a == s && h.pc == Advance && h.b == Offset(us[i], port, s)
            && KeptOutside(f, h, 0, h.b + us[l].counts[k])
            && forall r: nat :: r <= s ==> h.header[r] == Narrow(us[i].counts[Slot(port, r)])
  {
    hide Reaches, RaceSafe, PortSafe, Versions, AfterCells;
    RaceSafeTables(Versions(t, cs), port, i);
    TwoVersionsFit(Versions(t, cs), port, s, i, l);
    h := ReachTestOf(port, t, cs, f, i, s);
    h := ReachWorker(port, t, cs, f, h, i);
    h := ReachWorker(port, t, cs, f, h, i);
    ReachVersion(port, t, cs, f, h, i, l);
    h := ReachWorker(port, t, cs, f, h, l);
    h := ReachCopied(port, t, cs, f, h, l);
    ReachedInside(port, t, cs, f, h, l);
  }

  /** The rest in version `m`: the advance passes bytes that were not copied. */
  lemma ReachStale(port: nat, t: Table, cs: seq<Cell>, f: Gather, s: nat, i: nat, l: nat, m: nat)
    returns (h: Gather)
    requires port < PORTS && RaceSafe(Versions(t, cs), port) && AtStart(f)
    requires s < STRINGS && i <= l <= m <= |cs| && RegrowsAt(Versions(t, cs), port, s, i, l, m)
    ensures Reaches(port, t, cs, f, h, m) && h.pc == Finished
    ensures var us, k := Versions(t, cs), Slot(port, s);
            && h.b == Offset(us[i], port, s) + us[m].counts[k]
                      + Offset(us[m], port, STRINGS) - Offset(us[m], port, s + 1)
            && 0 <= Offset(us[i], port, s) + us[l].counts[k] < h.b <= MAX_CHANNELS_PER_DEVICE
            && h.data[Offset(us[i], port, s) + us[l].counts[k]] == f.data[Offset(us[i], port, s) + us[l].counts[k]]
            && forall r: nat :: r < STRINGS ==>
                 h.header[r] == Narrow(us[if r <= s then i else m].counts[Slot(port, r)])
  {
    hide Reaches, RaceSafe, PortSafe, Versions, AfterCells;
    var us := Versions(t, cs);
    TwoVersionsFit(us, port, s, i, l);
    TwoVersionsFit(us, port, s, i, m);
    RaceSafeTables(us, port, i);
    PlaceOfString(us[i], port, s);
    h := ReachShortCopy(port, t, cs, f, s, i, l);
    ReachVersion(port, t, cs, f, h, l, m);
    h := ReachWorker(port, t, cs, f, h, m);
    h := ReachString(port, t, cs, f, h, m, STRINGS);
    ReachedInside(port, t, cs, f, h, m);
  }

  /** The gather with one byte of its payload replaced. */
  function Swapped(g: Gather, q: nat, y: byte): Gather
    requires q < MAX_CHANNELS_PER_DEVICE
  {
    g.(data := g.data[q := y])
  }

  /** While the pixels are dark, a byte that is not 0 after a step was not stored by it. */
  lemma StepSpares(g: Gather, u: Table, port: nat, q: nat, y: byte)
    requires port < PORTS && q < MAX_CHANNELS_PER_DEVICE
    requires GatherStep(g, Still(u, g).pixels, u, port).data[q] != 0
    ensures var h := GatherStep(g, Still(u, g).pixels, u, port);
            && h.data[q] == g.data[q]
            && GatherStep(Swapped(g, q, y), Still(u, g).pixels, u, port) == Swapped(h, q, y)
  {
  }

  ghost predicate StillRun(tr: seq<Machine>) {
    forall i :: 0 <= i < |tr| ==> tr[i] == Still(tr[i].table, tr[i].gather)
  }

  /** A byte that is not 0 in the end has been there all along. */
  lemma {:induction false} OldByte(tr: seq<Machine>, ls: seq<Label>, port: nat, q: nat, n: nat)
    requires port < PORTS && IsRun(tr, ls, port) && StillRun(tr) && n <= |ls|
    requires q < MAX_CHANNELS_PER_DEVICE && tr[|ls|].gather.data[q] != 0
    ensures tr[n].gather.data[q] == tr[|ls|].gather.data[q]
    decreases |ls| - n
  {
    hide Step, GatherStep;
    if n < |ls| {
      OldByte(tr, ls, port, q, n + 1);
      GatherOfStep(tr[n], ls[n], port);
      assert tr[n + 1] == Step(tr[n], ls[n], port);
      if ls[n].WorkerStep? {
        StepSpares(tr[n].gather, tr[n].table, port, q, 0);
      }
    }
  }

  function SwappedMachine(m: Machine, q: nat, y: byte): Machine
    requires q < MAX_CHANNELS_PER_DEVICE
  {
    m.(gather := Swapped(m.gather, q, y))
  }

  function SwappedRun(tr: seq<Machine>, q: nat, y: byte): (us: seq<Machine>)
    requires q < MAX_CHANNELS_PER_DEVICE
    ensures |us| == |tr|
  {
    seq(|tr|, i requires 0 <= i < |tr| => SwappedMachine(tr[i], q, y))
  }

  lemma SwappedStep(m: Machine, l: Label, port: nat, q: nat, y: byte)
    requires port < PORTS && q < MAX_CHANNELS_PER_DEVICE && m == Still(m.table, m.gather)
    requires Step(m, l, port).gather.data[q] != 0
    ensures Step(SwappedMachine(m, q, y), l, port) == SwappedMachine(Step(m, l, port), q, y)
  {
    hide GatherStep;
    if l.WorkerStep? {
      StepSpares(m.gather, m.table, port, q, y);
    }
  }

  /** With that byte replaced from the start, the same schedule is a run as well. */
  lemma SwappedIsRun(tr: seq<Machine>, ls: seq<Label>, port: nat, t: Table, cs: seq<Cell>, q: nat, y: byte)
    requires port < PORTS && WriteRun(tr, ls, port, t, cs) && StillRun(tr)
    requires q < MAX_CHANNELS_PER_DEVICE && tr[|ls|].gather.data[q] != 0
    ensures WriteRun(SwappedRun(tr, q, y), ls, port, t, cs)
  {
    var us := SwappedRun(tr, q, y);
    forall n | 0 <= n < |ls|
      ensures us[n + 1] == Step(us[n], ls[n], port)
    {
      hide Step, SwappedMachine;
      assert tr[n + 1] == Step(tr[n], ls[n], port);
      OldByte(tr, ls, port, q, n + 1);
      SwappedStep(tr[n], ls[n], port, q, y);
    }
  }

  /** The start of a gather over a payload filled with one byte. */
  function Filled(x: byte): (g: Gather)
    ensures AtStart(g) && forall p :: 0 <= p < MAX_CHANNELS_PER_DEVICE ==> g.data[p] == x
  {
    Gather(0, StoreCount, 0, seq(STRINGS, i => 0), seq(MAX_CHANNELS_PER_DEVICE, i => x))
  }

  lemma PayloadByte(g: Gather, q: nat)
    requires q < g.b <= MAX_CHANNELS_PER_DEVICE
    ensures Payload(g)[COUNTS_SIZE + q] == g.data[q]
  {
  }

  lemma RegrowthShows(port: nat, t: Table, cs: seq<Cell>, s: nat, i: nat, l: nat, m: nat)
    requires port < PORTS && RaceSafe(Versions(t, cs), port)
    requires s < STRINGS && i <= l <= m <= |cs| && RegrowsAt(Versions(t, cs), port, s, i, l, m)
    ensures SendsStale(port, t, cs)
  {
    hide RaceSafe, WriteRun, Payload, Versions, AfterCells;
    var h := ReachStale(port, t, cs, Filled(1), s, i, l, m);
    var q := Offset(Versions(t, cs)[i], port, s) + Versions(t, cs)[l].counts[Slot(port, s)];
    var tr: seq<Machine>, ls: seq<Label> :| ReachedBy(tr, ls, port, t, cs, Filled(1), h, m);
    WriteRunLength(tr, ls, port, t, cs);
    SwappedIsRun(tr, ls, port, t, cs, q, 2);
    PayloadByte(h, q);
    PayloadByte(Swapped(h, q, 2), q);
    assert StaleRuns(tr, SwappedRun(tr, q, 2), ls, port, t, cs);
  }

  lemma WriteRunLength(tr: seq<Machine>, ls: seq<Label>, port: nat, t: Table, cs: seq<Cell>)
    requires port < PORTS && WriteRun(tr, ls, port, t, cs)
    ensures |tr| == |ls| + 1
  {
  }

  /** A gather that races with table writes, under none of which it leaves its arrays, can send
      bytes that earlier frames left in the payload, if and only if some string has channels at
      some moment, and later fewer than later still. */
  lemma SendsStaleIff(port: nat, t: Table, cs: seq<Cell>)
    requires port < PORTS && RaceSafe(Versions(t, cs), port)
    ensures SendsStale(port, t, cs) <==> Regrows(Versions(t, cs), port)
  {
    var us := Versions(t, cs);
    if Regrows(us, port) {
      var s: nat, i: nat, l: nat, m: nat :| s < STRINGS && i <= l <= m < |us| && RegrowsAt(us, port, s, i, l, m);
      RegrowthShows(port, t, cs, s, i, l, m);
    } else if SendsStale(port, t, cs) {
      var tr: seq<Machine>, us': seq<Machine>, ls: seq<Label> :| StaleRuns(tr, us', ls, port, t, cs);
      NothingStale(tr, us', ls, port, t, cs);
      assert false;
    }
  }

  // ----- a message with a new sequence number

  /** The slot had channels and is given some, or is given some, then fewer than later. */
  ghost predicate GivenAgain(t: Table, es: seq<Entry>, k: nat)
    requires k < SLOTS
  {
    || (t.counts[k] != 0 && exists j :: 0 <= j < |es| && SlotOf(es[j]) == k && es[j].count != 0)
    || exists a, b, c :: 0 <= a <= b <= c < |es| && GivenLess(es, k, a, b, c)
  }

  predicate GivenLess(es: seq<Entry>, k: nat, a: nat, b: nat, c: nat)
    requires a < |es| && b < |es| && c < |es|
  {
    && SlotOf(es[a]) == SlotOf(es[b]) == SlotOf(es[c]) == k
    && es[a].count != 0 && es[b].count < es[c].count
  }

  /** The entries set when the first `v` cells of a fresh message are written. */
  function EntriesSet(v: nat): nat {
    if v <= 2 * SLOTS then 0 else (v - 2 * SLOTS + 1) / 2
  }

  /** What one cell of a fresh message does to a slot's count. */
  lemma FreshCellAt(es: seq<Entry>, i: nat, u: Table, k: nat)
    requires i < |FreshCells(es)| && k < SLOTS
    ensures EntriesSet(i) <= EntriesSet(i + 1) <= |es| && EntriesSet(i + 1) <= EntriesSet(i) + 1
    ensures EntriesSet(i) < EntriesSet(i + 1) ==> 2 * SLOTS <= i
    ensures Written(u, FreshCells(es)[i]).counts[k] ==
            if EntriesSet(i) < EntriesSet(i + 1) && SlotOf(es[EntriesSet(i)]) == k then es[EntriesSet(i)].count
            else if i == 2 * k then 0
            else u.counts[k]
  {
  }

  lemma LastForOneMore(es: seq<Entry>, n: nat, k: nat)
    requires n < |es|
    ensures LastFor(es[..n + 1], k) == if SlotOf(es[n]) == k then n else LastFor(es[..n], k)
  {
    assert es[..n + 1][..n] == es[..n];
  }

  /** A slot's count when `v` cells of a fresh message are written. */
  function FreshCount(t: Table, es: seq<Entry>, k: nat, v: nat): int
    requires k < SLOTS && EntriesSet(v) <= |es|
  {
    var j := LastFor(es[..EntriesSet(v)], k);
    if 0 <= j then es[j].count else if v <= 2 * k then t.counts[k] else 0
  }

  lemma FreshCountOneMore(t: Table, es: seq<Entry>, k: nat, i: nat)
    requires k < SLOTS && i < |FreshCells(es)|
    ensures EntriesSet(i) <= EntriesSet(i + 1) <= |es|
    ensures FreshCount(t, es, k, i + 1) ==
            if EntriesSet(i) < EntriesSet(i + 1) && SlotOf(es[EntriesSet(i)]) == k then es[EntriesSet(i)].count
            else if i == 2 * k then 0
            else FreshCount(t, es, k, i)
  {
    if EntriesSet(i) < EntriesSet(i + 1) {
      LastForOneMore(es, EntriesSet(i), k);
    }
    hide LastFor;
  }

  lemma {:induction false} FreshCountAt(t: Table, es: seq<Entry>, k: nat, v: nat)
    requires k < SLOTS && v <= |FreshCells(es)|
    ensures EntriesSet(v) <= |es|
    ensures Versions(t, FreshCells(es))[v].counts[k] == FreshCount(t, es, k, v)
  {
    if v == 0 {
      assert es[..0] == [];
    } else {
      hide FreshCells, Versions, AfterCells, FreshCount, EntriesSet, SlotOf, LastFor;
      FreshCountAt(t, es, k, v - 1);
      FreshCountOneMore(t, es, k, v - 1);
      FreshCellAt(es, v - 1, Versions(t, FreshCells(es))[v - 1], k);
    }
  }

  /** The version in which entry `j` has just set its count. */
  function VersionOf(j: nat): nat {
    2 * SLOTS + 2 * j + 1
  }

  lemma CountOfEntry(t: Table, es: seq<Entry>, k: nat, j: nat)
    requires k < SLOTS && j < |es| && SlotOf(es[j]) == k
    ensures VersionOf(j) <= |FreshCells(es)| && Versions(t, FreshCells(es))[VersionOf(j)].counts[k] == es[j].count
  {
    FreshCountAt(t, es, k, VersionOf(j));
    LastForOneMore(es, j, k);
    assert EntriesSet(VersionOf(j)) == j + 1;
    hide FreshCells, LastFor, Versions, AfterCells;
  }

  lemma GivenAgainRegrows(port: nat, t: Table, es: seq<Entry>, s: nat)
    requires port < PORTS && s < STRINGS && RaceSafe(Versions(t, FreshCells(es)), port)
    requires GivenAgain(t, es, Slot(port, s))
    ensures Regrows(Versions(t, FreshCells(es)), port)
  {
    var us, k := Versions(t, FreshCells(es)), Slot(port, s);
    NoNegativeCounts(us, port);
    hide FreshCells, Versions, AfterCells, RaceSafe;
    if t.counts[k] != 0 && exists j :: 0 <= j < |es| && SlotOf(es[j]) == k && es[j].count != 0 {
      var j: nat :| j < |es| && SlotOf(es[j]) == k && es[j].count != 0;
      CountOfEntry(t, es, k, j);
      FreshCountAt(t, es, k, 2 * SLOTS);
      assert es[..0] == [];
      assert RegrowsAt(us, port, s, 0, 2 * SLOTS, VersionOf(j));
    } else {
      var a: nat, b: nat, c: nat :| a <= b <= c < |es| && GivenLess(es, k, a, b, c);
      CountOfEntry(t, es, k, a);
      CountOfEntry(t, es, k, b);
      CountOfEntry(t, es, k, c);
      assert RegrowsAt(us, port, s, VersionOf(a), VersionOf(b), VersionOf(c));
    }
  }

  lemma {:induction false} LastForGrows(es: seq<Entry>, k: nat, n: nat, m: nat)
    requires n <= m <= |es|
    ensures LastFor(es[..n], k) <= LastFor(es[..m], k)
  {
    if n < m {
      LastForGrows(es, k, n, m - 1);
      LastForOneMore(es, m - 1, k);
    }
  }

  lemma RegrowsGivenAgain(port: nat, t: Table, es: seq<Entry>, s: nat, i: nat, l: nat, m: nat)
    requires port < PORTS && s < STRINGS && i <= l <= m <= |FreshCells(es)|
    requires 0 <= Versions(t, FreshCells(es))[l].counts[Slot(port, s)]
    requires RegrowsAt(Versions(t, FreshCells(es)), port, s, i, l, m)
    ensures GivenAgain(t, es, Slot(port, s))
  {
    var k := Slot(port, s);
    FreshCountAt(t, es, k, i);
    FreshCountAt(t, es, k, l);
    FreshCountAt(t, es, k, m);
    LastForGrows(es, k, EntriesSet(i), EntriesSet(l));
    LastForGrows(es, k, EntriesSet(l), EntriesSet(m));
    var a, b, c := LastFor(es[..EntriesSet(i)], k), LastFor(es[..EntriesSet(l)], k), LastFor(es[..EntriesSet(m)], k);
    hide FreshCells, Versions, AfterCells, LastFor, EntriesSet;
    if 0 <= a {
      assert GivenLess(es, k, a, b, c);
    } else {
      assert SlotOf(es[c]) == k && es[c].count != 0;
    }
  }

  /** A configuration with a new sequence number that races with a gather and keeps it inside its
      arrays can make it send bytes of earlier frames, even when it sets what was set before,
      exactly when it gives channels to a string of the port that had some, or to one string
      first some, then fewer than later. */
  lemma NewConfigSendsStaleIff(c: ConfigState, m: ConfigMsg, port: nat)
    requires port < PORTS && c.lastSequence != m.sequence
    requires RaceSafe(Versions(c.table, ConfigCells(c.lastSequence, m)), port)
    ensures SendsStale(port, c.table, ConfigCells(c.lastSequence, m)) <==>
            exists s: nat :: s < STRINGS && GivenAgain(c.table, m.entries, Slot(port, s))
  {
    var t, es := c.table, m.entries;
    assert FreshCells(es) == ConfigCells(c.lastSequence, m);
    SendsStaleIff(port, t, FreshCells(es));
    var us := Versions(t, FreshCells(es));
    NoNegativeCounts(us, port);
    hide FreshCells, ConfigCells, Versions, AfterCells, RaceSafe, SendsStale;
    if s: nat :| s < STRINGS && GivenAgain(t, es, Slot(port, s)) {
      GivenAgainRegrows(port, t, es, s);
    } else if Regrows(us, port) {
      var s: nat, i: nat, l: nat, n: nat :| s < STRINGS && i <= l <= n < |us| && RegrowsAt(us, port, s, i, l, n);
      RegrowsGivenAgain(port, t, es, s, i, l, n);
    }
  }

  // ----- the same configuration once more

  /** One string of one channel. */
  function OneChannel(): Table {
    Written(Cleared(), CountCell(0, 1))
  }

  function OneChannelAgain(): ConfigMsg {
    ConfigMsg(1, [Entry(0, 0, 0, 1)])
  }

  function OneEach(): (caps: seq<int>)
    ensures |caps| == SLOTS
  {
    seq(SLOTS, k => if k == 0 then 1 else 0)
  }

  lemma ExampleWithin()
    ensures WithinCaps(OneChannel(), OneEach(), 0) && MessageWithin(OneChannelAgain(), OneEach(), 0)
    ensures CapSum(OneEach(), 0, STRINGS) == 1
    ensures NeverLeaves(0, OneChannel(), FreshCells(OneChannelAgain().entries))
  {
    assert CapSum(OneEach(), 0, 1) == 1;
    assert CapSum(OneEach(), 0, 3) == 1;
    assert CapSum(OneEach(), 0, 5) == 1;
    assert CapSum(OneEach(), 0, 7) == 1;
    assert WithinCaps(OneChannel(), OneEach(), 0);
    MessageCellsWithin(0, OneChannelAgain(), OneEach(), 0);
    assert ConfigCells(0, OneChannelAgain()) == FreshCells(OneChannelAgain().entries);
    CapsKeepInside(0, OneChannel(), FreshCells(OneChannelAgain().entries), OneEach());
  }

  lemma ExampleTables()
    ensures var us := Versions(OneChannel(), FreshCells(OneChannelAgain().entries));
            us[0] == OneChannel() && us[1].counts[0] == 0 && us[|us| - 1] == OneChannel()
  {
    var es := OneChannelAgain().entries;
    FreshCountAt(OneChannel(), es, 0, 1);
    assert es[..0] == [];
    AfterFresh(OneChannel(), es);
    assert Overlay(Cleared(), es) == Put(Cleared(), es[0]) == OneChannel();
  }

  lemma MatchingIsDelimited(g: Gather, t: Table, port: nat)
    requires port < PORTS && PortSafe(t, port)
    requires g.header == HeaderWords(t, port) && g.b == Offset(t, port, STRINGS) && 0 <= g.b <= MAX_CHANNELS_PER_DEVICE
    ensures Delimited(g)
  {
    HeaderAnnounces(WordsInMemory(g.header), g.data[..g.b], t, port);
    SectionOfAnnounced(Payload(g), g.data[..g.b], t, port, 0);
  }

  lemma ExampleOffsets()
    ensures Offset(OneChannel(), 0, 0) == 0 && Offset(OneChannel(), 0, 1) == Offset(OneChannel(), 0, STRINGS) == 1
    ensures PortSafe(OneChannel(), 0)
  {
    var t := OneChannel();
    FewChannelsAreSafe(t);
    assert Offset(t, 0, 3) == 1;
    assert Offset(t, 0, 5) == 1;
    assert Offset(t, 0, 7) == 1;
  }

  lemma ExampleRegrows()
    ensures var us := Versions(OneChannel(), FreshCells(OneChannelAgain().entries));
            RaceSafe(us, 0) && us[0] == us[|us| - 1] == OneChannel() && RegrowsAt(us, 0, 0, 0, 1, |us| - 1)
    ensures Slot(0, 0) == 0 && OneChannel().counts[0] == 1
  {
    assert Slot(0, 0) == 0 && OneChannel().counts[0] == 1;
    ExampleTables();
    ExampleWithin();
    hide FreshCells, Versions, AfterCells, OneChannel, NeverLeaves, RaceSafe;
    RaceSafeIff(0, OneChannel(), FreshCells(OneChannelAgain().entries));
  }

  lemma HeaderOf(header: seq<uint16>, t: Table, port: nat)
    requires port < PORTS && |header| == STRINGS
    requires forall r: nat :: r < STRINGS ==> header[r] == Narrow(t.counts[Slot(port, r)])
    ensures header == HeaderWords(t, port)
  {
  }

  lemma ReachOldByte(x: byte) returns (h: Gather, n: nat)
    ensures var cs := FreshCells(OneChannelAgain().entries);
            n == |cs| && Reaches(0, OneChannel(), cs, Filled(x), h, n)
    ensures h.pc == Finished && h.b == Offset(OneChannel(), 0, STRINGS) == 1 && h.data[0] == x
    ensures h.header == HeaderWords(OneChannel(), 0)
  {
    hide FreshCells, Versions, AfterCells, Reaches, RaceSafe, Offset, Filled, OneChannel, HeaderWords, RegrowsAt;
    var t, cs := OneChannel(), FreshCells(OneChannelAgain().entries);
    n := |cs|;
    ExampleOffsets();
    ExampleTables();
    ExampleRegrows();
    h := ReachStale(0, t, cs, Filled(x), 0, 0, 1, n);
    HeaderOf(h.header, t, 0);
  }

  /** A well delimited frame that shows an old byte: the only string of the port has one channel,
      a message sets it once more, and the worker reads the length while it is cleared. */
  lemma OldByteSent(x: byte)
    ensures var c, m := ConfigState(OneChannel(), 0), OneChannelAgain();
            && ConfigStep(c, m).table == c.table
            && NeverLeaves(0, c.table, ConfigCells(0, m))
            && exists tr: seq<Machine>, ls: seq<Label> ::
                 && WriteRun(tr, ls, 0, c.table, ConfigCells(0, m)) && tr[0] == Still(c.table, Filled(x))
                 && tr[|ls|].gather.pc == Finished && tr[|ls|].gather.b == 1
                 && Delimited(tr[|ls|].gather) && Payload(tr[|ls|].gather)[COUNTS_SIZE] == x
  {
    var t, m := OneChannel(), OneChannelAgain();
    var cs := FreshCells(m.entries);
    assert cs == ConfigCells(0, m);
    CellsMakeStep(ConfigState(t, 0), m);
    ExampleWithin();
    ExampleTables();
    hide FreshCells, Versions, AfterCells, WriteRun, NeverLeaves, ConfigStep, ConfigCells, Delimited, Payload;
    hide OneChannel;
    ExampleOffsets();
    var h, n := ReachOldByte(x);
    MatchingIsDelimited(h, t, 0);
    PayloadByte(h, 0);
    var tr: seq<Machine>, ls: seq<Label> :| ReachedBy(tr, ls, 0, t, cs, Filled(x), h, n);
    WriteRunLength(tr, ls, 0, t, cs);
    assert tr[0] == Still(t, Filled(x));
  }
}
