/** A gather that races with a configuration message: what the table cells written meanwhile
    can do to the frame, and exactly when the gather stays inside its arrays. */
module Races {
  import opened Limits
  import opened PixelBuffer
  import opened StringTable
  import opened Frames
  import opened Interleaving

  // ----- runs in which cells are written in order

  /** The cells written by a schedule, in order. */
  function CellsWritten(ls: seq<Label>): seq<Cell> {
    if ls == [] then []
    else CellsWritten(ls[..|ls| - 1]) + if ls[|ls| - 1].SetCell? then [ls[|ls| - 1].c] else []
  }

  /** Any schedule of a gather that starts at table `t` while the ZCPP thread writes the cells
      `cs`, in their order, as far as it comes; it writes none while it copies pixels. */
  ghost predicate WriteRun(tr: seq<Machine>, ls: seq<Label>, port: nat, t: Table, cs: seq<Cell>)
    requires port < PORTS
  {
    && IsRun(tr, ls, port) && AtStart(tr[0].gather) && tr[0].table == t
    && CellsWritten(ls) <= cs
    && forall i :: 0 <= i < |ls| && ls[i].SetCell? ==> tr[i].zcpp.Idle?
  }

  lemma {:induction false} CellsWrittenPrefix(ls: seq<Label>, n: nat)
    requires n <= |ls|
    ensures CellsWritten(ls[..n]) <= CellsWritten(ls)
  {
    if n < |ls| {
      CellsWrittenPrefix(ls[..|ls| - 1], n);
      assert ls[..|ls| - 1][..n] == ls[..n];
    } else {
      assert ls[..n] == ls;
    }
  }

  lemma TableOfStep(m: Machine, l: Label, port: nat)
    requires port < PORTS && (l.SetCell? ==> m.zcpp.Idle?)
    ensures Step(m, l, port).table == if l.SetCell? then Written(m.table, l.c) else m.table
  {
  }

  lemma CellsOneMore(ls: seq<Label>, n: nat)
    requires n < |ls|
    ensures CellsWritten(ls[..n + 1]) == CellsWritten(ls[..n]) + if ls[n].SetCell? then [ls[n].c] else []
  {
    assert ls[..n + 1][..n] == ls[..n];
  }

  /** At every moment the table is the version that as many written cells make. */
  lemma {:induction false} TableIsVersion(tr: seq<Machine>, ls: seq<Label>, port: nat, t: Table, cs: seq<Cell>, n: nat)
    requires port < PORTS && WriteRun(tr, ls, port, t, cs) && n <= |ls|
    ensures |CellsWritten(ls[..n])| <= |cs|
    ensures tr[n].table == Versions(t, cs)[|CellsWritten(ls[..n])|]
  {
    hide Step, AfterCells, Versions;
    CellsWrittenPrefix(ls, n);
    if 0 < n {
      var v := |CellsWritten(ls[..n - 1])|;
      TableIsVersion(tr, ls, port, t, cs, n - 1);
      CellsOneMore(ls, n - 1);
      TableOfStep(tr[n - 1], ls[n - 1], port);
      assert tr[n] == Step(tr[n - 1], ls[n - 1], port);
      if ls[n - 1].SetCell? {
        assert CellsWritten(ls[..n])[v] == ls[n - 1].c == cs[v];
      }
    }
  }

  // ----- states a schedule can bring about

  /** Both listeners idle, the pixels dark. */
  function Still(t: Table, g: Gather): Machine {
    Machine(seq(PIXEL_BUFFER_SIZE, i => 0), t, Idle, Idle, g)
  }

  /** Some schedule, in which the first `v` cells have been written, takes the gather from `f` to
      `g`, while the listeners are idle otherwise and the pixels dark. */
  ghost predicate Reaches(port: nat, t: Table, cs: seq<Cell>, f: Gather, g: Gather, v: nat)
    requires port < PORTS && v <= |cs|
  {
    exists tr: seq<Machine>, ls: seq<Label> :: ReachedBy(tr, ls, port, t, cs, f, g, v)
  }

  ghost predicate ReachedBy(tr: seq<Machine>, ls: seq<Label>, port: nat, t: Table, cs: seq<Cell>, f: Gather,
                            g: Gather, v: nat)
    requires port < PORTS && v <= |cs|
  {
    && WriteRun(tr, ls, port, t, cs) && |CellsWritten(ls)| == v
    && tr[0].gather == f && tr[|ls|] == Still(Versions(t, cs)[v], g)
    && forall i :: 0 <= i < |tr| ==> tr[i] == Still(tr[i].table, tr[i].gather)
  }

  lemma ReachStart(port: nat, t: Table, cs: seq<Cell>, f: Gather)
    requires port < PORTS && AtStart(f)
    ensures Reaches(port, t, cs, f, f, 0)
  {
    assert ReachedBy([Still(t, f)], [], port, t, cs, f, f, 0);
  }

  lemma WriteRunOneMore(tr: seq<Machine>, ls: seq<Label>, port: nat, t: Table, cs: seq<Cell>, l: Label)
    requires port < PORTS && WriteRun(tr, ls, port, t, cs) && |CellsWritten(ls)| <= |cs|
    requires l.WorkerStep? || (l.SetCell? && tr[|ls|].zcpp.Idle? && CellsWritten(ls) + [l.c] <= cs)
    ensures WriteRun(tr + [Step(tr[|ls|], l, port)], ls + [l], port, t, cs)
    ensures CellsWritten(ls + [l]) == CellsWritten(ls) + if l.SetCell? then [l.c] else []
  {
    assert (ls + [l])[..|ls|] == ls;
    hide Step;
  }

  lemma ReachOneMore(tr: seq<Machine>, ls: seq<Label>, port: nat, t: Table, cs: seq<Cell>, f: Gather, g: Gather,
                     v: nat, l: Label)
    requires port < PORTS && v <= |cs| && ReachedBy(tr, ls, port, t, cs, f, g, v)
    requires l.WorkerStep? || (v < |cs| && l == SetCell(cs[v]))
    ensures var w := if l.WorkerStep? then v else v + 1;
            var h := if l.WorkerStep? then GatherStep(g, Still(t, g).pixels, Versions(t, cs)[v], port) else g;
            ReachedBy(tr + [Step(tr[|ls|], l, port)], ls + [l], port, t, cs, f, h, w)
  {
    StepStill(Versions(t, cs)[v], g, l, port);
    WriteRunOneMore(tr, ls, port, t, cs, l);
    hide GatherStep, Step, AfterCells, Still, WriteRun, CellsWritten;
  }

  lemma StepStill(u: Table, g: Gather, l: Label, port: nat)
    requires port < PORTS && (l.WorkerStep? || l.SetCell?)
    ensures Step(Still(u, g), l, port) ==
            if l.SetCell? then Still(Written(u, l.c), g) else Still(u, GatherStep(g, Still(u, g).pixels, u, port))
  {
    hide GatherStep;
  }

  lemma ReachWorker(port: nat, t: Table, cs: seq<Cell>, f: Gather, g: Gather, v: nat) returns (h: Gather)
    requires port < PORTS && v <= |cs| && Reaches(port, t, cs, f, g, v)
    ensures h == GatherStep(g, Still(t, g).pixels, Versions(t, cs)[v], port) && Reaches(port, t, cs, f, h, v)
  {
    hide GatherStep;
    var tr: seq<Machine>, ls: seq<Label> :| ReachedBy(tr, ls, port, t, cs, f, g, v);
    ReachOneMore(tr, ls, port, t, cs, f, g, v, WorkerStep);
    h := GatherStep(g, Still(t, g).pixels, Versions(t, cs)[v], port);
  }

  /** The cells up to version `w` are written while the worker waits. */
  lemma {:induction false} ReachVersion(port: nat, t: Table, cs: seq<Cell>, f: Gather, g: Gather, v: nat, w: nat)
    requires port < PORTS && v <= w <= |cs| && Reaches(port, t, cs, f, g, v)
    ensures Reaches(port, t, cs, f, g, w)
    decreases w - v
  {
    if v < w {
      var tr: seq<Machine>, ls: seq<Label> :| ReachedBy(tr, ls, port, t, cs, f, g, v);
      ReachOneMore(tr, ls, port, t, cs, f, g, v, SetCell(cs[v]));
      ReachVersion(port, t, cs, f, g, v + 1, w);
    }
  }

  /** The copy of `n` bytes from `src` to offset `b` leaves neither the pixels nor the payload. */
  predicate CopyInside(src: int, n: int, b: int) {
    StringInRange(n, src) && (n == 0 || (0 <= b && b + n <= MAX_CHANNELS_PER_DEVICE))
  }

  /** A copy under way has been inside so far. */
  predicate InsideSoFar(g: Gather) {
    g.pc.CopyBytes? && (g.pc.i == 0 ||
      (&& g.pc.i <= g.pc.n && 0 <= g.pc.src && g.pc.src + g.pc.i <= PIXEL_BUFFER_SIZE
       && 0 <= g.b && g.b + g.pc.i <= MAX_CHANNELS_PER_DEVICE))
  }

  /** From `g` to `h` the bytes of the payload outside a range are as they were. */
  ghost predicate KeptOutside(g: Gather, h: Gather, low: int, high: int) {
    forall p :: 0 <= p < MAX_CHANNELS_PER_DEVICE && !(low <= p < high) ==> h.data[p] == g.data[p]
  }

  lemma CopyOneStep(g: Gather, px: Pixels, u: Table, port: nat)
    requires port < PORTS && InsideSoFar(g)
    ensures var h := GatherStep(g, px, u, port);
            && h.a == g.a && h.b == g.b && h.header == g.header && KeptOutside(g, h, g.b, g.b + g.pc.n)
            && if h.pc.CopyBytes?
               then InsideSoFar(h) && h.pc == CopyBytes(g.pc.src, g.pc.n, g.pc.i + 1) && g.pc.i < g.pc.n
               else h.pc == if CopyInside(g.pc.src, g.pc.n, g.b) then Advance else Fault
  {
  }

  /** A copy, left to itself, ends before the advance if it is inside, else in a fault. */
  lemma {:induction false} ReachCopied(port: nat, t: Table, cs: seq<Cell>, f: Gather, g: Gather, v: nat)
    returns (h: Gather)
    requires port < PORTS && v <= |cs| && Reaches(port, t, cs, f, g, v) && InsideSoFar(g)
    ensures Reaches(port, t, cs, f, h, v) && h.a == g.a && h.b == g.b && h.header == g.header
    ensures h.pc == if CopyInside(g.pc.src, g.pc.n, g.b) then Advance else Fault
    ensures KeptOutside(g, h, g.b, g.b + g.pc.n)
    decreases g.pc.n - g.pc.i
  {
    hide Reaches, GatherStep, CopyInside, InsideSoFar;
    CopyOneStep(g, Still(t, g).pixels, Versions(t, cs)[v], port);
    h := ReachWorker(port, t, cs, f, g, v);
    if h.pc.CopyBytes? {
      h := ReachCopied(port, t, cs, f, h, v);
    }
  }

  /** Under one table, string `a` at offset `b` is gathered without a fault. */
  predicate StringFitsAt(u: Table, port: nat, a: nat, b: int)
    requires port < PORTS && a < STRINGS
  {
    var k := Slot(port, a);
    u.counts[k] == 0 || CopyInside(u.starts[k], u.counts[k], b)
  }

  /** The gather stands before the next string, `n` channels on; other bytes of the payload are
      as they were. */
  ghost predicate Passed(g: Gather, h: Gather, n: int) {
    && h.a == g.a + 1 && h.b == g.b + n && h.pc == (if h.a < STRINGS then StoreCount else Finished)
    && KeptOutside(g, h, g.b, h.b)
  }

  /** The worker alone, from the test of a string with channels to its copy. */
  lemma ReachCopy(port: nat, t: Table, cs: seq<Cell>, f: Gather, g: Gather, v: nat) returns (h: Gather)
    requires port < PORTS && v <= |cs| && Reaches(port, t, cs, f, g, v) && g.pc == TestCount
    requires Versions(t, cs)[v].counts[Slot(port, g.a)] != 0
    ensures var u, k := Versions(t, cs)[v], Slot(port, g.a);
            h == g.(pc := CopyBytes(u.starts[k], u.counts[k], 0)) && Reaches(port, t, cs, f, h, v)
  {
    hide Reaches;
    h := ReachWorker(port, t, cs, f, g, v);
    h := ReachWorker(port, t, cs, f, h, v);
    h := ReachWorker(port, t, cs, f, h, v);
  }

  /** The worker alone, from the test of a string to the next string or a fault. */
  lemma ReachPastTest(port: nat, t: Table, cs: seq<Cell>, f: Gather, g: Gather, v: nat) returns (h: Gather)
    requires port < PORTS && v <= |cs| && Reaches(port, t, cs, f, g, v) && g.pc == TestCount
    ensures Reaches(port, t, cs, f, h, v)
    ensures var u := Versions(t, cs)[v];
            if StringFitsAt(u, port, g.a, g.b)
            then Passed(g, h, u.counts[Slot(port, g.a)]) && h.header == g.header
            else h.pc == Fault
  {
    hide Reaches, CopyInside;
    if Versions(t, cs)[v].counts[Slot(port, g.a)] == 0 {
      h := ReachWorker(port, t, cs, f, g, v);
    } else {
      h := ReachCopy(port, t, cs, f, g, v);
      h := ReachCopied(port, t, cs, f, h, v);
      if h.pc == Advance {
        h := ReachWorker(port, t, cs, f, h, v);
      }
    }
  }

  lemma ReachPastString(port: nat, t: Table, cs: seq<Cell>, f: Gather, g: Gather, v: nat) returns (h: Gather)
    requires port < PORTS && v <= |cs| && Reaches(port, t, cs, f, g, v) && g.pc == StoreCount
    ensures Reaches(port, t, cs, f, h, v)
    ensures var u := Versions(t, cs)[v];
            if StringFitsAt(u, port, g.a, g.b)
            then Passed(g, h, u.counts[Slot(port, g.a)])
                 && h.header == g.header[g.a := Narrow(u.counts[Slot(port, g.a)])]
            else h.pc == Fault
  {
    hide Reaches, StringFitsAt;
    h := ReachWorker(port, t, cs, f, g, v);
    h := ReachPastTest(port, t, cs, f, h, v);
  }

  /** Under table `u` the worker has come from `g`, before one string, to `h`, before string `s`. */
  ghost predicate Walked(g: Gather, h: Gather, u: Table, port: nat, s: nat)
    requires port < PORTS && g.a <= s <= STRINGS
  {
    && AtString(h, s) && KeptOutside(g, h, g.b, h.b)
    && h.b == g.b + Offset(u, port, s) - Offset(u, port, g.a) && g.b <= h.b <= MAX_CHANNELS_PER_DEVICE
    && (forall r: nat :: g.a <= r < s ==> StringInRange(u.counts[Slot(port, r)], u.starts[Slot(port, r)]))
    && (forall r: nat :: r < STRINGS ==>
          h.header[r] == if g.a <= r < s then Narrow(u.counts[Slot(port, r)]) else g.header[r])
  }

  lemma WalkedNowhere(g: Gather, u: Table, port: nat)
    requires port < PORTS && AtString(g, g.a) && g.a <= STRINGS && 0 <= g.b <= MAX_CHANNELS_PER_DEVICE
    ensures Walked(g, g, u, port, g.a)
  {
  }

  lemma WalkedOneMore(g: Gather, m: Gather, h: Gather, u: Table, port: nat, s: nat)
    requires port < PORTS && g.a < s <= STRINGS && 0 <= g.b
    requires StringFitsAt(u, port, g.a, g.b) && g.b + u.counts[Slot(port, g.a)] <= MAX_CHANNELS_PER_DEVICE
    requires Passed(g, m, u.counts[Slot(port, g.a)])
    requires m.header == g.header[g.a := Narrow(u.counts[Slot(port, g.a)])]
    requires Walked(m, h, u, port, s)
    ensures Walked(g, h, u, port, s)
  {
    assert Offset(u, port, g.a + 1) == Offset(u, port, g.a) + u.counts[Slot(port, g.a)];
  }

  /** Under one table, the worker alone comes to string `s` or faults before; under a safe
      table it does not fault. */
  lemma {:induction false} ReachString(port: nat, t: Table, cs: seq<Cell>, f: Gather, g: Gather, v: nat, s: nat)
    returns (h: Gather)
    requires port < PORTS && v <= |cs| && Reaches(port, t, cs, f, g, v) && AtString(g, g.a) && g.a <= s <= STRINGS
    requires 0 <= g.b <= MAX_CHANNELS_PER_DEVICE
    ensures Reaches(port, t, cs, f, h, v)
    ensures h.pc == Fault || Walked(g, h, Versions(t, cs)[v], port, s)
    ensures PortSafe(Versions(t, cs)[v], port) && g.b == Offset(Versions(t, cs)[v], port, g.a) ==> h.pc != Fault
    decreases s - g.a
  {
    hide Reaches, Walked, KeptOutside;
    if g.a == s {
      h := g;
      WalkedNowhere(g, Versions(t, cs)[v], port);
    } else {
      var u := Versions(t, cs)[v];
      if PortSafe(u, port) {
        PlaceOfString(u, port, g.a);
      }
      var m := ReachPastString(port, t, cs, f, g, v);
      h := m;
      if m.pc != Fault {
        h := ReachString(port, t, cs, f, m, v, s);
        if h.pc != Fault {
          WalkedOneMore(g, m, h, u, port, s);
        }
      }
    }
  }

  // ----- exactly when no schedule leads outside

  /** What string `s` can be made of by a race that reads its count for the test in version
      `i`, its start in version `j` and its count for the copy in version `l`. */
  predicate MixInRange(us: seq<Table>, port: nat, s: nat, i: nat, j: nat, l: nat)
    requires port < PORTS && s < STRINGS && i < |us| && j < |us| && l < |us|
  {
    var k := Slot(port, s);
    us[i].counts[k] != 0 ==> StringInRange(us[l].counts[k], us[j].starts[k])
  }

  /** A version for each of the first strings, later strings not in earlier versions. */
  predicate Choice(vs: seq<nat>, n: nat) {
    && |vs| <= STRINGS
    && (forall i :: 0 <= i < |vs| ==> vs[i] < n)
    && (forall i, j :: 0 <= i <= j < |vs| ==> vs[i] <= vs[j])
  }

  /** The channels of the strings, each by its own version. */
  function ChoiceSum(us: seq<Table>, port: nat, vs: seq<nat>): int
    requires port < PORTS && Choice(vs, |us|)
  {
    if vs == [] then 0
    else ChoiceSum(us, port, vs[..|vs| - 1]) + us[vs[|vs| - 1]].counts[Slot(port, |vs| - 1)]
  }

  ghost predicate MixesInRange(us: seq<Table>, port: nat)
    requires port < PORTS
  {
    forall s: nat, i: nat, j: nat, l: nat :: s < STRINGS && i <= j <= l < |us| ==> MixInRange(us, port, s, i, j, l)
  }

  ghost predicate ChoicesFit(us: seq<Table>, port: nat)
    requires port < PORTS
  {
    forall vs: seq<nat> :: |vs| == STRINGS && Choice(vs, |us|) ==> ChoiceSum(us, port, vs) <= MAX_CHANNELS_PER_DEVICE
  }

  /** Whichever versions a gather reads in passing, it stays inside its arrays. */
  ghost predicate RaceSafe(us: seq<Table>, port: nat)
    requires port < PORTS
  {
    MixesInRange(us, port) && ChoicesFit(us, port)
  }

  /** The gather has not left its arrays, and if it has finished its length fits the payload. */
  predicate Inside(g: Gather) {
    g.pc != Fault && (g.pc == Finished ==> 0 <= g.b <= MAX_CHANNELS_PER_DEVICE)
  }

  ghost predicate NeverLeaves(port: nat, t: Table, cs: seq<Cell>)
    requires port < PORTS
  {
    forall tr: seq<Machine>, ls: seq<Label> :: WriteRun(tr, ls, port, t, cs) ==> Inside(tr[|ls|].gather)
  }

  // ----- safe versions keep every race inside

  /** The versions a gather has read: for the strings done, and for the string under way. */
  datatype Reads = Reads(done: seq<nat>, test: nat, start: nat, length: nat)

  ghost predicate RaceInv(g: Gather, us: seq<Table>, port: nat, v: nat, r: Reads)
    requires port < PORTS && v < |us|
  {
    && g.pc != Fault && |r.done| == g.a && Choice(r.done, v + 1) && g.b == ChoiceSum(us, port, r.done)
    && (g.a == STRINGS <==> g.pc == Finished)
    && (g.pc.ReadStart? || g.pc.ReadLength? || g.pc.CopyBytes? || g.pc.Advance? ==>
          && (r.done != [] ==> r.done[|r.done| - 1] <= r.test) && r.test <= v
          && us[r.test].counts[Slot(port, g.a)] != 0)
    && (g.pc.Advance? ==> r.test <= r.length <= v)
    && (g.pc.ReadLength? || g.pc.CopyBytes? ==>
          r.test <= r.start <= v && g.pc.src == us[r.start].starts[Slot(port, g.a)])
    && (g.pc.CopyBytes? ==>
          && r.start <= r.length <= v && g.pc.n == us[r.length].counts[Slot(port, g.a)]
          && g.pc.i <= g.pc.n)
  }

  lemma NoNegativeCounts(us: seq<Table>, port: nat)
    requires port < PORTS && MixesInRange(us, port)
    ensures forall i: nat, s: nat :: i < |us| && s < STRINGS ==> 0 <= us[i].counts[Slot(port, s)]
  {
    forall i: nat, s: nat | i < |us| && s < STRINGS
      ensures 0 <= us[i].counts[Slot(port, s)]
    {
      assert MixInRange(us, port, s, i, i, i);
    }
  }

  lemma ChoiceOneMore(us: seq<Table>, port: nat, vs: seq<nat>, v: nat)
    requires port < PORTS && |vs| < STRINGS && Choice(vs, |us|) && v < |us|
    requires vs != [] ==> vs[|vs| - 1] <= v
    ensures Choice(vs + [v], |us|)
    ensures ChoiceSum(us, port, vs + [v]) == ChoiceSum(us, port, vs) + us[v].counts[Slot(port, |vs|)]
  {
    assert (vs + [v])[..|vs|] == vs;
  }

  /** Part of a choice is at most a whole one: the rest can follow in the last version. */
  lemma {:induction false} PartOfChoice(us: seq<Table>, port: nat, vs: seq<nat>, v: nat)
    requires port < PORTS && RaceSafe(us, port) && Choice(vs, |us|) && v < |us|
    requires vs != [] ==> vs[|vs| - 1] <= v
    ensures 0 <= ChoiceSum(us, port, vs) <= MAX_CHANNELS_PER_DEVICE
    decreases STRINGS - |vs|
  {
    NoNegativeCounts(us, port);
    ChoiceNonNegative(us, port, vs);
    if |vs| < STRINGS {
      ChoiceOneMore(us, port, vs, v);
      PartOfChoice(us, port, vs + [v], v);
    }
  }

  lemma {:induction false} ChoiceNonNegative(us: seq<Table>, port: nat, vs: seq<nat>)
    requires port < PORTS && Choice(vs, |us|)
    requires forall i: nat, s: nat :: i < |us| && s < STRINGS ==> 0 <= us[i].counts[Slot(port, s)]
    ensures 0 <= ChoiceSum(us, port, vs)
  {
    if vs != [] {
      ChoiceNonNegative(us, port, vs[..|vs| - 1]);
    }
  }

  lemma CopyFits(g: Gather, us: seq<Table>, port: nat, v: nat, r: Reads)
    requires port < PORTS && v < |us| && RaceSafe(us, port) && RaceInv(g, us, port, v, r) && g.pc.CopyBytes?
    ensures 0 <= g.b && g.b + g.pc.n <= MAX_CHANNELS_PER_DEVICE
  {
    hide RaceSafe, ChoiceSum;
    ChoiceOneMore(us, port, r.done, r.length);
    PartOfChoice(us, port, r.done, r.length);
    PartOfChoice(us, port, r.done + [r.length], r.length);
  }

  /** The copy under way stays inside. */
  lemma CopyStaysInside(g: Gather, us: seq<Table>, port: nat, v: nat, r: Reads)
    requires port < PORTS && v < |us| && RaceSafe(us, port) && RaceInv(g, us, port, v, r) && g.pc.CopyBytes?
    ensures StringInRange(g.pc.n, g.pc.src)
    ensures 0 <= g.b && g.b + g.pc.n <= MAX_CHANNELS_PER_DEVICE
  {
    hide ChoicesFit, ChoiceSum, Choice, StringInRange;
    assert MixInRange(us, port, g.a, r.test, r.start, r.length);
    CopyFits(g, us, port, v, r);
  }

  function NextReads(g: Gather, us: seq<Table>, port: nat, v: nat, r: Reads): Reads
    requires port < PORTS && v < |us|
  {
    match g.pc
    case TestCount =>
      if us[v].counts[Slot(port, g.a)] != 0 then r.(test := v) else r.(done := r.done + [v])
    case ReadStart => r.(start := v)
    case ReadLength(_) => r.(length := v)
    case Advance => r.(done := r.done + [v])
    case _ => r
  }

  lemma StringRead(g: Gather, us: seq<Table>, port: nat, v: nat, r: Reads)
    requires port < PORTS && v < |us| && g.pc != Finished && g.pc != Fault
    requires |r.done| == g.a && Choice(r.done, v + 1)
    requires g.b == ChoiceSum(us, port, r.done) + us[v].counts[Slot(port, g.a)]
    ensures RaceInv(NextString(g), us, port, v, r.(done := r.done + [v]))
  {
    ChoiceOneMore(us, port, r.done, v);
    assert Choice(r.done + [v], v + 1);
    hide ChoiceSum, Choice;
  }

  lemma RaceStepCopying(g: Gather, px: Pixels, us: seq<Table>, port: nat, v: nat, r: Reads)
    requires port < PORTS && v < |us| && RaceSafe(us, port) && RaceInv(g, us, port, v, r) && g.pc.CopyBytes?
    ensures RaceInv(GatherStep(g, px, us[v], port), us, port, v, NextReads(g, us, port, v, r))
  {
    CopyStaysInside(g, us, port, v, r);
    hide RaceSafe, ChoiceSum, Choice, StringInRange;
  }

  lemma RaceStepLength(g: Gather, px: Pixels, us: seq<Table>, port: nat, v: nat, r: Reads)
    requires port < PORTS && v < |us| && RaceSafe(us, port) && RaceInv(g, us, port, v, r) && g.pc.ReadLength?
    ensures RaceInv(GatherStep(g, px, us[v], port), us, port, v, NextReads(g, us, port, v, r))
  {
    assert MixInRange(us, port, g.a, r.test, r.start, v);
    hide RaceSafe, MixesInRange, ChoicesFit, ChoiceSum, Choice;
  }

  /** The steps that end a string. */
  lemma RaceStepEnding(g: Gather, px: Pixels, us: seq<Table>, port: nat, v: nat, r: Reads)
    requires port < PORTS && v < |us| && RaceInv(g, us, port, v, r)
    requires g.pc == Advance || (g.pc == TestCount && us[v].counts[Slot(port, g.a)] == 0)
    ensures RaceInv(GatherStep(g, px, us[v], port), us, port, v, NextReads(g, us, port, v, r))
  {
    hide ChoiceSum, Choice;
    if g.pc == Advance {
      StringRead(g.(b := g.b + us[v].counts[Slot(port, g.a)]), us, port, v, r);
    } else {
      StringRead(g, us, port, v, r);
    }
  }

  lemma RaceStepReading(g: Gather, px: Pixels, us: seq<Table>, port: nat, v: nat, r: Reads)
    requires port < PORTS && v < |us| && RaceInv(g, us, port, v, r)
    requires g.pc == StoreCount || g.pc == ReadStart || g.pc == Finished
             || (g.pc == TestCount && us[v].counts[Slot(port, g.a)] != 0)
    ensures RaceInv(GatherStep(g, px, us[v], port), us, port, v, NextReads(g, us, port, v, r))
  {
    hide ChoiceSum;
  }

  lemma RaceStep(g: Gather, px: Pixels, us: seq<Table>, port: nat, v: nat, r: Reads)
    requires port < PORTS && v < |us| && RaceSafe(us, port) && RaceInv(g, us, port, v, r)
    ensures RaceInv(GatherStep(g, px, us[v], port), us, port, v, NextReads(g, us, port, v, r))
  {
    assert g.pc != Fault;
    hide RaceSafe, RaceInv, GatherStep, NextReads;
    match g.pc
    case CopyBytes(_, _, _) => RaceStepCopying(g, px, us, port, v, r);
    case ReadLength(_) => RaceStepLength(g, px, us, port, v, r);
    case Advance => RaceStepEnding(g, px, us, port, v, r);
    case TestCount =>
      if us[v].counts[Slot(port, g.a)] == 0 {
        RaceStepEnding(g, px, us, port, v, r);
      } else {
        RaceStepReading(g, px, us, port, v, r);
      }
    case _ => RaceStepReading(g, px, us, port, v, r);
  }

  lemma RaceInvLater(g: Gather, us: seq<Table>, port: nat, v: nat, w: nat, r: Reads)
    requires port < PORTS && v <= w < |us| && RaceInv(g, us, port, v, r)
    ensures RaceInv(g, us, port, w, r)
  {
    hide ChoiceSum;
  }

  lemma StartRaceInv(g: Gather, us: seq<Table>, port: nat)
    requires port < PORTS && us != [] && AtStart(g)
    ensures RaceInv(g, us, port, 0, Reads([], 0, 0, 0))
  {
  }

  lemma {:induction false} RaceKeepsInv(tr: seq<Machine>, ls: seq<Label>, port: nat, t: Table, cs: seq<Cell>, n: nat)
    returns (r: Reads)
    requires port < PORTS && WriteRun(tr, ls, port, t, cs) && n <= |ls| && RaceSafe(Versions(t, cs), port)
    ensures |CellsWritten(ls[..n])| <= |cs|
    ensures RaceInv(tr[n].gather, Versions(t, cs), port, |CellsWritten(ls[..n])|, r)
  {
    hide Step, GatherStep, NextReads, RaceSafe, RaceInv, Versions, AfterCells;
    TableIsVersion(tr, ls, port, t, cs, n);
    if n == 0 {
      r := Reads([], 0, 0, 0);
      StartRaceInv(tr[0].gather, Versions(t, cs), port);
    } else {
      TableIsVersion(tr, ls, port, t, cs, n - 1);
      r := RaceKeepsInv(tr, ls, port, t, cs, n - 1);
      CellsOneMore(ls, n - 1);
      GatherOfStep(tr[n - 1], ls[n - 1], port);
      assert tr[n] == Step(tr[n - 1], ls[n - 1], port);
      if ls[n - 1].WorkerStep? {
        var v := |CellsWritten(ls[..n - 1])|;
        RaceStep(tr[n - 1].gather, tr[n - 1].pixels, Versions(t, cs), port, v, r);
        r := NextReads(tr[n - 1].gather, Versions(t, cs), port, v, r);
      } else {
        RaceInvLater(tr[n].gather, Versions(t, cs), port, |CellsWritten(ls[..n - 1])|, |CellsWritten(ls[..n])|, r);
      }
    }
  }

  lemma GatherOfStep(m: Machine, l: Label, port: nat)
    requires port < PORTS
    ensures Step(m, l, port).gather == if l.WorkerStep? then GatherStep(m.gather, m.pixels, m.table, port) else m.gather
  {
  }

  lemma SafeNeverLeaves(port: nat, t: Table, cs: seq<Cell>)
    requires port < PORTS && RaceSafe(Versions(t, cs), port)
    ensures NeverLeaves(port, t, cs)
  {
    forall tr: seq<Machine>, ls: seq<Label> | WriteRun(tr, ls, port, t, cs)
      ensures Inside(tr[|ls|].gather)
    {
      var r := RaceKeepsInv(tr, ls, port, t, cs, |ls|);
      assert ls[..|ls|] == ls;
      PartOfChoice(Versions(t, cs), port, r.done, |CellsWritten(ls)|);
    }
  }

  // ----- unsafe versions let some race out

  lemma ReachedLeaves(port: nat, t: Table, cs: seq<Cell>, g: Gather, v: nat)
    requires port < PORTS && v <= |cs| && Reaches(port, t, cs, Fresh(), g, v) && !Inside(g)
    ensures !NeverLeaves(port, t, cs)
  {
    var tr: seq<Machine>, ls: seq<Label> :| ReachedBy(tr, ls, port, t, cs, Fresh(), g, v);
  }

  function Fresh(): Gather {
    Gather(0, StoreCount, 0, seq(STRINGS, i => 0), seq(MAX_CHANNELS_PER_DEVICE, i => 0))
  }

  /** The test in version `i`, the start from version `j`, the length from version `l`. */
  lemma BadMixFaults(port: nat, t: Table, cs: seq<Cell>, s: nat, i: nat, j: nat, l: nat)
    returns (h: Gather, v: nat)
    requires port < PORTS && s < STRINGS && i <= j <= l <= |cs|
    requires !MixInRange(Versions(t, cs), port, s, i, j, l)
    ensures v <= |cs| && Reaches(port, t, cs, Fresh(), h, v) && h.pc == Fault
  {
    hide Reaches;
    ReachStart(port, t, cs, Fresh());
    v := 0;
    h := ReachString(port, t, cs, Fresh(), Fresh(), 0, s);
    if h.pc != Fault {
      ReachVersion(port, t, cs, Fresh(), h, 0, i);
      h := ReachWorker(port, t, cs, Fresh(), h, i);
      h := ReachWorker(port, t, cs, Fresh(), h, i);
      ReachVersion(port, t, cs, Fresh(), h, i, j);
      h := ReachWorker(port, t, cs, Fresh(), h, j);
      ReachVersion(port, t, cs, Fresh(), h, j, l);
      h := ReachWorker(port, t, cs, Fresh(), h, l);
      h := ReachCopied(port, t, cs, Fresh(), h, l);
      v := l;
    }
  }

  /** The strings up to `a`, each gathered in its version. */
  lemma {:induction false} ReachChoice(port: nat, t: Table, cs: seq<Cell>, vs: seq<nat>, a: nat)
    returns (h: Gather, v: nat)
    requires port < PORTS && Choice(vs, |cs| + 1) && |vs| == STRINGS && a <= STRINGS
    ensures v == (if a == 0 then 0 else vs[a - 1]) && v <= |cs| && Reaches(port, t, cs, Fresh(), h, v)
    ensures h.pc == Fault || (AtString(h, a) && h.b == ChoiceSum(Versions(t, cs), port, vs[..a]))
  {
    hide Reaches;
    if a == 0 {
      ReachStart(port, t, cs, Fresh());
      h, v := Fresh(), 0;
    } else {
      h, v := ReachChoice(port, t, cs, vs, a - 1);
      assert vs[..a][..a - 1] == vs[..a - 1];
      ReachVersion(port, t, cs, Fresh(), h, v, vs[a - 1]);
      v := vs[a - 1];
      if h.pc != Fault {
        h := ReachPastString(port, t, cs, Fresh(), h, v);
      }
    }
  }

  lemma BadChoiceLeaves(port: nat, t: Table, cs: seq<Cell>, vs: seq<nat>)
    requires port < PORTS && Choice(vs, |cs| + 1) && |vs| == STRINGS
    requires MAX_CHANNELS_PER_DEVICE < ChoiceSum(Versions(t, cs), port, vs)
    ensures !NeverLeaves(port, t, cs)
  {
    var h, v := ReachChoice(port, t, cs, vs, STRINGS);
    assert vs[..STRINGS] == vs;
    ReachedLeaves(port, t, cs, h, v);
  }

  /** The worker gathers a port while the listener writes table cells. No schedule leads outside
      the pixel buffer or the payload if and only if every mix of versions that a string can be
      read in is in range, and every choice of versions for the strings fits the payload. */
  lemma RaceSafeIff(port: nat, t: Table, cs: seq<Cell>)
    requires port < PORTS
    ensures NeverLeaves(port, t, cs) <==> RaceSafe(Versions(t, cs), port)
  {
    var us := Versions(t, cs);
    if RaceSafe(us, port) {
      SafeNeverLeaves(port, t, cs);
    } else if !MixesInRange(us, port) {
      var s: nat, i: nat, j: nat, l: nat :| s < STRINGS && i <= j <= l < |us| && !MixInRange(us, port, s, i, j, l);
      var h, v := BadMixFaults(port, t, cs, s, i, j, l);
      ReachedLeaves(port, t, cs, h, v);
    } else {
      var vs: seq<nat> :| |vs| == STRINGS && Choice(vs, |us|) && MAX_CHANNELS_PER_DEVICE < ChoiceSum(us, port, vs);
      BadChoiceLeaves(port, t, cs, vs);
    }
  }

  lemma {:induction false} ChoiceLikeTable(us: seq<Table>, port: nat, vs: seq<nat>, w: nat)
    requires port < PORTS && Choice(vs, |us|) && w < |us|
    requires forall s: nat :: s < |vs| ==> us[vs[s]].counts[Slot(port, s)] == us[w].counts[Slot(port, s)]
    ensures ChoiceSum(us, port, vs) == Offset(us[w], port, |vs|)
  {
    if vs != [] {
      ChoiceLikeTable(us, port, vs[..|vs| - 1], w);
    }
  }

  /** A gather under a table nobody writes is inside exactly when the table is safe. */
  lemma UnwrittenTable(port: nat, t: Table)
    requires port < PORTS
    ensures NeverLeaves(port, t, []) <==> PortSafe(t, port)
  {
    var us := Versions(t, []);
    RaceSafeIff(port, t, []);
    if RaceSafe(us, port) {
      assert forall s: nat :: s < STRINGS && t.counts[Slot(port, s)] != 0 ==> MixInRange(us, port, s, 0, 0, 0);
      NoNegativeCounts(us, port);
      var vs: seq<nat> := seq(STRINGS, i => 0);
      ChoiceLikeTable(us, port, vs, 0);
    } else if PortSafe(t, port) {
      assert forall s: nat :: s < STRINGS ==> StringInRange(t.counts[Slot(port, s)], t.starts[Slot(port, s)]);
      forall vs: seq<nat> | |vs| == STRINGS && Choice(vs, |us|)
        ensures ChoiceSum(us, port, vs) <= MAX_CHANNELS_PER_DEVICE
      {
        ChoiceLikeTable(us, port, vs, 0);
      }
      assert false;
    }
  }

  /** One cell written between two safe tables never drives a gather outside. */
  lemma OneWriteStaysInside(port: nat, t: Table, c: Cell)
    requires port < PORTS && PortSafe(t, port) && PortSafe(Written(t, c), port)
    ensures NeverLeaves(port, t, [c])
  {
    var us := Versions(t, [c]);
    assert us[1] == Written(t, c);
    forall s: nat, i: nat, j: nat, l: nat | s < STRINGS && i <= j <= l < |us|
      ensures MixInRange(us, port, s, i, j, l)
    {
      assert StringInRange(us[j].counts[Slot(port, s)], us[j].starts[Slot(port, s)]);
      assert StringInRange(us[l].counts[Slot(port, s)], us[l].starts[Slot(port, s)]);
    }
    forall vs: seq<nat> | |vs| == STRINGS && Choice(vs, |us|)
      ensures ChoiceSum(us, port, vs) <= MAX_CHANNELS_PER_DEVICE
    {
      var w := if c.CountCell? && c.k / STRINGS == port then vs[c.k % STRINGS] else 0;
      ChoiceLikeTable(us, port, vs, w);
    }
    SafeNeverLeaves(port, t, [c]);
  }

  // ----- a race ends

  /** The largest count of a slot among the versions. */
  function LargestCount(us: seq<Table>, k: nat): (n: nat)
    requires k < SLOTS
    ensures forall i :: 0 <= i < |us| ==> us[i].counts[k] <= n
    ensures n == 0 || exists i :: 0 <= i < |us| && us[i].counts[k] == n
  {
    if us == [] then 0
    else
      var n, last := LargestCount(us[..|us| - 1], k), us[|us| - 1].counts[k];
      if n < last then last else n
  }

  /** The worker steps that the strings from `a` on take at most. */
  function RaceSteps(us: seq<Table>, port: nat, a: nat): nat
    requires port < PORTS && a <= STRINGS
    decreases STRINGS - a
  {
    if a == STRINGS then 0 else 6 + LargestCount(us, Slot(port, a)) + RaceSteps(us, port, a + 1)
  }

  /** The steps left in a string of at most `n` channels. */
  function LeftInString(pc: Pc, n: int): int {
    match pc
    case StoreCount => 6 + n
    case TestCount => 5 + n
    case ReadStart => 4 + n
    case ReadLength(_) => 3 + n
    case CopyBytes(_, length, i) => 2 + length - i
    case _ => 1
  }

  function RaceStepsLeft(g: Gather, us: seq<Table>, port: nat): int
    requires port < PORTS
  {
    if g.pc == Finished then 0
    else LeftInString(g.pc, LargestCount(us, Slot(port, g.a))) + RaceSteps(us, port, g.a + 1)
  }

  /** A copy under way is of at most the largest count. */
  predicate Bounded(g: Gather, us: seq<Table>, port: nat)
    requires port < PORTS
  {
    g.pc.CopyBytes? ==> g.pc.i <= g.pc.n <= LargestCount(us, Slot(port, g.a))
  }

  lemma RaceInvBounded(g: Gather, us: seq<Table>, port: nat, v: nat, r: Reads)
    requires port < PORTS && v < |us| && RaceInv(g, us, port, v, r)
    ensures g.pc != Fault && Bounded(g, us, port)
  {
    hide Choice, ChoiceSum, LargestCount;
  }

  lemma LeftDrops(g: Gather, h: Gather, count: int, n: nat)
    requires g.pc != Fault && g.pc != Finished && h.pc != Fault && Leads(g, h, count)
    requires count <= n && (g.pc.CopyBytes? ==> g.pc.i <= g.pc.n <= n)
    ensures 0 < LeftInString(g.pc, n)
    ensures AtString(h, g.a + 1) || (h.a == g.a && h.pc != Finished && LeftInString(h.pc, n) < LeftInString(g.pc, n))
  {
  }

  lemma StepsLeftDrop(g: Gather, h: Gather, us: seq<Table>, port: nat, v: nat)
    requires port < PORTS && v < |us| && Bounded(g, us, port) && g.pc != Fault && g.pc != Finished
    requires h.pc != Fault && Leads(g, h, us[v].counts[Slot(port, g.a)])
    ensures RaceStepsLeft(h, us, port) < RaceStepsLeft(g, us, port)
  {
    LeftDrops(g, h, us[v].counts[Slot(port, g.a)], LargestCount(us, Slot(port, g.a)));
    StepsLeftAtString(h, us, port);
    hide LargestCount, RaceSteps, Leads, LeftInString;
  }

  lemma StepsLeftAtString(h: Gather, us: seq<Table>, port: nat)
    requires port < PORTS
    ensures h.a <= STRINGS && AtString(h, h.a) ==> RaceStepsLeft(h, us, port) == RaceSteps(us, port, h.a)
  {
    hide LargestCount;
  }

  lemma RaceStepCounts(g: Gather, px: Pixels, us: seq<Table>, port: nat, v: nat, r: Reads)
    requires port < PORTS && v < |us| && RaceSafe(us, port) && RaceInv(g, us, port, v, r)
    ensures 0 <= RaceStepsLeft(g, us, port) && (RaceStepsLeft(g, us, port) == 0 ==> g.pc == Finished)
    ensures g.pc != Finished ==>
              RaceStepsLeft(GatherStep(g, px, us[v], port), us, port) < RaceStepsLeft(g, us, port)
  {
    hide RaceInv, RaceSafe, GatherStep, LargestCount;
    RaceStep(g, px, us, port, v, r);
    RaceInvBounded(g, us, port, v, r);
    RaceInvBounded(GatherStep(g, px, us[v], port), us, port, v, NextReads(g, us, port, v, r));
    if g.pc != Finished {
      StepLeads(g, px, us[v], port);
      StepsLeftDrop(g, GatherStep(g, px, us[v], port), us, port, v);
    }
  }

  /** Every step of the worker before the end brings it nearer. */
  lemma RunStepLeft(tr: seq<Machine>, ls: seq<Label>, port: nat, t: Table, cs: seq<Cell>, n: nat)
    requires port < PORTS && WriteRun(tr, ls, port, t, cs) && n < |ls| && RaceSafe(Versions(t, cs), port)
    ensures var g, h := tr[n].gather, tr[n + 1].gather;
            if ls[n].WorkerStep? && g.pc != Finished
            then RaceStepsLeft(h, Versions(t, cs), port) < RaceStepsLeft(g, Versions(t, cs), port)
            else h == g
  {
    hide RaceSafe, RaceInv, RaceStepsLeft, GatherStep, Step, Versions, AfterCells;
    var m := tr[n];
    TableIsVersion(tr, ls, port, t, cs, n);
    var r := RaceKeepsInv(tr, ls, port, t, cs, n);
    RaceStepCounts(m.gather, m.pixels, Versions(t, cs), port, |CellsWritten(ls[..n])|, r);
    GatherOfStep(m, ls[n], port);
    assert tr[n + 1] == Step(m, ls[n], port);
    FinishedStays(m.gather, m.pixels, m.table, port);
  }

  lemma StartStepsLeft(tr: seq<Machine>, ls: seq<Label>, port: nat, t: Table, cs: seq<Cell>)
    requires port < PORTS && WriteRun(tr, ls, port, t, cs)
    ensures |tr| == |ls| + 1 && WorkerSteps(ls[..0]) == 0
    ensures RaceStepsLeft(tr[0].gather, Versions(t, cs), port) == RaceSteps(Versions(t, cs), port, 0)
  {
    hide RaceStepsLeft, RaceSteps, Versions, AfterCells;
    StepsLeftAtString(tr[0].gather, Versions(t, cs), port);
  }

  lemma {:induction false} RaceStepsTaken(tr: seq<Machine>, ls: seq<Label>, port: nat, t: Table, cs: seq<Cell>, n: nat)
    requires port < PORTS && WriteRun(tr, ls, port, t, cs) && n <= |ls| && RaceSafe(Versions(t, cs), port)
    ensures RaceStepsLeft(tr[n].gather, Versions(t, cs), port) + WorkerSteps(ls[..n])
            <= RaceSteps(Versions(t, cs), port, 0) || tr[n].gather.pc == Finished
  {
    hide RaceSafe, RaceStepsLeft, RaceSteps, Versions, AfterCells, AtStart, WriteRun, WorkerSteps;
    StartStepsLeft(tr, ls, port, t, cs);
    if 0 < n {
      RaceStepsTaken(tr, ls, port, t, cs, n - 1);
      RunStepLeft(tr, ls, port, t, cs, n - 1);
      WorkerStepsOneMore(ls, n - 1);
    }
  }

  /** No schedule of the writes keeps a gather from its end, as long as none leads outside: it has
      finished once the worker has had, for every string, six steps and one for each channel of
      the largest count that the string passes through. */
  lemma RaceEnds(tr: seq<Machine>, ls: seq<Label>, port: nat, t: Table, cs: seq<Cell>)
    requires port < PORTS && WriteRun(tr, ls, port, t, cs) && RaceSafe(Versions(t, cs), port)
    requires RaceSteps(Versions(t, cs), port, 0) <= WorkerSteps(ls)
    ensures tr[|ls|].gather.pc == Finished
  {
    hide RaceSafe, RaceInv, RaceStepsLeft, GatherStep, Step;
    var r := RaceKeepsInv(tr, ls, port, t, cs, |ls|);
    RaceStepsTaken(tr, ls, port, t, cs, |ls|);
    assert ls[..|ls|] == ls;
    var m := tr[|ls|];
    RaceStepCounts(m.gather, m.pixels, Versions(t, cs), port, |CellsWritten(ls)|, r);
  }

  lemma FinishedStays(g: Gather, px: Pixels, u: Table, port: nat)
    requires port < PORTS
    ensures g.pc == Finished ==> GatherStep(g, px, u, port) == g
  {
  }

  // ----- exactly when a frame tears

  /** The counts delimit what is sent. */
  ghost predicate Delimited(g: Gather) {
    0 <= g.b <= MAX_CHANNELS_PER_DEVICE && WellFormedFrame(Payload(g))
  }

  /** The write changes a count of the port's row. */
  predicate ChangesCount(t: Table, c: Cell, port: nat) {
    c.CountCell? && c.k / STRINGS == port && c.v != t.counts[c.k]
  }

  /** Some schedule of the writes sends a frame that its counts do not delimit. */
  ghost predicate Tears(port: nat, t: Table, cs: seq<Cell>)
    requires port < PORTS
  {
    exists tr: seq<Machine>, ls: seq<Label> ::
      WriteRun(tr, ls, port, t, cs) && tr[|ls|].gather.pc == Finished && !Delimited(tr[|ls|].gather)
  }

  ghost predicate AllSafe(us: seq<Table>, port: nat)
    requires port < PORTS
  {
    forall i :: 0 <= i < |us| ==> PortSafe(us[i], port)
  }

  ghost predicate SomeCountChanges(port: nat, t: Table, cs: seq<Cell>) {
    exists i :: 0 <= i < |cs| && ChangesCount(Versions(t, cs)[i], cs[i], port)
  }

  lemma {:induction false} CountsUnchanged(port: nat, t: Table, cs: seq<Cell>, v: nat)
    requires port < PORTS && v <= |cs| && !SomeCountChanges(port, t, cs)
    ensures SameCounts(t, Versions(t, cs)[v], port)
  {
    if 0 < v {
      CountsUnchanged(port, t, cs, v - 1);
      assert !ChangesCount(Versions(t, cs)[v - 1], cs[v - 1], port);
    }
  }

  /** Without a changed count, no schedule leads outside or tears the frame. */
  lemma HarmlessWrites(tr: seq<Machine>, ls: seq<Label>, port: nat, t: Table, cs: seq<Cell>)
    requires port < PORTS && WriteRun(tr, ls, port, t, cs)
    requires AllSafe(Versions(t, cs), port) && !SomeCountChanges(port, t, cs)
    ensures tr[|ls|].gather.pc != Fault
    ensures tr[|ls|].gather.pc == Finished ==> Delimited(tr[|ls|].gather)
  {
    forall i | 0 <= i < |tr|
      ensures PortSafe(tr[i].table, port) && SameCounts(tr[0].table, tr[i].table, port)
    {
      TableIsVersion(tr, ls, port, t, cs, i);
      CountsUnchanged(port, t, cs, |CellsWritten(ls[..i])|);
    }
    GatherRunView(tr, ls, port);
    StepsTaken(tr, ls, port, |ls|);
    if tr[|ls|].gather.pc == Finished {
      DelimitedFrame(tr, ls, port);
    }
  }

  lemma {:induction false} CountChange(t: Table, port: nat, s: nat, v: int, n: nat)
    requires port < PORTS && s < STRINGS && n <= STRINGS
    ensures Offset(Written(t, CountCell(Slot(port, s), v)), port, n)
         == Offset(t, port, n) + if s < n then v - t.counts[Slot(port, s)] else 0
  {
    if 0 < n {
      CountChange(t, port, s, v, n - 1);
      assert Slot(port, n - 1) == Slot(port, s) <==> n - 1 == s;
    }
  }

  /** The header has one table's counts, the data have another length. */
  lemma TornFrame(g: Gather, t: Table, port: nat)
    requires port < PORTS && PortSafe(t, port) && g.header == HeaderWords(t, port)
    requires 0 <= g.b <= MAX_CHANNELS_PER_DEVICE && g.b != Offset(t, port, STRINGS)
    ensures !Delimited(g)
  {
    HeaderAnnounces(WordsInMemory(g.header), g.data[..g.b], t, port);
    SectionStartIsOffset(Payload(g), t, port, STRINGS);
  }

  /** The worker comes, before the write, to the test of the string whose count it changes. */
  lemma ReachTestOf(port: nat, t: Table, cs: seq<Cell>, f: Gather, i: nat, s: nat) returns (h: Gather)
    requires port < PORTS && s < STRINGS && i <= |cs| && PortSafe(Versions(t, cs)[i], port) && AtStart(f)
    ensures var u := Versions(t, cs)[i];
            && Reaches(port, t, cs, f, h, i) && h.a == s && h.pc == TestCount
            && h.b == Offset(u, port, s) && 0 <= h.b <= MAX_CHANNELS_PER_DEVICE && KeptOutside(f, h, 0, h.b)
            && forall r: nat :: r <= s ==> h.header[r] == Narrow(u.counts[Slot(port, r)])
  {
    hide Reaches;
    ReachStart(port, t, cs, f);
    ReachVersion(port, t, cs, f, f, 0, i);
    h := ReachString(port, t, cs, f, f, i, s);
    h := ReachWorker(port, t, cs, f, h, i);
  }

  /** The header stored before the write, the bytes copied after it, no later write yet. */
  lemma ChangeTears(port: nat, t: Table, cs: seq<Cell>, i: nat) returns (h: Gather)
    requires port < PORTS && i < |cs| && ChangesCount(Versions(t, cs)[i], cs[i], port)
    requires PortSafe(Versions(t, cs)[i], port) && PortSafe(Versions(t, cs)[i + 1], port)
    ensures Reaches(port, t, cs, Fresh(), h, i + 1) && h.pc == Finished && !Delimited(h)
  {
    hide Reaches, StringInRange, Delimited;
    var u, w, s := Versions(t, cs)[i], Versions(t, cs)[i + 1], cs[i].k % STRINGS;
    assert cs[i] == CountCell(Slot(port, s), cs[i].v) && w == Written(u, cs[i]);
    CountChange(u, port, s, cs[i].v, s);
    CountChange(u, port, s, cs[i].v, s + 1);
    CountChange(u, port, s, cs[i].v, STRINGS);
    h := ReachTestOf(port, t, cs, Fresh(), i, s);
    ReachVersion(port, t, cs, Fresh(), h, i, i + 1);
    PlaceOfString(w, port, s);
    h := ReachPastTest(port, t, cs, Fresh(), h, i + 1);
    h := ReachString(port, t, cs, Fresh(), h, i + 1, STRINGS);
    assert h.header == HeaderWords(u, port);
    TornFrame(h, u, port);
  }

  /** The table cells a message or several write, in their order, race with a gather; every
      table on the way is safe. Some schedule sends a frame that its counts do not delimit
      exactly when some write changes a count of the port from what it is at that write. */
  lemma FrameTearsIffCountChanges(port: nat, t: Table, cs: seq<Cell>)
    requires port < PORTS && AllSafe(Versions(t, cs), port)
    ensures Tears(port, t, cs) <==> SomeCountChanges(port, t, cs)
  {
    if SomeCountChanges(port, t, cs) {
      var i: nat :| i < |cs| && ChangesCount(Versions(t, cs)[i], cs[i], port);
      var h := ChangeTears(port, t, cs, i);
      var tr: seq<Machine>, ls: seq<Label> :| ReachedBy(tr, ls, port, t, cs, Fresh(), h, i + 1);
      assert WriteRun(tr, ls, port, t, cs) && tr[|ls|].gather.pc == Finished && !Delimited(tr[|ls|].gather);
    } else {
      forall tr: seq<Machine>, ls: seq<Label> | WriteRun(tr, ls, port, t, cs) && tr[|ls|].gather.pc == Finished
        ensures Delimited(tr[|ls|].gather)
      {
        HarmlessWrites(tr, ls, port, t, cs);
      }
    }
  }

  /** Whatever tables the writes pass through: no schedule faults and every finished frame is
      delimited, if and only if all of them are safe and no count of the port changes. */
  lemma RaceHarmlessIff(port: nat, t: Table, cs: seq<Cell>)
    requires port < PORTS
    ensures NeverLeaves(port, t, cs) && !Tears(port, t, cs)
            <==> AllSafe(Versions(t, cs), port) && !SomeCountChanges(port, t, cs)
  {
    var us := Versions(t, cs);
    if AllSafe(us, port) {
      FrameTearsIffCountChanges(port, t, cs);
      if !SomeCountChanges(port, t, cs) {
        forall tr: seq<Machine>, ls: seq<Label> | WriteRun(tr, ls, port, t, cs)
          ensures Inside(tr[|ls|].gather)
        {
          HarmlessWrites(tr, ls, port, t, cs);
        }
      }
    } else {
      var i: nat :| i < |us| && !PortSafe(us[i], port);
      UnsafeVersionLeaves(port, t, cs, i);
    }
  }

  lemma UnsafeVersionLeaves(port: nat, t: Table, cs: seq<Cell>, i: nat)
    requires port < PORTS && i <= |cs| && !PortSafe(Versions(t, cs)[i], port)
    ensures !NeverLeaves(port, t, cs)
  {
    hide Reaches;
    ReachStart(port, t, cs, Fresh());
    ReachVersion(port, t, cs, Fresh(), Fresh(), 0, i);
    var h := ReachString(port, t, cs, Fresh(), Fresh(), i, STRINGS);
    ReachedLeaves(port, t, cs, h, i);
  }
}
