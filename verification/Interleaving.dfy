/** The listeners and the worker without locks: every byte copied and every table cell read or
    written is one step, and the steps of the threads interleave in any order. */
module Interleaving {
  import opened Bytes
  import opened Limits
  import opened PixelBuffer
  import opened StringTable
  import opened Frames

  /** A listener's memcpy: the next byte to copy is `w.data[next]`. */
  datatype Copy = Idle | Copying(w: Write, next: nat)

  /** Where the gather of one string stands: the source reads the count of the table for the
      header, for the test, for the copy and for the advance, each time afresh. */
  datatype Pc =
    | StoreCount
    | TestCount
    | ReadStart
    | ReadLength(src: int)
    | CopyBytes(src: int, n: int, i: nat)
    | Advance
    | Finished
    | Fault

  datatype GatherRaw = Gather(a: nat, pc: Pc, b: int, header: seq<uint16>, data: seq<byte>)

  type Gather = g: GatherRaw | |g.header| == STRINGS && |g.data| == MAX_CHANNELS_PER_DEVICE &&
                               (g.pc != Finished ==> g.a < STRINGS)
    witness Gather(0, StoreCount, 0, seq(STRINGS, i => 0), seq(MAX_CHANNELS_PER_DEVICE, i => 0))

  datatype Machine = Machine(pixels: Pixels, table: Table, zcpp: Copy, acn: Copy, gather: Gather)

  datatype Label =
    | BeginZcpp(w: Write)
    | ByteZcpp
    | BeginAcn(w: Write)
    | ByteAcn
    | SetCell(c: Cell)
    | WorkerStep

  function CopyPixel(px: Pixels, c: Copy): Pixels {
    if c.Copying? && c.next < |c.w.data| then px[c.w.at + c.next := c.w.data[c.next]] else px
  }

  function CopyNext(c: Copy): Copy {
    if c.Copying? && c.next + 1 < |c.w.data| then c.(next := c.next + 1) else Idle
  }

  function NextString(g: Gather): Gather
    requires g.pc != Finished
  {
    if g.a + 1 < STRINGS then g.(a := g.a + 1, pc := StoreCount) else g.(a := g.a + 1, pc := Finished)
  }

  function GatherStep(g: Gather, px: Pixels, t: Table, port: nat): Gather
    requires port < PORTS
  {
    if g.pc == Finished then g
    else
      var k := Slot(port, g.a);
      match g.pc
      case StoreCount => g.(header := g.header[g.a := Narrow(t.counts[k])], pc := TestCount)
      case TestCount => if t.counts[k] != 0 then g.(pc := ReadStart) else NextString(g)
      case ReadStart => g.(pc := ReadLength(t.starts[k]))
      case ReadLength(src) => g.(pc := CopyBytes(src, t.counts[k], 0))
      case CopyBytes(src, n, i) =>
        if n == i then g.(pc := Advance)
        else if i < n && 0 <= src + i < PIXEL_BUFFER_SIZE && 0 <= g.b + i < MAX_CHANNELS_PER_DEVICE then
          g.(data := g.data[g.b + i := px[src + i]], pc := CopyBytes(src, n, i + 1))
        else g.(pc := Fault)
      case Advance => NextString(g.(b := g.b + t.counts[k]))
      case Fault => g
  }

  /** A step that its thread cannot take leaves everything as it is. */
  function Step(m: Machine, l: Label, port: nat): Machine
    requires port < PORTS
  {
    match l
    case BeginZcpp(w) => if m.zcpp.Idle? then m.(zcpp := Copying(w, 0)) else m
    case ByteZcpp => m.(pixels := CopyPixel(m.pixels, m.zcpp), zcpp := CopyNext(m.zcpp))
    case BeginAcn(w) => if m.acn.Idle? then m.(acn := Copying(w, 0)) else m
    case ByteAcn => m.(pixels := CopyPixel(m.pixels, m.acn), acn := CopyNext(m.acn))
    case SetCell(c) => if m.zcpp.Idle? then m.(table := Written(m.table, c)) else m
    case WorkerStep => m.(gather := GatherStep(m.gather, m.pixels, m.table, port))
  }

  /** `tr` is the history of states under the schedule `ls`. */
  ghost predicate IsRun(tr: seq<Machine>, ls: seq<Label>, port: nat)
    requires port < PORTS
  {
    |tr| == |ls| + 1 && forall i :: 0 <= i < |ls| ==> tr[i + 1] == Step(tr[i], ls[i], port)
  }

  ghost predicate SameCounts(t: Table, u: Table, port: nat)
    requires port < PORTS
  {
    forall s: nat :: s < STRINGS ==> u.counts[Slot(port, s)] == t.counts[Slot(port, s)]
  }

  ghost predicate SameStarts(t: Table, u: Table, port: nat)
    requires port < PORTS
  {
    forall s: nat :: s < STRINGS ==> u.starts[Slot(port, s)] == t.starts[Slot(port, s)]
  }

  predicate AtStart(g: Gather) {
    g.a == 0 && g.pc == StoreCount && g.b == 0
  }

  /** A gather under the schedule `ls` while the port's counts stay and every table the
      worker may see is a safe one. */
  ghost predicate GatherRun(tr: seq<Machine>, ls: seq<Label>, port: nat)
    requires port < PORTS
  {
    && IsRun(tr, ls, port) && AtStart(tr[0].gather)
    && forall i :: 0 <= i < |tr| ==> PortSafe(tr[i].table, port) && SameCounts(tr[0].table, tr[i].table, port)
  }

  /** The port's strings start where they started, at every moment. */
  ghost predicate StartsStable(tr: seq<Machine>, port: nat)
    requires port < PORTS && tr != []
  {
    forall i :: 0 <= i < |tr| ==> SameStarts(tr[0].table, tr[i].table, port)
  }

  /** What of a gather run concerns the gather itself. */
  ghost predicate WorkerView(tr: seq<Machine>, ls: seq<Label>, port: nat)
    requires port < PORTS
  {
    && |tr| == |ls| + 1 && PortSafe(tr[0].table, port) && AtStart(tr[0].gather)
    && forall i :: 0 <= i < |ls| ==>
         && PortSafe(tr[i].table, port)
         && SameCounts(tr[0].table, tr[i].table, port)
         && tr[i + 1].gather == if ls[i].WorkerStep?
                                then GatherStep(tr[i].gather, tr[i].pixels, tr[i].table, port)
                                else tr[i].gather
  }

  lemma GatherRunView(tr: seq<Machine>, ls: seq<Label>, port: nat)
    requires port < PORTS && GatherRun(tr, ls, port)
    ensures WorkerView(tr, ls, port)
  {
  }

  // ----- what a gather has done so far

  /** The bytes in the payload so far. */
  function Filled(g: Gather, t: Table, port: nat): int
    requires port < PORTS
  {
    match g.pc
    case CopyBytes(_, _, i) => g.b + i
    case Advance => g.b + t.counts[Slot(port, g.a)]
    case _ => g.b
  }

  ghost predicate GatherInv(g: Gather, t: Table, port: nat)
    requires port < PORTS && PortSafe(t, port)
  {
    && g.pc != Fault
    && g.a <= STRINGS && (g.a == STRINGS <==> g.pc == Finished)
    && g.b == Offset(t, port, g.a)
    && (forall s: nat :: s < STRINGS && (s < g.a || (s == g.a && g.pc != StoreCount)) ==>
          g.header[s] == Narrow(t.counts[Slot(port, s)]))
    && (match g.pc
        case ReadStart => t.counts[Slot(port, g.a)] != 0
        case ReadLength(src) => t.counts[Slot(port, g.a)] != 0 && StringInRange(t.counts[Slot(port, g.a)], src)
        case CopyBytes(src, n, i) => n == t.counts[Slot(port, g.a)] != 0 && StringInRange(n, src) && i <= n
        case Advance => t.counts[Slot(port, g.a)] != 0
        case _ => true)
  }

  /** The copy under way is from where the table says. */
  ghost predicate OnRow(g: Gather, t: Table, port: nat)
    requires port < PORTS
  {
    match g.pc
    case ReadLength(src) => src == t.starts[Slot(port, g.a)]
    case CopyBytes(src, _, _) => src == t.starts[Slot(port, g.a)]
    case _ => true
  }

  /** The payload's bytes were sampled one after the other: byte `q` is what its source channel
      held at the moment `when[q]`. */
  ghost predicate Sampled(tr: seq<Machine>, n: nat, when: seq<nat>, data: seq<byte>, cs: seq<int>)
    requires n <= |tr|
    requires forall q :: 0 <= q < |cs| ==> 0 <= cs[q] < PIXEL_BUFFER_SIZE
  {
    && |when| <= |data| && |when| <= |cs|
    && (forall q :: 0 <= q < |when| ==> when[q] < n && data[q] == tr[when[q]].pixels[cs[q]])
    && (forall p, q :: 0 <= p < q < |when| ==> when[p] < when[q])
  }

  /** The worker is about to store a byte. */
  predicate Stores(g: Gather) {
    g.pc.CopyBytes? && g.pc.i < g.pc.n
  }

  lemma NextStringInv(g: Gather, t: Table, port: nat)
    requires port < PORTS && PortSafe(t, port) && g.pc != Finished && g.pc != Fault
    requires g.b == Offset(t, port, g.a + 1)
    requires forall s: nat :: s <= g.a ==> g.header[s] == Narrow(t.counts[Slot(port, s)])
    ensures GatherInv(NextString(g), t, port)
  {
  }

  lemma GatherStepInv(g: Gather, px: Pixels, u: Table, t: Table, port: nat)
    requires port < PORTS && PortSafe(t, port) && GatherInv(g, t, port)
    requires PortSafe(u, port) && SameCounts(t, u, port)
    ensures GatherInv(GatherStep(g, px, u, port), t, port)
  {
    if g.pc != Finished {
      PlaceOfString(t, port, g.a);
      PlaceOfString(u, port, g.a);
      if g.pc == TestCount && t.counts[Slot(port, g.a)] == 0 {
        NextStringInv(g, t, port);
      } else if g.pc == Advance {
        NextStringInv(g.(b := g.b + t.counts[Slot(port, g.a)]), t, port);
      }
    }
  }

  /** A stored byte is the next one of the string's range. */
  lemma StoreAdds(g: Gather, px: Pixels, u: Table, t: Table, port: nat)
    requires port < PORTS && PortSafe(t, port) && GatherInv(g, t, port) && OnRow(g, t, port) && Stores(g)
    ensures var h, q := GatherStep(g, px, u, port), Filled(g, t, port);
            && 0 <= q < |Sources(t, port, STRINGS)| && q < MAX_CHANNELS_PER_DEVICE
            && h == g.(data := g.data[q := px[Sources(t, port, STRINGS)[q]]], pc := g.pc.(i := g.pc.i + 1))
  {
    PlaceOfString(t, port, g.a);
    SourcesOfString(t, port, STRINGS, g.a, g.pc.i);
    hide PortSafe, StringInRange, Offset, Sources;
  }

  /** What a worker step adds to the payload, if it adds anything, is the next byte of the
      string's range. */
  lemma GatherStepAdds(g: Gather, px: Pixels, u: Table, t: Table, port: nat)
    requires port < PORTS && PortSafe(t, port) && GatherInv(g, t, port) && OnRow(g, t, port)
    requires SameCounts(t, u, port) && (g.pc == ReadStart ==> u.starts[Slot(port, g.a)] == t.starts[Slot(port, g.a)])
    ensures OnRow(GatherStep(g, px, u, port), t, port)
    ensures var h, q := GatherStep(g, px, u, port), Filled(g, t, port);
            if Stores(g) then
              && 0 <= q < |Sources(t, port, STRINGS)| && q < MAX_CHANNELS_PER_DEVICE
              && Filled(h, t, port) == q + 1
              && h.data == g.data[q := px[Sources(t, port, STRINGS)[q]]]
            else h.data == g.data && Filled(h, t, port) == q
  {
    if g.pc != Finished {
      PlaceOfString(t, port, g.a);
      if Stores(g) {
        StoreAdds(g, px, u, t, port);
        hide GatherStep, GatherInv, PortSafe, StringInRange, Offset, Sources;
      } else {
        hide PortSafe, StringInRange, Offset, Sources;
      }
    }
  }

  lemma SampledLater(tr: seq<Machine>, n: nat, when: seq<nat>, data: seq<byte>, cs: seq<int>)
    requires n < |tr|
    requires forall q :: 0 <= q < |cs| ==> 0 <= cs[q] < PIXEL_BUFFER_SIZE
    requires Sampled(tr, n, when, data, cs)
    ensures Sampled(tr, n + 1, when, data, cs)
    ensures |when| < |cs| && |when| < |data| ==>
              Sampled(tr, n + 1, when + [n], data[|when| := tr[n].pixels[cs[|when|]]], cs)
  {
  }

  lemma SampleStep(tr: seq<Machine>, n: nat, when: seq<nat>, g: Gather, t: Table, port: nat) returns (when': seq<nat>)
    requires port < PORTS && n < |tr| && PortSafe(t, port) && GatherInv(g, t, port) && OnRow(g, t, port)
    requires PortSafe(tr[n].table, port) && SameCounts(t, tr[n].table, port)
    requires g.pc == ReadStart ==> tr[n].table.starts[Slot(port, g.a)] == t.starts[Slot(port, g.a)]
    requires |when| == Filled(g, t, port) && Sampled(tr, n, when, g.data, Sources(t, port, STRINGS))
    ensures var h := GatherStep(g, tr[n].pixels, tr[n].table, port);
            && GatherInv(h, t, port) && OnRow(h, t, port)
            && |when'| == Filled(h, t, port) && Sampled(tr, n + 1, when', h.data, Sources(t, port, STRINGS))
  {
    SampledLater(tr, n, when, g.data, Sources(t, port, STRINGS));
    GatherStepInv(g, tr[n].pixels, tr[n].table, t, port);
    GatherStepAdds(g, tr[n].pixels, tr[n].table, t, port);
    when' := if Stores(g) then when + [n] else when;
  }

  /** However the threads interleave, as long as the port's row of the table stays: the gather
      never faults, and its bytes are samples of their own channels, taken in order. */
  lemma {:induction false} GatherSampled(tr: seq<Machine>, ls: seq<Label>, port: nat, n: nat) returns (when: seq<nat>)
    requires port < PORTS && n <= |ls| && WorkerView(tr, ls, port) && StartsStable(tr, port)
    ensures GatherInv(tr[n].gather, tr[0].table, port) && OnRow(tr[n].gather, tr[0].table, port)
    ensures |when| == Filled(tr[n].gather, tr[0].table, port)
    ensures Sampled(tr, n, when, tr[n].gather.data, Sources(tr[0].table, port, STRINGS))
  {
    if n == 0 {
      when := [];
      hide Sources;
    } else {
      hide GatherStep, GatherInv, OnRow, Sampled, Sources, PortSafe, Filled, AtStart;
      var g := tr[n - 1].gather;
      when := GatherSampled(tr, ls, port, n - 1);
      if ls[n - 1].WorkerStep? {
        when := SampleStep(tr, n - 1, when, g, tr[0].table, port);
      } else {
        SampledLater(tr, n - 1, when, g.data, Sources(tr[0].table, port, STRINGS));
      }
    }
  }

  /** What the SPI device is handed when the gather has finished. */
  function Payload(g: Gather): seq<byte>
    requires 0 <= g.b <= MAX_CHANNELS_PER_DEVICE
  {
    WordsInMemory(g.header) + g.data[..g.b]
  }

  lemma FinishedFrame(g: Gather, t: Table, port: nat)
    requires port < PORTS && PortSafe(t, port) && GatherInv(g, t, port) && g.pc == Finished
    ensures 0 <= g.b == Offset(t, port, STRINGS) <= MAX_CHANNELS_PER_DEVICE
    ensures Payload(g)[COUNTS_SIZE..] == g.data[..g.b]
    ensures g.header == HeaderWords(t, port)
    ensures Announces(Payload(g), t, port) && WellFormedFrame(Payload(g))
  {
    PlaceOfString(t, port, STRINGS - 1);
    assert g.header == HeaderWords(t, port);
    HeaderAnnounces(WordsInMemory(g.header), g.data[..g.b], t, port);
    SectionOfAnnounced(Payload(g), g.data[..g.b], t, port, 0);
  }

  /** A gather that races with the listeners, while the port's counts stay, sends a frame
      that announces these counts and is delimited by them exactly. */
  lemma DelimitedFrame(tr: seq<Machine>, ls: seq<Label>, port: nat)
    requires port < PORTS && GatherRun(tr, ls, port) && tr[|ls|].gather.pc == Finished
    ensures 0 <= tr[|ls|].gather.b == Offset(tr[0].table, port, STRINGS) <= MAX_CHANNELS_PER_DEVICE
    ensures Announces(Payload(tr[|ls|].gather), tr[0].table, port) && WellFormedFrame(Payload(tr[|ls|].gather))
  {
    GatherRunView(tr, ls, port);
    StepsTaken(tr, ls, port, |ls|);
    FinishedFrame(tr[|ls|].gather, tr[0].table, port);
  }

  /** While the starts stay too, each byte of the frame is one that its source channel held
      at some moment of the gather; later bytes were taken at later moments. */
  lemma InterleavedFrame(tr: seq<Machine>, ls: seq<Label>, port: nat)
    requires port < PORTS && GatherRun(tr, ls, port) && StartsStable(tr, port)
    requires tr[|ls|].gather.pc == Finished
    ensures var t, g := tr[0].table, tr[|ls|].gather;
            && 0 <= g.b == |Sources(t, port, STRINGS)| <= MAX_CHANNELS_PER_DEVICE
            && exists when: seq<nat> ::
                 |when| == g.b && Sampled(tr, |ls|, when, Payload(g)[COUNTS_SIZE..], Sources(t, port, STRINGS))
  {
    var t, g := tr[0].table, tr[|ls|].gather;
    GatherRunView(tr, ls, port);
    var when := GatherSampled(tr, ls, port, |ls|);
    FinishedFrame(g, t, port);
    assert Sampled(tr, |ls|, when, Payload(g)[COUNTS_SIZE..], Sources(t, port, STRINGS));
  }

  // ----- while only starts change

  /** In the first `n` moments the table held this start for the string. */
  ghost predicate Held(tr: seq<Machine>, n: nat, port: nat, s: nat, start: int)
    requires port < PORTS && s < STRINGS && n <= |tr|
  {
    exists i :: 0 <= i < n && tr[i].table.starts[Slot(port, s)] == start
  }

  ghost predicate HeldStarts(tr: seq<Machine>, n: nat, t: Table, port: nat)
    requires port < PORTS && n <= |tr|
  {
    forall s: nat :: s < STRINGS ==> Held(tr, n, port, s, t.starts[Slot(port, s)])
  }

  /** `t` with another start for one slot. */
  function Moved(t: Table, k: nat, start: int): Table
    requires k < SLOTS
  {
    Table(t.counts, t.starts[k := start])
  }

  lemma {:induction false} OffsetOfCounts(t: Table, u: Table, port: nat, n: nat)
    requires port < PORTS && n <= STRINGS && SameCounts(t, u, port)
    ensures Offset(u, port, n) == Offset(t, port, n)
  {
    if 0 < n {
      OffsetOfCounts(t, u, port, n - 1);
    }
  }

  lemma MovedIsSafe(t: Table, u: Table, port: nat, a: nat)
    requires port < PORTS && a < STRINGS && PortSafe(t, port) && PortSafe(u, port) && SameCounts(t, u, port)
    ensures PortSafe(Moved(t, Slot(port, a), u.starts[Slot(port, a)]), port)
  {
    var v := Moved(t, Slot(port, a), u.starts[Slot(port, a)]);
    OffsetOfCounts(t, v, port, STRINGS);
    forall s: nat | s < STRINGS
      ensures StringInRange(v.counts[Slot(port, s)], v.starts[Slot(port, s)])
    {
      assert StringInRange(t.counts[Slot(port, s)], t.starts[Slot(port, s)]);
      assert StringInRange(u.counts[Slot(port, s)], u.starts[Slot(port, s)]);
      assert Slot(port, s) == Slot(port, a) <==> s == a;
    }
  }

  lemma {:induction false} SourcesPrefix(t: Table, port: nat, a: nat, n: nat)
    requires port < PORTS && a <= n <= STRINGS && PortSafe(t, port)
    ensures Sources(t, port, a) <= Sources(t, port, n)
  {
    if a < n {
      SourcesPrefix(t, port, a, n - 1);
    }
  }

  lemma {:induction false} SameSources(t: Table, u: Table, port: nat, n: nat)
    requires port < PORTS && n <= STRINGS && PortSafe(t, port) && PortSafe(u, port) && SameCounts(t, u, port)
    requires forall s: nat :: s < n ==> u.starts[Slot(port, s)] == t.starts[Slot(port, s)]
    ensures Sources(u, port, n) == Sources(t, port, n)
  {
    if 0 < n {
      SameSources(t, u, port, n - 1);
    }
  }

  /** Moving string `a` leaves the sources of the strings before it. */
  lemma SourcesBefore(t: Table, u: Table, port: nat, a: nat)
    requires port < PORTS && a <= STRINGS && PortSafe(t, port) && PortSafe(u, port) && SameCounts(t, u, port)
    requires forall s: nat :: s < a ==> u.starts[Slot(port, s)] == t.starts[Slot(port, s)]
    ensures Offset(t, port, a) <= |Sources(t, port, STRINGS)| == |Sources(u, port, STRINGS)|
    ensures forall q :: 0 <= q < Offset(t, port, a) ==>
              Sources(u, port, STRINGS)[q] == Sources(t, port, STRINGS)[q]
  {
    SourcesPrefix(t, port, a, STRINGS);
    SourcesPrefix(u, port, a, STRINGS);
    SameSources(t, u, port, a);
    OffsetOfCounts(t, u, port, STRINGS);
    hide Sources, Offset, PortSafe;
  }

  /** A string about to be copied may be moved: nothing of it is in the payload yet. */
  lemma MoveNext(tr: seq<Machine>, n: nat, when: seq<nat>, g: Gather, t: Table, u: Table, port: nat)
    requires port < PORTS && n < |tr| && g.pc == ReadStart
    requires PortSafe(t, port) && PortSafe(u, port) && SameCounts(t, u, port) && GatherInv(g, t, port)
    requires |when| == g.b && Sampled(tr, n, when, g.data, Sources(t, port, STRINGS))
    ensures var v := Moved(t, Slot(port, g.a), u.starts[Slot(port, g.a)]);
            && PortSafe(v, port) && GatherInv(g, v, port) && OnRow(g, v, port)
            && Sampled(tr, n, when, g.data, Sources(v, port, STRINGS))
  {
    var v := Moved(t, Slot(port, g.a), u.starts[Slot(port, g.a)]);
    MovedIsSafe(t, u, port, g.a);
    assert forall s: nat :: s < g.a ==> Slot(port, s) < Slot(port, g.a);
    SourcesBefore(t, v, port, g.a);
    OffsetOfCounts(t, v, port, g.a);
    hide PortSafe, Sources, Offset, StringInRange;
  }

  /** What of a gather run concerns the gather while starts change: `t` has, string by string, the
      start that was read, or one held so far. */
  ghost predicate MovingInv(tr: seq<Machine>, n: nat, when: seq<nat>, g: Gather, t: Table, port: nat)
    requires port < PORTS && n < |tr|
  {
    && PortSafe(t, port) && SameCounts(tr[0].table, t, port) && HeldStarts(tr, n + 1, t, port)
    && GatherInv(g, t, port) && OnRow(g, t, port) && |when| == Filled(g, t, port)
    && Sampled(tr, n, when, g.data, Sources(t, port, STRINGS))
  }

  lemma HeldLater(tr: seq<Machine>, n: nat, t: Table, port: nat)
    requires port < PORTS && n < |tr| && HeldStarts(tr, n, t, port)
    ensures HeldStarts(tr, n + 1, t, port)
  {
    forall s: nat | s < STRINGS
      ensures Held(tr, n + 1, port, s, t.starts[Slot(port, s)])
    {
      assert Held(tr, n, port, s, t.starts[Slot(port, s)]);
    }
  }

  lemma MovingStart(tr: seq<Machine>, port: nat)
    requires port < PORTS && tr != [] && PortSafe(tr[0].table, port) && AtStart(tr[0].gather)
    ensures MovingInv(tr, 0, [], tr[0].gather, tr[0].table, port)
  {
    var t := tr[0].table;
    forall s: nat | s < STRINGS
      ensures Held(tr, 1, port, s, t.starts[Slot(port, s)])
    {
      assert tr[0].table.starts[Slot(port, s)] == t.starts[Slot(port, s)];
    }
    hide Sources, PortSafe;
  }

  lemma MovingStep(tr: seq<Machine>, n: nat, when: seq<nat>, g: Gather, t: Table, port: nat)
    returns (when': seq<nat>, t': Table)
    requires port < PORTS && n + 1 < |tr| && MovingInv(tr, n, when, g, t, port)
    requires PortSafe(tr[n].table, port) && SameCounts(tr[0].table, tr[n].table, port)
    ensures MovingInv(tr, n + 1, when', GatherStep(g, tr[n].pixels, tr[n].table, port), t', port)
  {
    hide PortSafe, Sampled, GatherStep, GatherInv, OnRow, HeldStarts, Sources;
    t' := t;
    if g.pc == ReadStart {
      MoveNext(tr, n, when, g, t, tr[n].table, port);
      MovedHeld(tr, n + 1, t, port, g.a);
      t' := Moved(t, Slot(port, g.a), tr[n].table.starts[Slot(port, g.a)]);
    } else {
      HeldLater(tr, n + 1, t, port);
    }
    when' := SampleStep(tr, n, when, g, t', port);
  }

  lemma MovingWait(tr: seq<Machine>, n: nat, when: seq<nat>, g: Gather, t: Table, port: nat)
    requires port < PORTS && n + 1 < |tr| && MovingInv(tr, n, when, g, t, port)
    ensures MovingInv(tr, n + 1, when, g, t, port)
  {
    hide PortSafe, GatherStep, GatherInv, OnRow, HeldStarts, Sources, Sampled;
    HeldLater(tr, n + 1, t, port);
    SampledLater(tr, n, when, g.data, Sources(t, port, STRINGS));
  }

  lemma {:induction false} MovingSampled(tr: seq<Machine>, ls: seq<Label>, port: nat, n: nat)
    returns (when: seq<nat>, t: Table)
    requires port < PORTS && n <= |ls| && WorkerView(tr, ls, port)
    ensures MovingInv(tr, n, when, tr[n].gather, t, port)
  {
    hide MovingInv, GatherStep, PortSafe, SameCounts, AtStart;
    if n == 0 {
      when, t := [], tr[0].table;
      MovingStart(tr, port);
    } else {
      when, t := MovingSampled(tr, ls, port, n - 1);
      if ls[n - 1].WorkerStep? {
        when, t := MovingStep(tr, n - 1, when, tr[n - 1].gather, t, port);
      } else {
        MovingWait(tr, n - 1, when, tr[n - 1].gather, t, port);
      }
    }
  }

  lemma MovedHeld(tr: seq<Machine>, n: nat, t: Table, port: nat, a: nat)
    requires port < PORTS && 0 < n < |tr| && a < STRINGS && HeldStarts(tr, n, t, port)
    ensures var k := Slot(port, a); HeldStarts(tr, n + 1, Moved(t, k, tr[n - 1].table.starts[k]), port)
  {
    var v := Moved(t, Slot(port, a), tr[n - 1].table.starts[Slot(port, a)]);
    forall s: nat | s < STRINGS
      ensures Held(tr, n + 1, port, s, v.starts[Slot(port, s)])
    {
      if s == a {
        assert tr[n - 1].table.starts[Slot(port, s)] == v.starts[Slot(port, s)];
      } else {
        assert Held(tr, n, port, s, t.starts[Slot(port, s)]);
      }
    }
  }

  /** While the counts stay and the starts change: the bytes of the frame are samples, taken in
      order, of the ranges from one start for each string on, a start that its cell of the table
      held at some moment of the gather. */
  lemma MovingFrame(tr: seq<Machine>, ls: seq<Label>, port: nat) returns (when: seq<nat>, t: Table)
    requires port < PORTS && GatherRun(tr, ls, port) && tr[|ls|].gather.pc == Finished
    ensures PortSafe(t, port) && SameCounts(tr[0].table, t, port) && HeldStarts(tr, |tr|, t, port)
    ensures |when| == tr[|ls|].gather.b == |Sources(t, port, STRINGS)| <= MAX_CHANNELS_PER_DEVICE
    ensures Sampled(tr, |ls|, when, Payload(tr[|ls|].gather)[COUNTS_SIZE..], Sources(t, port, STRINGS))
  {
    GatherRunView(tr, ls, port);
    when, t := MovingSampled(tr, ls, port, |ls|);
    FinishedFrame(tr[|ls|].gather, t, port);
  }

  // ----- a gather ends

  /** The worker steps of the strings from `a` on. */
  function StepsFrom(t: Table, port: nat, a: nat): nat
    requires port < PORTS && a <= STRINGS && PortSafe(t, port)
    decreases STRINGS - a
  {
    if a == STRINGS then 0
    else
      var k := Slot(port, a);
      assert StringInRange(t.counts[k], t.starts[k]);
      (if t.counts[k] == 0 then 2 else 6 + t.counts[k]) + StepsFrom(t, port, a + 1)
  }

  function StepsLeft(g: Gather, t: Table, port: nat): int
    requires port < PORTS && PortSafe(t, port) && GatherInv(g, t, port)
  {
    if g.pc == Finished then 0
    else
      var rest, n := StepsFrom(t, port, g.a + 1), t.counts[Slot(port, g.a)];
      match g.pc
      case StoreCount => StepsFrom(t, port, g.a)
      case TestCount => StepsFrom(t, port, g.a) - 1
      case ReadStart => rest + 4 + n
      case ReadLength(_) => rest + 3 + n
      case CopyBytes(_, _, i) => rest + 2 + n - i
      case _ => rest + 1
  }

  /** Before string `s`, or at the end. */
  predicate AtString(g: Gather, s: nat) {
    g.a == s && g.pc == if s < STRINGS then StoreCount else Finished
  }

  /** Where a step leads that does not fault. */
  ghost predicate Leads(g: Gather, h: Gather, count: int) {
    match g.pc
    case StoreCount => h.a == g.a && h.pc == TestCount
    case TestCount => if count != 0 then h.a == g.a && h.pc == ReadStart else AtString(h, g.a + 1)
    case ReadStart => h.a == g.a && h.pc.ReadLength?
    case ReadLength(src) => h.a == g.a && h.pc == CopyBytes(src, count, 0)
    case CopyBytes(src, n, i) => h.a == g.a && h.pc == if n == i then Advance else CopyBytes(src, n, i + 1)
    case Advance => AtString(h, g.a + 1)
    case _ => true
  }

  lemma StepLeads(g: Gather, px: Pixels, u: Table, port: nat)
    requires port < PORTS && g.pc != Finished && GatherStep(g, px, u, port).pc != Fault
    ensures Leads(g, GatherStep(g, px, u, port), u.counts[Slot(port, g.a)])
  {
  }

  lemma StepsAtString(h: Gather, t: Table, port: nat)
    requires port < PORTS && PortSafe(t, port) && GatherInv(h, t, port) && AtString(h, h.a)
    ensures h.a <= STRINGS && StepsLeft(h, t, port) == StepsFrom(t, port, h.a)
  {
  }

  lemma StepsOfString(g: Gather, t: Table, port: nat)
    requires port < PORTS && PortSafe(t, port) && GatherInv(g, t, port) && g.pc != Finished
    ensures g.pc != Fault && 0 <= t.counts[Slot(port, g.a)]
    ensures StepsFrom(t, port, g.a) ==
            (if t.counts[Slot(port, g.a)] == 0 then 2 else 6 + t.counts[Slot(port, g.a)]) + StepsFrom(t, port, g.a + 1)
    ensures g.pc != StoreCount && g.pc != TestCount ==> t.counts[Slot(port, g.a)] != 0
    ensures g.pc.CopyBytes? ==> g.pc.n == t.counts[Slot(port, g.a)] && g.pc.i <= g.pc.n
  {
    PlaceOfString(t, port, g.a);
  }

  lemma StepsDrop(g: Gather, h: Gather, t: Table, port: nat)
    requires port < PORTS && PortSafe(t, port) && GatherInv(g, t, port) && GatherInv(h, t, port)
    requires g.pc != Finished && h.pc != Fault && Leads(g, h, t.counts[Slot(port, g.a)])
    ensures 0 < StepsLeft(g, t, port) && StepsLeft(h, t, port) == StepsLeft(g, t, port) - 1
  {
    StepsOfString(g, t, port);
    if AtString(h, h.a) {
      StepsAtString(h, t, port);
    }
    hide GatherInv, PortSafe, StepsFrom;
  }

  lemma StepCounts(g: Gather, px: Pixels, u: Table, t: Table, port: nat)
    requires port < PORTS && PortSafe(t, port) && GatherInv(g, t, port)
    requires PortSafe(u, port) && SameCounts(t, u, port)
    ensures GatherInv(GatherStep(g, px, u, port), t, port)
    ensures StepsLeft(GatherStep(g, px, u, port), t, port) ==
            if g.pc == Finished then 0 else StepsLeft(g, t, port) - 1
    ensures 0 < StepsLeft(g, t, port) <==> g.pc != Finished
  {
    GatherStepInv(g, px, u, t, port);
    assert GatherStep(g, px, u, port).pc != Fault;
    assert g.pc == Finished ==> StepsLeft(g, t, port) == 0;
    if g.pc != Finished {
      assert u.counts[Slot(port, g.a)] == t.counts[Slot(port, g.a)];
      StepLeads(g, px, u, port);
      hide GatherStep, GatherInv, PortSafe, Leads, StepsLeft;
      StepsDrop(g, GatherStep(g, px, u, port), t, port);
    }
  }

  function WorkerSteps(ls: seq<Label>): nat {
    if ls == [] then 0 else WorkerSteps(ls[..|ls| - 1]) + if ls[|ls| - 1].WorkerStep? then 1 else 0
  }

  lemma WorkerStepsOneMore(ls: seq<Label>, n: nat)
    requires n < |ls|
    ensures WorkerSteps(ls[..n + 1]) == WorkerSteps(ls[..n]) + if ls[n].WorkerStep? then 1 else 0
  {
    assert ls[..n + 1][..n] == ls[..n];
  }

  lemma StartSteps(tr: seq<Machine>, ls: seq<Label>, port: nat)
    requires port < PORTS && WorkerView(tr, ls, port)
    ensures |tr| == |ls| + 1 && PortSafe(tr[0].table, port) && GatherInv(tr[0].gather, tr[0].table, port)
    ensures StepsLeft(tr[0].gather, tr[0].table, port) == StepsFrom(tr[0].table, port, 0)
    ensures WorkerSteps(ls[..0]) == 0
  {
  }

  lemma ViewStep(tr: seq<Machine>, ls: seq<Label>, port: nat, n: nat)
    requires port < PORTS && n < |ls| && WorkerView(tr, ls, port)
    ensures PortSafe(tr[n].table, port) && SameCounts(tr[0].table, tr[n].table, port)
    ensures tr[n + 1].gather ==
            if ls[n].WorkerStep? then GatherStep(tr[n].gather, tr[n].pixels, tr[n].table, port) else tr[n].gather
  {
    hide PortSafe, SameCounts, GatherStep;
  }

  lemma {:induction false} StepsTaken(tr: seq<Machine>, ls: seq<Label>, port: nat, n: nat)
    requires port < PORTS && n <= |ls| && WorkerView(tr, ls, port)
    ensures GatherInv(tr[n].gather, tr[0].table, port)
    ensures var total, taken := StepsFrom(tr[0].table, port, 0), WorkerSteps(ls[..n]);
            StepsLeft(tr[n].gather, tr[0].table, port) == if total <= taken then 0 else total - taken
  {
    hide GatherStep, GatherInv, StepsLeft, StepsFrom, PortSafe, SameCounts, AtStart, WorkerSteps, WorkerView;
    StartSteps(tr, ls, port);
    if 0 < n {
      var m := tr[n - 1];
      StepsTaken(tr, ls, port, n - 1);
      ViewStep(tr, ls, port, n - 1);
      WorkerStepsOneMore(ls, n - 1);
      if ls[n - 1].WorkerStep? {
        StepCounts(m.gather, m.pixels, m.table, tr[0].table, port);
      }
    }
  }

  /** No schedule of the listeners keeps a gather from its end: it has finished exactly when the
      worker has had the steps its table row calls for. */
  lemma GatherEnds(tr: seq<Machine>, ls: seq<Label>, port: nat)
    requires port < PORTS && GatherRun(tr, ls, port)
    ensures tr[|ls|].gather.pc == Finished <==> StepsFrom(tr[0].table, port, 0) <= WorkerSteps(ls)
  {
    GatherRunView(tr, ls, port);
    StepsTaken(tr, ls, port, |ls|);
    assert ls[..|ls|] == ls;
    StepCounts(tr[|ls|].gather, tr[|ls|].pixels, tr[0].table, tr[0].table, port);
  }

  // ----- where bytes come from

  datatype Listener = ZcppSide | AcnSide

  function CopyOf(m: Machine, side: Listener): Copy {
    if side.ZcppSide? then m.zcpp else m.acn
  }

  /** The packet that a label brings to a listener. */
  function Brings(l: Label, side: Listener): seq<Write> {
    match l
    case BeginZcpp(w) => if side.ZcppSide? then [w] else []
    case BeginAcn(w) => if side.AcnSide? then [w] else []
    case _ => []
  }

  predicate IsByteStep(l: Label, side: Listener) {
    if side.ZcppSide? then l.ByteZcpp? else l.ByteAcn?
  }

  /** The step stores a byte on the channel. */
  predicate HitsFrom(m: Machine, l: Label, side: Listener, ch: int) {
    && IsByteStep(l, side)
    && CopyOf(m, side).Copying?
    && CopyOf(m, side).next < |CopyOf(m, side).w.data|
    && ch == CopyOf(m, side).w.at + CopyOf(m, side).next
  }

  predicate Hits(m: Machine, l: Label, ch: int) {
    HitsFrom(m, l, ZcppSide, ch) || HitsFrom(m, l, AcnSide, ch)
  }

  /** The copy that a byte step advances. */
  function Stepped(m: Machine, l: Label): Copy {
    if l.ByteZcpp? then m.zcpp else m.acn
  }

  function HitByte(m: Machine, l: Label, ch: int): byte
    requires Hits(m, l, ch)
  {
    Stepped(m, l).w.data[Stepped(m, l).next]
  }

  /** The last of the first `n` steps that stores a byte on the channel, or -1. */
  ghost function LastHit(tr: seq<Machine>, ls: seq<Label>, n: nat, ch: int): (i: int)
    requires n <= |ls| < |tr|
    ensures -1 <= i < n
    ensures 0 <= i ==> Hits(tr[i], ls[i], ch)
    ensures forall j :: i < j < n ==> !Hits(tr[j], ls[j], ch)
  {
    if n == 0 then -1 else if Hits(tr[n - 1], ls[n - 1], ch) then n - 1 else LastHit(tr, ls, n - 1, ch)
  }

  lemma StepStores(m: Machine, l: Label, port: nat, ch: nat)
    requires port < PORTS && ch < PIXEL_BUFFER_SIZE
    ensures Step(m, l, port).pixels[ch] == if Hits(m, l, ch) then HitByte(m, l, ch) else m.pixels[ch]
  {
  }

  /** At every moment a channel holds the byte of the last byte step taken on it, by
      whichever listener, or what it held at first. */
  lemma {:induction false} LastStepWins(tr: seq<Machine>, ls: seq<Label>, port: nat, n: nat, ch: nat)
    requires port < PORTS && n <= |ls| && IsRun(tr, ls, port) && ch < PIXEL_BUFFER_SIZE
    ensures var i := LastHit(tr, ls, n, ch);
            tr[n].pixels[ch] == if i < 0 then tr[0].pixels[ch] else HitByte(tr[i], ls[i], ch)
  {
    if 0 < n {
      LastStepWins(tr, ls, port, n - 1, ch);
      StepStores(tr[n - 1], ls[n - 1], port, ch);
      assert tr[n] == Step(tr[n - 1], ls[n - 1], port);
    }
  }

  /** Packet `w` says `v` for channel `ch`. */
  predicate Says(w: Write, ch: int, v: byte) {
    w.Covers(ch) && w.data[ch - w.at] == v
  }

  /** A packet whose copy was under way at first, or one that arrived in the first `n` steps. */
  ghost predicate SourceFrom(w: Write, m: Machine, ls: seq<Label>, n: nat, side: Listener)
    requires n <= |ls|
  {
    || (CopyOf(m, side).Copying? && CopyOf(m, side).w == w)
    || exists j :: 0 <= j < n && Brings(ls[j], side) == [w]
  }

  ghost predicate Source(w: Write, m: Machine, ls: seq<Label>, n: nat)
    requires n <= |ls|
  {
    SourceFrom(w, m, ls, n, ZcppSide) || SourceFrom(w, m, ls, n, AcnSide)
  }

  lemma CopyStepSource(m: Machine, l: Label, port: nat, side: Listener)
    requires port < PORTS
    ensures var c, d := CopyOf(m, side), CopyOf(Step(m, l, port), side);
            d.Copying? ==> (c.Copying? && c.w == d.w) || Brings(l, side) == [d.w]
  {
  }

  /** A copy under way is of a packet its listener has. */
  lemma {:induction false} CopyHasSource(tr: seq<Machine>, ls: seq<Label>, port: nat, n: nat, side: Listener)
    requires port < PORTS && n <= |ls| && IsRun(tr, ls, port) && CopyOf(tr[n], side).Copying?
    ensures SourceFrom(CopyOf(tr[n], side).w, tr[0], ls, n, side)
  {
    if 0 < n {
      assert tr[n] == Step(tr[n - 1], ls[n - 1], port);
      CopyStepSource(tr[n - 1], ls[n - 1], port, side);
      if Brings(ls[n - 1], side) != [CopyOf(tr[n], side).w] {
        CopyHasSource(tr, ls, port, n - 1, side);
      }
    }
  }

  lemma SourceLater(w: Write, m: Machine, ls: seq<Label>, i: nat, n: nat)
    requires i <= n <= |ls| && Source(w, m, ls, i)
    ensures Source(w, m, ls, n)
  {
  }

  /** At every moment a channel holds its first value, or one that some packet said for it,
      a packet under way at first or arrived by then. */
  lemma PixelsWereSaid(tr: seq<Machine>, ls: seq<Label>, port: nat, n: nat, ch: nat)
    requires port < PORTS && n <= |ls| && IsRun(tr, ls, port) && ch < PIXEL_BUFFER_SIZE
    ensures tr[n].pixels[ch] == tr[0].pixels[ch] ||
            exists w: Write :: Source(w, tr[0], ls, n) && Says(w, ch, tr[n].pixels[ch])
  {
    LastStepWins(tr, ls, port, n, ch);
    var i := LastHit(tr, ls, n, ch);
    if 0 <= i {
      CopyHasSource(tr, ls, port, i, if ls[i].ByteZcpp? then ZcppSide else AcnSide);
      var w := Stepped(tr[i], ls[i]).w;
      SourceLater(w, tr[0], ls, i, n);
      assert Says(w, ch, tr[n].pixels[ch]);
    }
  }

  /** Nothing comes out of thin air: the byte a racing gather took at the moment `when[q]` was
      in its channel when the gather began, or some packet said it for that very channel, one
      whose copy was under way then or that had arrived before that moment. */
  lemma SentBytesWereSaid(tr: seq<Machine>, ls: seq<Label>, port: nat) returns (when: seq<nat>)
    requires port < PORTS && GatherRun(tr, ls, port) && StartsStable(tr, port)
    requires tr[|ls|].gather.pc == Finished
    ensures |when| == tr[|ls|].gather.b == |Sources(tr[0].table, port, STRINGS)|
    ensures Sampled(tr, |ls|, when, tr[|ls|].gather.data, Sources(tr[0].table, port, STRINGS))
    ensures forall q :: 0 <= q < |when| ==>
              ByteWasSaid(tr, ls, when[q], Sources(tr[0].table, port, STRINGS)[q], tr[|ls|].gather.data[q])
  {
    PlaceOfString(tr[0].table, port, STRINGS - 1);
    GatherRunView(tr, ls, port);
    when := GatherSampled(tr, ls, port, |ls|);
    forall q | 0 <= q < |when|
      ensures ByteWasSaid(tr, ls, when[q], Sources(tr[0].table, port, STRINGS)[q], tr[|ls|].gather.data[q])
    {
      PixelsWereSaid(tr, ls, port, when[q], Sources(tr[0].table, port, STRINGS)[q]);
    }
  }

  ghost predicate ByteWasSaid(tr: seq<Machine>, ls: seq<Label>, n: nat, ch: int, v: byte)
    requires tr != [] && n <= |ls| && 0 <= ch < PIXEL_BUFFER_SIZE
  {
    v == tr[0].pixels[ch] || exists w: Write :: Source(w, tr[0], ls, n) && Says(w, ch, v)
  }

  /** No packet under way or arriving is for a channel of the port. */
  ghost predicate Untouched(tr: seq<Machine>, ls: seq<Label>, port: nat)
    requires port < PORTS && tr != [] && PortSafe(tr[0].table, port)
  {
    forall w: Write, q :: Source(w, tr[0], ls, |ls|) && 0 <= q < |Sources(tr[0].table, port, STRINGS)| ==>
      !w.Covers(Sources(tr[0].table, port, STRINGS)[q])
  }

  /** When no packet touches the port's channels, the racing gather sends what the gather taken
      as one step sends, whatever the listeners write elsewhere. */
  lemma UntouchedGatherIsAtomic(tr: seq<Machine>, ls: seq<Label>, port: nat)
    requires port < PORTS && GatherRun(tr, ls, port) && StartsStable(tr, port)
    requires tr[|ls|].gather.pc == Finished && Untouched(tr, ls, port)
    ensures 0 <= tr[|ls|].gather.b <= MAX_CHANNELS_PER_DEVICE
    ensures Payload(tr[|ls|].gather) == PortFrame(tr[0].pixels, tr[0].table, port)
  {
    var t, g := tr[0].table, tr[|ls|].gather;
    GatherRunView(tr, ls, port);
    var when := GatherSampled(tr, ls, port, |ls|);
    FinishedFrame(g, t, port);
    forall q | 0 <= q < g.b
      ensures g.data[q] == tr[0].pixels[Sources(t, port, STRINGS)[q]]
    {
      var ch := Sources(t, port, STRINGS)[q];
      PixelsWereSaid(tr, ls, port, when[q], ch);
      if w: Write :| Source(w, tr[0], ls, when[q]) && Says(w, ch, tr[when[q]].pixels[ch]) {
        SourceLater(w, tr[0], ls, when[q], |ls|);
      }
    }
    assert g.data[..g.b] == Pick(tr[0].pixels, Sources(t, port, STRINGS));
  }

  // ----- no write is lost

  function Other(side: Listener): Listener {
    if side.ZcppSide? then AcnSide else ZcppSide
  }

  function ByteSteps(ls: seq<Label>, side: Listener): nat {
    if ls == [] then 0 else ByteSteps(ls[..|ls| - 1], side) + if IsByteStep(ls[|ls| - 1], side) then 1 else 0
  }

  /** The listener, in this run, has or gets no packet for the channel. */
  ghost predicate Avoids(tr: seq<Machine>, ls: seq<Label>, side: Listener, ch: int)
    requires tr != []
  {
    forall w: Write :: SourceFrom(w, tr[0], ls, |ls|, side) ==> !w.Covers(ch)
  }

  ghost predicate CopiedTo(m: Machine, side: Listener, w: Write, k: nat, ch: nat)
    requires k <= |w.data| && w.Covers(ch) && ch < PIXEL_BUFFER_SIZE
  {
    && CopyOf(m, side) == (if k < |w.data| then Copying(w, k) else Idle)
    && (ch < w.at + k ==> m.pixels[ch] == w.data[ch - w.at])
  }

  lemma CopyStep(m: Machine, l: Label, port: nat, side: Listener, w: Write, k: nat, ch: nat)
    requires port < PORTS && k < |w.data| && w.Covers(ch) && CopiedTo(m, side, w, k, ch)
    requires CopyOf(m, Other(side)).Copying? ==> !CopyOf(m, Other(side)).w.Covers(ch)
    ensures CopiedTo(Step(m, l, port), side, w, if IsByteStep(l, side) then k + 1 else k, ch)
  {
  }

  lemma ByteStepsOneMore(ls: seq<Label>, n: nat, side: Listener)
    requires n < |ls|
    ensures ByteSteps(ls[..n + 1], side) == ByteSteps(ls[..n], side) + if IsByteStep(ls[n], side) then 1 else 0
  {
    assert ls[..n + 1][..n] == ls[..n];
  }

  lemma AvoidsNow(tr: seq<Machine>, ls: seq<Label>, port: nat, side: Listener, n: nat, ch: int)
    requires port < PORTS && n <= |ls| && IsRun(tr, ls, port) && Avoids(tr, ls, side, ch)
    ensures CopyOf(tr[n], side).Copying? ==> !CopyOf(tr[n], side).w.Covers(ch)
  {
    if CopyOf(tr[n], side).Copying? {
      CopyHasSource(tr, ls, port, n, side);
    }
  }

  lemma {:induction false} CopyProgress(tr: seq<Machine>, ls: seq<Label>, port: nat, side: Listener, w: Write,
                                        n: nat, ch: nat)
    requires port < PORTS && n <= |ls| && IsRun(tr, ls, port)
    requires w.Covers(ch) && CopyOf(tr[0], side) == Copying(w, 0) && Avoids(tr, ls, Other(side), ch)
    requires n == 0 || ByteSteps(ls[..n - 1], side) < |w.data|
    ensures ByteSteps(ls[..n], side) <= |w.data| && CopiedTo(tr[n], side, w, ByteSteps(ls[..n], side), ch)
  {
    assert CopiedTo(tr[0], side, w, 0, ch);
    hide CopiedTo, Step, Avoids;
    if 0 < n {
      ByteStepsOneMore(ls, n - 1, side);
      if 1 < n {
        ByteStepsOneMore(ls, n - 2, side);
      }
      hide ByteSteps;
      CopyProgress(tr, ls, port, side, w, n - 1, ch);
      AvoidsNow(tr, ls, port, Other(side), n - 1, ch);
      CopyStep(tr[n - 1], ls[n - 1], port, side, w, ByteSteps(ls[..n - 1], side), ch);
      assert tr[n] == Step(tr[n - 1], ls[n - 1], port);
    }
  }

  /** A packet of either listener whose copy runs from its first byte to its last, under any
      interleaving, is in the buffer at the end, wherever the other listener had nothing to
      write. */
  lemma CompletedCopyLands(tr: seq<Machine>, ls: seq<Label>, port: nat, side: Listener, w: Write, ch: nat)
    requires port < PORTS && IsRun(tr, ls, port) && CopyOf(tr[0], side) == Copying(w, 0)
    requires ls != [] && IsByteStep(ls[|ls| - 1], side) && ByteSteps(ls, side) == |w.data|
    requires w.Covers(ch) && Avoids(tr, ls, Other(side), ch)
    ensures CopyOf(tr[|ls|], side).Idle? && tr[|ls|].pixels[ch] == w.data[ch - w.at]
  {
    assert ls[..|ls|] == ls;
    CopyProgress(tr, ls, port, side, w, |ls|, ch);
  }

  // ----- arrivals

  /** The label that brings a listener a packet. */
  function Bring(side: Listener, w: Write): Label {
    if side.ZcppSide? then BeginZcpp(w) else BeginAcn(w)
  }

  /** Nothing holds an arrival back but the listener's own copy: an idle listener begins to copy
      whatever the other listener and the gather are doing, and these, the pixels and the table
      are left as they were. */
  lemma ArrivalStep(m: Machine, side: Listener, w: Write, port: nat)
    requires port < PORTS
    ensures var m' := Step(m, Bring(side, w), port);
            && CopyOf(m', side) == (if CopyOf(m, side).Idle? then Copying(w, 0) else CopyOf(m, side))
            && CopyOf(m', Other(side)) == CopyOf(m, Other(side))
            && m'.pixels == m.pixels && m'.table == m.table && m'.gather == m.gather
  {
  }

  /** A table cell is written by the ZCPP thread, so never while it copies, but whatever the other
      listener and the gather are doing; nothing else changes. */
  lemma CellStep(m: Machine, c: Cell, port: nat)
    requires port < PORTS
    ensures var m' := Step(m, SetCell(c), port);
            && m'.table == (if m.zcpp.Idle? then Written(m.table, c) else m.table)
            && m'.zcpp == m.zcpp && m'.acn == m.acn && m'.pixels == m.pixels && m'.gather == m.gather
  {
  }

  /** The other listener's copy at step `n` and the packets it gets from there on are not for
      the channel. */
  ghost predicate AvoidsFrom(tr: seq<Machine>, ls: seq<Label>, n: nat, side: Listener, ch: int)
    requires n <= |ls| < |tr|
  {
    && (CopyOf(tr[n], side).Copying? ==> !CopyOf(tr[n], side).w.Covers(ch))
    && forall j, w: Write :: n <= j < |ls| && Brings(ls[j], side) == [w] ==> !w.Covers(ch)
  }

  lemma RunSuffix(tr: seq<Machine>, ls: seq<Label>, port: nat, n: nat)
    requires port < PORTS && IsRun(tr, ls, port) && n <= |ls|
    ensures IsRun(tr[n..], ls[n..], port)
  {
    hide Step;
    forall i | 0 <= i < |ls[n..]|
      ensures tr[n..][i + 1] == Step(tr[n..][i], ls[n..][i], port)
    {
      assert tr[n + i + 1] == Step(tr[n + i], ls[n + i], port);
    }
  }

  /** In any run a packet that reaches an idle listener and is copied to its end is in the buffer,
      in every channel for which the other listener has or gets nothing. */
  lemma ArrivedPacketLands(tr: seq<Machine>, ls: seq<Label>, port: nat, n: nat, side: Listener, w: Write)
    requires port < PORTS && IsRun(tr, ls, port) && n + 1 < |ls|
    requires ls[n] == Bring(side, w) && CopyOf(tr[n], side).Idle?
    requires IsByteStep(ls[|ls| - 1], side) && ByteSteps(ls[n + 1..], side) == |w.data|
    ensures forall ch: nat :: w.Covers(ch) && AvoidsFrom(tr, ls, n, Other(side), ch) ==>
              CopyOf(tr[|ls|], side).Idle? && tr[|ls|].pixels[ch] == w.data[ch - w.at]
  {
    var us, ks := tr[n + 1..], ls[n + 1..];
    forall ch: nat | w.Covers(ch) && AvoidsFrom(tr, ls, n, Other(side), ch)
      ensures CopyOf(tr[|ls|], side).Idle? && tr[|ls|].pixels[ch] == w.data[ch - w.at]
    {
      hide Step, ByteSteps;
      assert tr[n + 1] == Step(tr[n], ls[n], port);
      ArrivalStep(tr[n], side, w, port);
      RunSuffix(tr, ls, port, n + 1);
      AvoidsLater(tr, ls, port, n, side, w, ch);
      CompletedCopyLands(us, ks, port, side, w, ch);
    }
  }

  lemma AvoidsLater(tr: seq<Machine>, ls: seq<Label>, port: nat, n: nat, side: Listener, w: Write, ch: int)
    requires port < PORTS && IsRun(tr, ls, port) && n < |ls| && ls[n] == Bring(side, w)
    requires AvoidsFrom(tr, ls, n, Other(side), ch)
    ensures Avoids(tr[n + 1..], ls[n + 1..], Other(side), ch)
  {
    hide Step;
    var us, ks := tr[n + 1..], ls[n + 1..];
    assert tr[n + 1] == Step(tr[n], ls[n], port);
    ArrivalStep(tr[n], side, w, port);
    forall v: Write | SourceFrom(v, us[0], ks, |ks|, Other(side))
      ensures !v.Covers(ch)
    {
      if j :| 0 <= j < |ks| && Brings(ks[j], Other(side)) == [v] {
        assert Brings(ls[n + 1 + j], Other(side)) == [v];
      }
    }
  }

  /** Any labels can be taken in any order from any state. */
  lemma {:induction false} EveryScheduleRuns(m: Machine, ls: seq<Label>, port: nat) returns (tr: seq<Machine>)
    requires port < PORTS
    ensures IsRun(tr, ls, port) && tr[0] == m
  {
    hide Step;
    if ls == [] {
      tr := [m];
    } else {
      tr := EveryScheduleRuns(m, ls[..|ls| - 1], port);
      tr := tr + [Step(tr[|tr| - 1], ls[|ls| - 1], port)];
    }
  }
}
