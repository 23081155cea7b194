/** PiPixelController.c: the listeners and the worker over one shared state, each datagram
    and each frame taken as one step. */
module Controller {
  import opened Bytes
  import opened Limits
  import opened StringTable
  import opened Socket
  import opened Hardware
  import opened Frames
  import Zcpp
  import Acn
  import Worker

  /** A Tick is a turn of the worker; the transfers of the ports in `failing` fail. */
  datatype Event = ZcppArrival(z: Arrival) | AcnArrival(a: Arrival) | Tick(failing: set<nat>)

  /** What `main` reads from the file and never changes. */
  datatype Setup = Setup(universeStart: int, universeCount: int, pixelPorts: int)
  {
    function UniverseEnd(): int {
      universeStart + universeCount - 1
    }
  }

  datatype World = World(sys: Zcpp.Sys, zcppEth: Eth, acnEth: Eth)

  /** OutOfBounds: some step would have left one of its arrays. */
  datatype Reached = Reached(world: World) | OutOfBounds

  ghost function Step(w: World, e: Event, c: Setup): Reached {
    match e
    case ZcppArrival(z) =>
      var eth := Received(w.zcppEth, z);
      var o := Zcpp.Handle(w.sys, eth);
      if o.Done? then Reached(w.(sys := o.sys, zcppEth := eth)) else OutOfBounds
    case AcnArrival(a) =>
      var eth := Received(w.acnEth, a);
      var o := Acn.Handle(w.sys.pixels, c.universeStart, c.UniverseEnd(), eth);
      if o.Done? then Reached(w.(sys := w.sys.(pixels := o.pixels), acnEth := eth)) else OutOfBounds
    case Tick(_) =>
      if Worker.EnabledSafe(w.sys.config.table, c.pixelPorts) then Reached(w) else OutOfBounds
  }

  ghost function Run(w: World, es: seq<Event>, c: Setup): Reached {
    if es == [] then Reached(w)
    else
      var before := Run(w, es[..|es| - 1], c);
      if before.OutOfBounds? then OutOfBounds else Step(before.world, es[|es| - 1], c)
  }

  /** The table cells written at one event, in order. */
  ghost function StepCells(w: World, e: Event): seq<Cell> {
    if e.ZcppArrival? then Zcpp.CellsOf(w.sys.config.lastSequence, Received(w.zcppEth, e.z)) else []
  }

  /** The table cells written during a run, in order. */
  ghost function RunCells(w: World, es: seq<Event>, c: Setup): seq<Cell>
    requires Run(w, es, c).Reached?
  {
    if es == [] then []
    else RunCells(w, es[..|es| - 1], c) + StepCells(Run(w, es[..|es| - 1], c).world, es[|es| - 1])
  }

  /** What leaves a port at one event. */
  ghost function StepSent(s: Zcpp.Sys, e: Event, c: Setup, port: nat): seq<seq<byte>>
    requires port < PORTS && (e.Tick? ==> Worker.EnabledSafe(s.config.table, c.pixelPorts))
  {
    if e.Tick? && port < c.pixelPorts && port !in e.failing then [PortFrame(s.pixels, s.config.table, port)] else []
  }

  /** The frames that leave a port during a run. */
  ghost function Sent(w: World, es: seq<Event>, c: Setup, port: nat): seq<seq<byte>>
    requires port < PORTS && Run(w, es, c).Reached?
  {
    if es == [] then []
    else
      Sent(w, es[..|es| - 1], c, port)
      + StepSent(Run(w, es[..|es| - 1], c).world.sys, es[|es| - 1], c, port)
  }

  lemma {:induction false} RunPrefix(w: World, es: seq<Event>, c: Setup, n: nat)
    requires n <= |es| && Run(w, es, c).Reached?
    ensures Run(w, es[..n], c).Reached?
  {
    if n < |es| {
      RunPrefix(w, es[..|es| - 1], c, n);
      assert es[..|es| - 1][..n] == es[..n];
    } else {
      assert es[..n] == es;
    }
  }

  lemma Concat<T>(a: seq<T>, b: seq<T>, c: seq<T>)
    ensures (a + b) + c == a + (b + c)
  {
  }

  /** From world `w` the events `es` have led to world `now`, and meanwhile the written cells have
      grown from `cells0` to `cells`, and what has left the ports from `sent0` to `sent`. */
  ghost predicate History(w: World, es: seq<Event>, c: Setup, now: World, cells0: seq<Cell>, cells: seq<Cell>,
                          sent0: seq<seq<seq<byte>>>, sent: seq<seq<seq<byte>>>)
  {
    && Run(w, es, c) == Reached(now) && cells == cells0 + RunCells(w, es, c)
    && |sent0| == |sent| == PORTS
    && forall p: nat :: p < PORTS ==> sent[p] == sent0[p] + Sent(w, es, c, p)
  }

  lemma NothingRun(w: World, es: seq<Event>, c: Setup, cells: seq<Cell>, sent: seq<seq<seq<byte>>>)
    requires |sent| == PORTS
    ensures History(w, es[..0], c, w, cells, cells, sent, sent)
  {
  }

  lemma TickIsSafe(w: World, e: Event, c: Setup)
    requires Step(w, e, c).Reached?
    ensures e.Tick? ==> Worker.EnabledSafe(w.sys.config.table, c.pixelPorts)
  {
  }

  lemma HistoryStep(w: World, es: seq<Event>, i: nat, c: Setup, now: World, cells0: seq<Cell>, cells: seq<Cell>,
                    sent0: seq<seq<seq<byte>>>, sent: seq<seq<seq<byte>>>)
    requires i < |es| && Run(w, es, c).Reached? && History(w, es[..i], c, now, cells0, cells, sent0, sent)
    ensures Step(now, es[i], c).Reached?
    ensures es[i].Tick? ==> Worker.EnabledSafe(now.sys.config.table, c.pixelPorts)
  {
    hide Step, RunCells, Sent;
    RunAt(w, es, i, c);
    TickIsSafe(now, es[i], c);
  }

  lemma HistoryOneMore(w: World, es: seq<Event>, i: nat, c: Setup, now: World, next: World,
                       cells0: seq<Cell>, cells: seq<Cell>, cells': seq<Cell>,
                       sent0: seq<seq<seq<byte>>>, sent: seq<seq<seq<byte>>>, sent': seq<seq<seq<byte>>>)
    requires i < |es| && Run(w, es, c).Reached? && History(w, es[..i], c, now, cells0, cells, sent0, sent)
    requires Step(now, es[i], c) == Reached(next) && cells' == cells + StepCells(now, es[i]) && |sent'| == PORTS
    requires forall p: nat :: p < PORTS ==> sent'[p] == sent[p] + StepSent(now.sys, es[i], c, p)
    ensures History(w, es[..i + 1], c, next, cells0, cells', sent0, sent')
  {
    hide Step, StepSent, StepCells, Run, RunCells, Sent;
    RunAt(w, es, i, c);
    TickIsSafe(now, es[i], c);
    Concat(cells0, RunCells(w, es[..i], c), StepCells(now, es[i]));
    forall p: nat | p < PORTS
      ensures sent'[p] == sent0[p] + Sent(w, es[..i + 1], c, p)
    {
      Concat(sent0[p], Sent(w, es[..i], c, p), StepSent(now.sys, es[i], c, p));
    }
  }

  lemma HistoryOfAll(w: World, es: seq<Event>, c: Setup, now: World, cells0: seq<Cell>, cells: seq<Cell>,
                     sent0: seq<seq<seq<byte>>>, sent: seq<seq<seq<byte>>>)
    requires History(w, es[..|es|], c, now, cells0, cells, sent0, sent)
    ensures Run(w, es, c) == Reached(now) && cells == cells0 + RunCells(w, es, c)
    ensures |sent0| == |sent| == PORTS && forall p: nat :: p < PORTS ==> sent[p] == sent0[p] + Sent(w, es, c, p)
  {
    assert es[..|es|] == es;
  }

  lemma RunAt(w: World, es: seq<Event>, i: nat, c: Setup)
    requires i < |es| && Run(w, es, c).Reached?
    ensures Run(w, es[..i], c).Reached?
    ensures var now := Run(w, es[..i], c).world;
            && Step(now, es[i], c).Reached? && Run(w, es[..i + 1], c) == Step(now, es[i], c)
            && RunCells(w, es[..i + 1], c) == RunCells(w, es[..i], c) + StepCells(now, es[i])
            && forall p: nat :: p < PORTS ==>
                 Sent(w, es[..i + 1], c, p) == Sent(w, es[..i], c, p) + StepSent(now.sys, es[i], c, p)
  {
    hide Step, StepSent, StepCells;
    RunPrefix(w, es, c, i + 1);
    assert es[..i + 1][..i] == es[..i];
  }

  class PixelController {
    const hw: ThreadCtrl
    const zcpp: Zcpp.ZcppListener
    const acn: Acn.AcnListener
    const worker: Worker.Worker
    const setup: Setup

    ghost predicate Valid() {
      && zcpp.Valid() && acn.Valid() && worker.Valid()
      && zcpp.hw == hw && acn.hw == hw && worker.hw == hw
      && acn.universeStart == setup.universeStart && acn.universeEnd == setup.UniverseEnd()
      && hw.pixelPorts == setup.pixelPorts
      && zcpp.ethBuffer != acn.ethBuffer
      && worker.Repr() !! Shared()
    }

    ghost function Shared(): set<object> {
      {zcpp, zcpp.ethBuffer, acn.ethBuffer, hw.buffer, hw.channelCount, hw.startChannel}
    }

    ghost function Now(): World
      requires Valid()
      reads zcpp`lastConfigSequence, hw.buffer, hw.channelCount, hw.startChannel, zcpp.ethBuffer, acn.ethBuffer
    {
      World(zcpp.State(), zcpp.ethBuffer[..], acn.ethBuffer[..])
    }

    /** `main`: cleared pixels, the table of the file, sequence number 0. */
    constructor (setup: Setup, file: seq<Option<seq<Setting>>>)
      requires FileIndexable(file)
      ensures Valid() && this.setup == setup
      ensures Now().sys.config == ConfigState(Overlay(Cleared(), FileEntries(file, PORTS)), 0)
      ensures forall ch :: 0 <= ch < PIXEL_BUFFER_SIZE ==> Now().sys.pixels[ch] == 0
      ensures forall p: nat :: p < PORTS ==> worker.Sent(p) == []
    {
      var h := new ThreadCtrl(setup.pixelPorts, file);
      zcpp := new Zcpp.ZcppListener(h);
      acn := new Acn.AcnListener(h, setup.universeStart, setup.universeCount);
      worker := new Worker.Worker(h);
      hw, this.setup := h, setup;
    }

    method OnZcpp(z: Arrival)
      requires Valid() && Step(Now(), ZcppArrival(z), setup).Reached?
      modifies zcpp`lastConfigSequence, hw.buffer, hw.channelCount, hw.startChannel, hw`cells, zcpp.ethBuffer
      ensures Reached(Now()) == Step(old(Now()), ZcppArrival(z), setup)
      ensures hw.cells == old(hw.cells) + StepCells(old(Now()), ZcppArrival(z))
    {
      RecvFrom(zcpp.ethBuffer, z);
      zcpp.Dispatch();
    }

    method OnAcn(a: Arrival)
      requires Valid() && Step(Now(), AcnArrival(a), setup).Reached?
      modifies hw.buffer, acn.ethBuffer
      ensures Reached(Now()) == Step(old(Now()), AcnArrival(a), setup)
    {
      RecvFrom(acn.ethBuffer, a);
      acn.Dispatch();
    }

    method OnTick(failing: set<nat>)
      requires Valid() && Worker.EnabledSafe(Now().sys.config.table, setup.pixelPorts)
      modifies worker.Repr()
      ensures Now() == old(Now()) && hw.cells == old(hw.cells)
      ensures forall p: nat :: p < PORTS ==>
                worker.Sent(p) == old(worker.Sent(p)) + StepSent(old(Now()).sys, Tick(failing), setup, p)
    {
      hide PortFrame, PortSafe, Worker.EnabledSafe;
      worker.SendFrame(failing);
      assert zcpp.ethBuffer[..] == old(zcpp.ethBuffer[..]) && acn.ethBuffer[..] == old(acn.ethBuffer[..]);
    }

    method Handle(e: Event)
      requires Valid() && Step(Now(), e, setup).Reached?
      modifies zcpp`lastConfigSequence, hw.buffer, hw.channelCount, hw.startChannel, hw`cells
      modifies zcpp.ethBuffer, acn.ethBuffer
      modifies worker.Repr()
      ensures Reached(Now()) == Step(old(Now()), e, setup)
      ensures hw.cells == old(hw.cells) + StepCells(old(Now()), e)
      ensures forall p: nat :: p < PORTS ==>
                worker.Sent(p) == old(worker.Sent(p)) + StepSent(old(Now()).sys, e, setup, p)
    {
      hide PortFrame, Worker.EnabledSafe, Zcpp.Handle, Acn.Handle, Zcpp.CellsOf, Received;
      match e {
        case ZcppArrival(z) => OnZcpp(z);
        case AcnArrival(a) => OnAcn(a);
        case Tick(failing) => OnTick(failing);
      }
    }

    ghost function AllSent(): (sent: seq<seq<seq<byte>>>)
      reads worker.spi0, worker.spi1, worker.spi2, worker.spi3
      ensures |sent| == PORTS && forall p: nat :: p < PORTS ==> sent[p] == worker.Sent(p)
    {
      [worker.Sent(0), worker.Sent(1), worker.Sent(2), worker.Sent(3)]
    }

    /** Handle, with what leaves the ports in one list. */
    method Take(e: Event)
      requires Valid() && Step(Now(), e, setup).Reached?
      modifies zcpp`lastConfigSequence, hw.buffer, hw.channelCount, hw.startChannel, hw`cells
      modifies zcpp.ethBuffer, acn.ethBuffer
      modifies worker.Repr()
      ensures Step(old(Now()), e, setup) == Reached(Now())
      ensures hw.cells == old(hw.cells) + StepCells(old(Now()), e)
      ensures forall p: nat :: p < PORTS ==>
                AllSent()[p] == old(AllSent())[p] + StepSent(old(Now()).sys, e, setup, p)
    {
      TickIsSafe(Now(), e, setup);
      hide Step, StepSent, StepCells, AllSent;
      Handle(e);
    }

    method TakeAll(es: seq<Event>)
      requires Valid() && Run(Now(), es, setup).Reached?
      modifies zcpp`lastConfigSequence, hw.buffer, hw.channelCount, hw.startChannel, hw`cells
      modifies zcpp.ethBuffer, acn.ethBuffer
      modifies worker.Repr()
      ensures History(old(Now()), es[..|es|], setup, Now(), old(hw.cells), hw.cells, old(AllSent()), AllSent())
    {
      hide History, Step, StepSent, StepCells, Run, RunCells, Sent, AllSent, Worker.Worker.Sent;
      ghost var w, cells, sent := Now(), hw.cells, AllSent();
      NothingRun(w, es, setup, cells, sent);
      for i := 0 to |es|
        invariant History(w, es[..i], setup, Now(), cells, hw.cells, sent, AllSent())
      {
        ghost var now, cells', sent' := Now(), hw.cells, AllSent();
        HistoryStep(w, es, i, setup, now, cells, cells', sent, sent');
        Take(es[i]);
        HistoryOneMore(w, es, i, setup, now, Now(), cells, cells', hw.cells, sent, sent', AllSent());
      }
    }

    /** Over any run of events, each an atomic step, that stays inside the arrays, in whatever
        order they come, the state and what leaves every port are those of the specification, in
        which there are no payloads: so taken, no frame depends on an earlier one. When frames race
        with table writes, some can: see StalePayloads. */
    method RunEvents(es: seq<Event>)
      requires Valid() && Run(Now(), es, setup).Reached?
      modifies zcpp`lastConfigSequence, hw.buffer, hw.channelCount, hw.startChannel, hw`cells
      modifies zcpp.ethBuffer, acn.ethBuffer
      modifies worker.Repr()
      ensures Reached(Now()) == Run(old(Now()), es, setup)
      ensures hw.cells == old(hw.cells) + RunCells(old(Now()), es, setup)
      ensures forall p: nat :: p < PORTS ==>
                worker.Sent(p) == old(worker.Sent(p)) + Sent(old(Now()), es, setup, p)
    {
      hide History, Run, RunCells, Sent;
      ghost var w, cells, sent := Now(), hw.cells, AllSent();
      TakeAll(es);
      HistoryOfAll(w, es, setup, Now(), cells, hw.cells, sent, AllSent());
    }
  }
}
