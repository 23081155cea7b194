/** From the packets on the wire to the bytes a port transmits. */
module EndToEnd {
  import opened Bytes
  import opened Limits
  import opened PixelBuffer
  import opened StringTable
  import opened Socket
  import opened Frames
  import opened Controller
  import Wire
  import Zcpp
  import Acn
  import Datagrams
  import AcnDatagrams
  import FailedReceives
  import RacingMessages
  import Worker

  /** Packets as senders serialise them, datagrams that the listeners ignore, receives that fail,
      and the turns of the worker, in which some ports' transfers may fail. */
  datatype Packet =
    | ConfigP(c: Wire.ConfigPacket)
    | DataP(d: Wire.DataPacket)
    | OtherZcppP(bytes: seq<byte>)
    | FailedZcppP
    | AcnP(a: Acn.AcnPacket)
    | OtherAcnP(bytes: seq<byte>)
    | FailedAcnP
    | FrameP(failing: set<nat>)
  {
    predicate FromZcpp() {
      ConfigP? || DataP? || OtherZcppP?
    }

    predicate FromAcn() {
      AcnP? || OtherAcnP?
    }
  }

  /** A packet that fits the receive buffer and addresses what exists, or is to be ignored. */
  ghost predicate WellFormed(p: Packet, c: Setup) {
    match p
    case ConfigP(k) => |Wire.ConfigBytes(k)| <= ETH_BUFFER_SIZE && Datagrams.InTable(k.ports)
    case DataP(d) => |Wire.DataBytes(d)| <= ETH_BUFFER_SIZE && d.frameAddress + |d.data| <= PIXEL_BUFFER_SIZE
    case OtherZcppP(d) => Datagrams.Ignored(d)
    case AcnP(a) => Acn.Fits(a, c.universeStart, c.UniverseEnd())
    case OtherAcnP(d) => AcnDatagrams.Foreign(d) || !AcnDatagrams.MayBeInRange(d, c.universeStart, c.UniverseEnd())
    case _ => true
  }

  /** A datagram has reached the ZCPP listener. */
  ghost predicate SomeZcpp(ps: seq<Packet>) {
    ps != [] && (ps[|ps| - 1].FromZcpp() || SomeZcpp(ps[..|ps| - 1]))
  }

  ghost predicate SomeAcn(ps: seq<Packet>) {
    ps != [] && (ps[|ps| - 1].FromAcn() || SomeAcn(ps[..|ps| - 1]))
  }

  /** No receive fails before its listener's first datagram. */
  ghost predicate AllWellFormed(ps: seq<Packet>, c: Setup) {
    ps != [] ==>
      var front, p := ps[..|ps| - 1], ps[|ps| - 1];
      && AllWellFormed(front, c) && WellFormed(p, c)
      && (p.FailedZcppP? ==> SomeZcpp(front)) && (p.FailedAcnP? ==> SomeAcn(front))
  }

  ghost function ToEvent(p: Packet): Event {
    match p
    case ConfigP(c) => ZcppArrival(Datagram(Wire.ConfigBytes(c)))
    case DataP(d) => ZcppArrival(Datagram(Wire.DataBytes(d)))
    case OtherZcppP(d) => ZcppArrival(Datagram(d))
    case FailedZcppP => ZcppArrival(Failed)
    case AcnP(a) => AcnArrival(Datagram(Acn.AcnBytes(a)))
    case OtherAcnP(d) => AcnArrival(Datagram(d))
    case FailedAcnP => AcnArrival(Failed)
    case FrameP(failing) => Tick(failing)
  }

  ghost function Events(ps: seq<Packet>): (es: seq<Event>)
    ensures |es| == |ps|
  {
    if ps == [] then [] else Events(ps[..|ps| - 1]) + [ToEvent(ps[|ps| - 1])]
  }

  /** The configuration messages among the packets. */
  ghost function Messages(ps: seq<Packet>, c: Setup): seq<ConfigMsg>
    requires AllWellFormed(ps, c)
  {
    if ps == [] then []
    else
      var p := ps[|ps| - 1];
      Messages(ps[..|ps| - 1], c)
      + if p.ConfigP? then [ConfigMsg(p.c.sequenceNumber, Datagrams.EntriesOf(p.c.ports))] else []
  }

  /** Where the universe of an accepted packet goes. */
  ghost function UniverseWrite(a: Acn.AcnPacket, c: Setup): seq<Write>
    requires Acn.Fits(a, c.universeStart, c.UniverseEnd())
  {
    if c.universeStart <= a.universe <= c.UniverseEnd()
    then [Write((a.universe - c.universeStart) * UNIVERSE_SIZE, a.data)] else []
  }

  /** The writes of a packet; a failed receive repeats those of its listener's last datagram. */
  ghost function PacketWrites(p: Packet, lastZcpp: seq<Write>, lastAcn: seq<Write>, c: Setup): seq<Write>
    requires WellFormed(p, c)
  {
    match p
    case DataP(d) => [Write(d.frameAddress, d.data)]
    case FailedZcppP => lastZcpp
    case AcnP(a) => UniverseWrite(a, c)
    case FailedAcnP => lastAcn
    case _ => []
  }

  /** The writes of the last datagram that reached the ZCPP listener. */
  ghost function LastZcpp(ps: seq<Packet>, c: Setup): seq<Write>
    requires AllWellFormed(ps, c)
  {
    if ps == [] then []
    else if ps[|ps| - 1].FromZcpp() then PacketWrites(ps[|ps| - 1], [], [], c)
    else LastZcpp(ps[..|ps| - 1], c)
  }

  /** The writes of the last datagram that reached the E1.31 listener. */
  ghost function LastAcn(ps: seq<Packet>, c: Setup): seq<Write>
    requires AllWellFormed(ps, c)
  {
    if ps == [] then []
    else if ps[|ps| - 1].FromAcn() then PacketWrites(ps[|ps| - 1], [], [], c)
    else LastAcn(ps[..|ps| - 1], c)
  }

  /** The writes to the pixel buffer in a run of packets. */
  ghost function Writes(ps: seq<Packet>, c: Setup): seq<Write>
    requires AllWellFormed(ps, c)
  {
    if ps == [] then []
    else
      var front := ps[..|ps| - 1];
      Writes(front, c) + PacketWrites(ps[|ps| - 1], LastZcpp(front, c), LastAcn(front, c), c)
  }

  // ----- what the receive buffers hold

  /** Handling the ZCPP buffer once more writes `ws`, and leaves the configuration. */
  ghost predicate ZcppSettled(w: World, ws: seq<Write>) {
    && FailedReceives.ZcppWrites(w.zcppEth) == ws
    && exists s :: Zcpp.Handle(s, w.zcppEth).Done? && Zcpp.Handle(s, w.zcppEth).sys.config == w.sys.config
  }

  ghost predicate AcnSettled(w: World, ws: seq<Write>, c: Setup) {
    && FailedReceives.AcnWrites(w.acnEth, c) == ws
    && exists px :: Acn.Handle(px, c.universeStart, c.UniverseEnd(), w.acnEth).Done?
  }

  lemma ZcppWritesOf(p: Packet, eth: Eth, c: Setup)
    requires WellFormed(p, c) && p.FromZcpp()
    ensures FailedReceives.ZcppWrites(Received(eth, ToEvent(p).z)) == PacketWrites(p, [], [], c)
  {
    match p
    case ConfigP(k) => Datagrams.ConfigFieldsRoundTrip(k, eth);
    case DataP(d) => Datagrams.DataFieldsRoundTrip(d, eth);
    case OtherZcppP(d) => Datagrams.IgnoredBuffer(d, eth);
  }

  lemma AcnWritesOf(p: Packet, eth: Eth, c: Setup)
    requires WellFormed(p, c) && p.FromAcn()
    ensures FailedReceives.AcnWrites(Received(eth, ToEvent(p).a), c) == PacketWrites(p, [], [], c)
  {
    match p
    case AcnP(a) => Acn.AcnFieldsRoundTrip(a, eth);
    case OtherAcnP(d) => AcnDatagrams.IgnoredBuffer(d, c.universeStart, c.UniverseEnd(), eth);
  }

  /** What a packet does to the state: a configuration its message, every other packet its writes. */
  ghost function SysAfter(s: Zcpp.Sys, p: Packet, lastZcpp: seq<Write>, lastAcn: seq<Write>, c: Setup): Zcpp.Sys
    requires WellFormed(p, c)
  {
    if p.ConfigP? then
      s.(config := ConfigStep(s.config, ConfigMsg(p.c.sequenceNumber, Datagrams.EntriesOf(p.c.ports))))
    else s.(pixels := ApplyAll(s.pixels, PacketWrites(p, lastZcpp, lastAcn, c)))
  }

  lemma ApplyOne(px: Pixels, w: Write)
    ensures ApplyAll(px, [w]) == Apply(px, w)
  {
    assert [w][..0] == [];
  }

  lemma ZcppStep(w: World, p: Packet, zs: seq<Write>, xs: seq<Write>, c: Setup)
    requires WellFormed(p, c) && (p.FromZcpp() || (p.FailedZcppP? && ZcppSettled(w, zs)))
    ensures Step(w, ToEvent(p), c).Reached? && Step(w, ToEvent(p), c).world.acnEth == w.acnEth
    ensures Step(w, ToEvent(p), c).world.sys == SysAfter(w.sys, p, zs, xs, c)
    ensures ZcppSettled(Step(w, ToEvent(p), c).world, if p.FailedZcppP? then zs else PacketWrites(p, [], [], c))
  {
    var eth := Received(w.zcppEth, ToEvent(p).z);
    match p {
      case ConfigP(k) =>
        Datagrams.ConfigRoundTrip(k, w.zcppEth, w.sys);
        ZcppWritesOf(p, w.zcppEth, c);
      case DataP(d) =>
        Datagrams.DataRoundTrip(d, w.zcppEth, w.sys);
        ZcppWritesOf(p, w.zcppEth, c);
        ApplyOne(w.sys.pixels, Write(d.frameAddress, d.data));
      case OtherZcppP(d) =>
        Datagrams.IgnoredBuffer(d, w.zcppEth);
        ZcppWritesOf(p, w.zcppEth, c);
      case FailedZcppP =>
        var s :| Zcpp.Handle(s, w.zcppEth).Done? && Zcpp.Handle(s, w.zcppEth).sys.config == w.sys.config;
        FailedReceives.ZcppAgain(s, w.zcppEth, w.sys);
    }
    hide Apply, ApplyAll, ConfigStep, FailedReceives.ZcppWrites;
    assert Zcpp.Handle(w.sys, eth).Done?;
  }

  lemma AcnStep(w: World, p: Packet, zs: seq<Write>, xs: seq<Write>, c: Setup)
    requires WellFormed(p, c) && (p.FromAcn() || (p.FailedAcnP? && AcnSettled(w, xs, c)))
    ensures Step(w, ToEvent(p), c).Reached? && Step(w, ToEvent(p), c).world.zcppEth == w.zcppEth
    ensures Step(w, ToEvent(p), c).world.sys == SysAfter(w.sys, p, zs, xs, c)
    ensures AcnSettled(Step(w, ToEvent(p), c).world, if p.FailedAcnP? then xs else PacketWrites(p, [], [], c), c)
  {
    var px, eth := w.sys.pixels, Received(w.acnEth, ToEvent(p).a);
    match p {
      case AcnP(a) =>
        Acn.AcnRoundTrip(a, w.acnEth, px, c.universeStart, c.UniverseEnd());
        AcnWritesOf(p, w.acnEth, c);
        if UniverseWrite(a, c) != [] {
          ApplyOne(px, UniverseWrite(a, c)[0]);
        }
      case OtherAcnP(d) =>
        AcnDatagrams.IgnoredBuffer(d, c.universeStart, c.UniverseEnd(), w.acnEth);
        AcnWritesOf(p, w.acnEth, c);
      case FailedAcnP =>
        var qx :| Acn.Handle(qx, c.universeStart, c.UniverseEnd(), w.acnEth).Done?;
        FailedReceives.AcnAgain(qx, w.acnEth, c, px);
    }
    hide Apply, ApplyAll, FailedReceives.AcnWrites;
    assert Acn.Handle(px, c.universeStart, c.UniverseEnd(), eth).Done?;
  }

  /** After the packets both receive buffers are as their last datagrams left them. */
  ghost predicate Settled(w: World, ps: seq<Packet>, c: Setup)
    requires AllWellFormed(ps, c)
  {
    && (SomeZcpp(ps) ==> ZcppSettled(w, LastZcpp(ps, c)))
    && (SomeAcn(ps) ==> AcnSettled(w, LastAcn(ps, c), c))
  }

  lemma AcnStaysSettled(w: World, next: World, ws: seq<Write>, c: Setup)
    requires AcnSettled(w, ws, c) && next.acnEth == w.acnEth
    ensures AcnSettled(next, ws, c)
  {
  }

  lemma ZcppStaysSettled(w: World, next: World, ws: seq<Write>)
    requires ZcppSettled(w, ws) && next.zcppEth == w.zcppEth && next.sys.config == w.sys.config
    ensures ZcppSettled(next, ws)
  {
  }

  /** One packet more: the worker's turns need a safe table, nothing else can lead outside. */
  lemma PacketStep(w: World, ps: seq<Packet>, c: Setup)
    requires ps != [] && AllWellFormed(ps, c) && Settled(w, ps[..|ps| - 1], c)
    ensures var front, p := ps[..|ps| - 1], ps[|ps| - 1];
            && (Step(w, ToEvent(p), c).Reached? <==>
                (p.FrameP? ==> Worker.EnabledSafe(w.sys.config.table, c.pixelPorts)))
            && (Step(w, ToEvent(p), c).Reached? ==>
                && Step(w, ToEvent(p), c).world.sys == SysAfter(w.sys, p, LastZcpp(front, c), LastAcn(front, c), c)
                && Settled(Step(w, ToEvent(p), c).world, ps, c))
  {
    var front, p := ps[..|ps| - 1], ps[|ps| - 1];
    var zs, xs := LastZcpp(front, c), LastAcn(front, c);
    hide WellFormed, ZcppSettled, AcnSettled, PacketWrites, ApplyAll, ConfigStep, Worker.EnabledSafe;
    if p.FromZcpp() || p.FailedZcppP? {
      ZcppStep(w, p, zs, xs, c);
      hide Step;
      if SomeAcn(front) {
        AcnStaysSettled(w, Step(w, ToEvent(p), c).world, xs, c);
      }
    } else if p.FromAcn() || p.FailedAcnP? {
      AcnStep(w, p, zs, xs, c);
      hide Step;
      if SomeZcpp(front) {
        ZcppStaysSettled(w, Step(w, ToEvent(p), c).world, zs);
      }
    } else {
      FrameWrites(w.sys, p, zs, xs, c);
    }
  }

  lemma FrameWrites(s: Zcpp.Sys, p: Packet, zs: seq<Write>, xs: seq<Write>, c: Setup)
    requires p.FrameP?
    ensures SysAfter(s, p, zs, xs, c) == s
  {
  }

  /** The state that the messages and the writes, each taken alone, leave. */
  ghost function SysOf(s: Zcpp.Sys, ps: seq<Packet>, c: Setup): Zcpp.Sys
    requires AllWellFormed(ps, c)
  {
    Zcpp.Sys(ConfigRun(s.config, Messages(ps, c)), ApplyAll(s.pixels, Writes(ps, c)))
  }

  lemma SysOneMore(s: Zcpp.Sys, ps: seq<Packet>, c: Setup)
    requires ps != [] && AllWellFormed(ps, c)
    ensures var front, p := ps[..|ps| - 1], ps[|ps| - 1];
            SysOf(s, ps, c) == SysAfter(SysOf(s, front, c), p, LastZcpp(front, c), LastAcn(front, c), c)
  {
    var front, p := ps[..|ps| - 1], ps[|ps| - 1];
    var ms, ws := Messages(front, c), PacketWrites(p, LastZcpp(front, c), LastAcn(front, c), c);
    ApplyAllConcat(s.pixels, Writes(front, c), ws);
    if p.ConfigP? {
      assert Messages(ps, c)[..|ms|] == ms;
    } else {
      assert Messages(ps, c) == ms;
    }
    hide ApplyAll, ConfigStep, WellFormed, Writes;
  }

  lemma EventsFront(ps: seq<Packet>)
    requires ps != []
    ensures Events(ps)[..|Events(ps)| - 1] == Events(ps[..|ps| - 1])
    ensures Events(ps)[|Events(ps)| - 1] == ToEvent(ps[|ps| - 1])
  {
    hide ToEvent;
  }

  lemma NoPackets(w: World, c: Setup)
    ensures Run(w, Events([]), c) == Reached(w) && Settled(w, [], c) && SysOf(w.sys, [], c) == w.sys
  {
  }

  /** Any run of packets leaves the state that its messages and its writes, each taken
      alone, leave; what the receive buffers held at first does not matter. */
  lemma {:induction false} PacketsRun(w: World, ps: seq<Packet>, c: Setup)
    requires AllWellFormed(ps, c) && Run(w, Events(ps), c).Reached?
    ensures Run(w, Events(ps), c).world.sys ==
            Zcpp.Sys(ConfigRun(w.sys.config, Messages(ps, c)), ApplyAll(w.sys.pixels, Writes(ps, c)))
    ensures Settled(Run(w, Events(ps), c).world, ps, c)
  {
    hide Step, Settled, SysAfter, ToEvent, WellFormed, Messages, Writes, LastZcpp, LastAcn;
    hide ConfigRun, ApplyAll, Events;
    NoPackets(w, c);
    if ps != [] {
      EventsFront(ps);
      PacketsRun(w, ps[..|ps| - 1], c);
      PacketStep(Run(w, Events(ps[..|ps| - 1]), c).world, ps, c);
      SysOneMore(w.sys, ps, c);
    }
  }

  // ----- the cells that are written

  lemma PacketCells(w: World, p: Packet, c: Setup)
    requires WellFormed(p, c) && !p.FailedZcppP?
    ensures StepCells(w, ToEvent(p)) ==
            if p.ConfigP?
            then ConfigCells(w.sys.config.lastSequence,
                             ConfigMsg(p.c.sequenceNumber, Datagrams.EntriesOf(p.c.ports)))
            else []
  {
    hide ConfigCells, ConfigStep, Zcpp.DecodeConfig, Zcpp.ConfigInside;
    match p
    case ConfigP(k) => Datagrams.ConfigRoundTrip(k, w.zcppEth, w.sys);
    case DataP(d) => Datagrams.DataFieldsRoundTrip(d, w.zcppEth);
    case OtherZcppP(d) => Datagrams.IgnoredBuffer(d, w.zcppEth);
    case _ =>
  }

  ghost predicate NoFailedZcpp(ps: seq<Packet>) {
    forall i :: 0 <= i < |ps| ==> !ps[i].FailedZcppP?
  }

  /** The table cells that the listener writes in a run, one by one, are those of its messages: what
      a gather races with. (A failed ZCPP receive writes the cells of its last configuration again.) */
  lemma {:induction false} PacketsCells(w: World, ps: seq<Packet>, c: Setup)
    requires AllWellFormed(ps, c) && Run(w, Events(ps), c).Reached? && NoFailedZcpp(ps)
    ensures RunCells(w, Events(ps), c) == RacingMessages.RunCells(w.sys.config, Messages(ps, c))
  {
    if ps != [] {
      hide Step, StepCells, ToEvent, WellFormed, ConfigCells, Settled, Writes, Events;
      var front, p := ps[..|ps| - 1], ps[|ps| - 1];
      EventsFront(ps);
      PacketsCells(w, front, c);
      PacketsRun(w, front, c);
      PacketCells(Run(w, Events(front), c).world, p, c);
      if p.ConfigP? {
        assert Messages(ps, c)[..|Messages(front, c)|] == Messages(front, c);
      } else {
        assert Messages(ps, c) == Messages(front, c);
      }
    }
  }

  /** Read by its own counts, the frame shows for string `a` the range of `count` channels from
      `start` on, and for each of them the byte last written, or what `px` held. */
  ghost predicate Shows(f: seq<byte>, a: nat, count: int, start: int, px: Pixels, ws: seq<Write>)
    requires a < STRINGS
  {
    && WellFormedFrame(f)
    && |Section(f, a)| == count
    && (forall i :: 0 <= i < count ==>
          0 <= start + i < PIXEL_BUFFER_SIZE && Section(f, a)[i] == LastByte(px, ws, start + i))
  }

  lemma RangeOfWrites(px: Pixels, ws: seq<Write>, t: Table, k: nat)
    requires k < SLOTS && StringInRange(t.counts[k], t.starts[k])
    ensures forall i :: 0 <= i < t.counts[k] ==>
              && 0 <= t.starts[k] + i < PIXEL_BUFFER_SIZE
              && RangeOf(ApplyAll(px, ws), t, k)[i] == LastByte(px, ws, t.starts[k] + i)
  {
    hide ApplyAll, LastByte;
    forall i | 0 <= i < t.counts[k]
      ensures 0 <= t.starts[k] + i < PIXEL_BUFFER_SIZE
      ensures RangeOf(ApplyAll(px, ws), t, k)[i] == LastByte(px, ws, t.starts[k] + i)
    {
      ApplyAllAt(px, ws, t.starts[k] + i);
    }
  }

  lemma FrameOfWrites(px: Pixels, ws: seq<Write>, t: Table, port: nat, a: nat)
    requires port < PORTS && a < STRINGS && PortSafe(t, port)
    ensures var k := Slot(port, a);
            Shows(PortFrame(ApplyAll(px, ws), t, port), a, t.counts[k], t.starts[k], px, ws)
  {
    hide PortSafe, StringInRange, ApplyAll, LastByte, RangeOf, PortFrame, Section, WellFormedFrame;
    RoundTrip(ApplyAll(px, ws), t, port, a);
    RangeOfWrites(px, ws, t, Slot(port, a));
  }

  /** Every string shows the range last configured for it, with the bytes most recently sent
      for its channels. */
  ghost predicate ShowsLatest(f: seq<byte>, port: nat, file: Table, px: Pixels, ps: seq<Packet>, c: Setup)
    requires port < PORTS && AllWellFormed(ps, c)
  {
    forall a: nat :: a < STRINGS ==>
      var now := Configured(file, Messages(ps, c), Slot(port, a));
      Shows(f, a, now.0, now.1, px, Writes(ps, c))
  }

  lemma StateShowsLatest(t: Table, port: nat, file: Table, px: Pixels, ps: seq<Packet>, c: Setup)
    requires port < PORTS && AllWellFormed(ps, c)
    requires t == ConfigRun(ConfigState(file, 0), Messages(ps, c)).table && PortSafe(t, port)
    ensures ShowsLatest(PortFrame(ApplyAll(px, Writes(ps, c)), t, port), port, file, px, ps, c)
  {
    forall a: nat | a < STRINGS
      ensures var now := Configured(file, Messages(ps, c), Slot(port, a));
              Shows(PortFrame(ApplyAll(px, Writes(ps, c)), t, port), a, now.0, now.1, px, Writes(ps, c))
    {
      TableAfterRun(file, Messages(ps, c), Slot(port, a));
      FrameOfWrites(px, Writes(ps, c), t, port, a);
    }
  }

  lemma TickSends(w: World, es: seq<Event>, failing: set<nat>, c: Setup, port: nat)
    requires port < PORTS && port < c.pixelPorts && port !in failing
    requires Run(w, es + [Tick(failing)], c).Reached?
    ensures Run(w, es, c).Reached? && PortSafe(Run(w, es, c).world.sys.config.table, port)
    ensures var s := Run(w, es, c).world.sys;
            Sent(w, es + [Tick(failing)], c, port) == Sent(w, es, c, port) + [PortFrame(s.pixels, s.config.table, port)]
  {
  }

  /** With datagrams and frames as atomic steps: after any run of packets, ignored datagrams, failed
      receives and frames, also failing ones, what the worker's next turn adds to what an enabled
      port has sent, unless its transfer fails, is one frame, and it shows the latest configuration
      and the bytes last written. At the start the table is the file's and every pixel is 0. */
  lemma FrameShowsLatest(w: World, file: Table, ps: seq<Packet>, failing: set<nat>, c: Setup, port: nat)
    requires w.sys.config == ConfigState(file, 0)
    requires AllWellFormed(ps, c)
    requires port < PORTS && port < c.pixelPorts && port !in failing
    requires Run(w, Events(ps) + [Tick(failing)], c).Reached?
    ensures Run(w, Events(ps), c).Reached?
    ensures exists f ::
              && Sent(w, Events(ps) + [Tick(failing)], c, port) == Sent(w, Events(ps), c, port) + [f]
              && ShowsLatest(f, port, file, w.sys.pixels, ps, c)
  {
    TickSends(w, Events(ps), failing, c, port);
    PacketsRun(w, ps, c);
    StateShowsLatest(Run(w, Events(ps), c).world.sys.config.table, port, file, w.sys.pixels, ps, c);
  }

  // ----- runs that stay inside the arrays, each frame taken as one step

  /** The table that the messages so far make is safe whenever a frame is due. */
  ghost predicate FramesSafe(c0: ConfigState, ps: seq<Packet>, c: Setup)
    requires AllWellFormed(ps, c)
  {
    ps != [] ==>
      var front := ps[..|ps| - 1];
      && FramesSafe(c0, front, c)
      && (ps[|ps| - 1].FrameP? ==> Worker.EnabledSafe(ConfigRun(c0, Messages(front, c)).table, c.pixelPorts))
  }

  /** With datagrams and frames as atomic steps, a run of well-formed packets stays inside the
      arrays exactly when every frame falls on a safe table of the merged messages. */
  lemma {:induction false} AtomicRunStaysInsideIff(w: World, ps: seq<Packet>, c: Setup)
    requires AllWellFormed(ps, c)
    ensures Run(w, Events(ps), c).Reached? <==> FramesSafe(w.sys.config, ps, c)
  {
    hide Step, Settled, SysAfter, ToEvent, WellFormed, Messages, Writes, LastZcpp, LastAcn;
    hide ConfigRun, ApplyAll, Events;
    NoPackets(w, c);
    if ps != [] {
      EventsFront(ps);
      AtomicRunStaysInsideIff(w, ps[..|ps| - 1], c);
      if Run(w, Events(ps[..|ps| - 1]), c).Reached? {
        PacketsRun(w, ps[..|ps| - 1], c);
        PacketStep(Run(w, Events(ps[..|ps| - 1]), c).world, ps, c);
      }
    }
  }

  /** Every port the worker serves is kept within a payload by every group of messages. */
  ghost predicate SendersKeepCapacity(file: Table, ps: seq<Packet>, c: Setup)
    requires AllWellFormed(ps, c)
  {
    forall p: nat, i: nat :: p < PORTS && p < c.pixelPorts && 0 < i <= |Messages(ps, c)| ==>
      GroupFits(ConfigState(file, 0), Messages(ps, c)[..i], p)
  }

  lemma SendersKeptCapacity(file: Table, ps: seq<Packet>, c: Setup)
    requires ps != [] && AllWellFormed(ps, c) && SendersKeepCapacity(file, ps, c)
    ensures SendersKeepCapacity(file, ps[..|ps| - 1], c)
  {
    var ms, ns := Messages(ps[..|ps| - 1], c), Messages(ps, c);
    assert ms <= ns;
    assert forall i :: 0 <= i <= |ms| ==> ms[..i] == ns[..i];
    hide GroupFits, AllWellFormed, Messages;
  }

  lemma CapacityMakesSafe(file: Table, ps: seq<Packet>, c: Setup)
    requires AllWellFormed(ps, c) && TableInRange(file) && Worker.EnabledSafe(file, c.pixelPorts)
    requires SendersKeepCapacity(file, ps, c)
    ensures Worker.EnabledSafe(ConfigRun(ConfigState(file, 0), Messages(ps, c)).table, c.pixelPorts)
  {
    var ms := Messages(ps, c);
    forall p: nat | p < PORTS && p < c.pixelPorts
      ensures PortSafe(ConfigRun(ConfigState(file, 0), ms).table, p)
    {
      assert ms[..|ms|] == ms;
      CapacityKept(ConfigState(file, 0), ms, p, |ms|);
    }
  }

  lemma {:induction false} FramesKeptSafe(file: Table, ps: seq<Packet>, c: Setup)
    requires AllWellFormed(ps, c) && TableInRange(file) && Worker.EnabledSafe(file, c.pixelPorts)
    requires SendersKeepCapacity(file, ps, c)
    ensures FramesSafe(ConfigState(file, 0), ps, c)
  {
    if ps != [] {
      hide SendersKeepCapacity, WellFormed, Worker.EnabledSafe, TableInRange, Messages, ConfigRun;
      SendersKeptCapacity(file, ps, c);
      FramesKeptSafe(file, ps[..|ps| - 1], c);
      CapacityMakesSafe(file, ps[..|ps| - 1], c);
    }
  }

  /** With datagrams and frames as atomic steps: from a file within capacity, senders of
      well-formed packets who keep each group of configuration messages within capacity, resent
      or not, never drive the program out of its arrays. A frame that races with a message needs
      more, which RacingMessages.RacingMessagesStayInside states. */
  lemma WellBehavedRunsStayInside(w: World, file: Table, ps: seq<Packet>, c: Setup)
    requires w.sys.config == ConfigState(file, 0)
    requires AllWellFormed(ps, c)
    requires TableInRange(file) && Worker.EnabledSafe(file, c.pixelPorts)
    requires SendersKeepCapacity(file, ps, c)
    ensures Run(w, Events(ps), c).Reached?
  {
    AtomicRunStaysInsideIff(w, ps, c);
    FramesKeptSafe(file, ps, c);
  }
}
