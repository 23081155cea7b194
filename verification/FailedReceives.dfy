/** A receive that fails: its result is not looked at, so the listener handles its buffer once
    more, over whatever the other listener has written since. */
module FailedReceives {
  import opened Bytes
  import opened Limits
  import opened PixelBuffer
  import opened StringTable
  import opened Socket
  import opened Controller
  import Wire
  import Zcpp
  import Acn
  import Datagrams

  /** What handling a ZCPP receive buffer writes to the pixels. */
  ghost function ZcppWrites(eth: Eth): (ws: seq<Write>)
    ensures |ws| <= 1
  {
    if eth[..4] == Wire.Token() && eth[4] == Wire.TYPE_DATA && Zcpp.DataInside(eth) then [Zcpp.DecodeData(eth)] else []
  }

  /** What handling an E1.31 receive buffer writes to the pixels. */
  ghost function AcnWrites(eth: Eth, c: Setup): (ws: seq<Write>)
    ensures |ws| <= 1
  {
    if Acn.Accepted(eth, c.universeStart, c.UniverseEnd()) && Acn.AcnInside(eth, c.universeStart)
    then [Acn.AcnWrite(eth, c.universeStart)] else []
  }

  /** What an event writes to the pixels. */
  ghost function EventWrites(w: World, e: Event, c: Setup): (ws: seq<Write>)
    ensures |ws| <= 1
  {
    match e
    case ZcppArrival(z) => ZcppWrites(Received(w.zcppEth, z))
    case AcnArrival(a) => AcnWrites(Received(w.acnEth, a), c)
    case Tick(_) => []
  }

  /** What a run writes to the pixels, in order. */
  ghost function RunWrites(w: World, es: seq<Event>, c: Setup): seq<Write>
    requires Run(w, es, c).Reached?
  {
    if es == [] then []
    else
      RunWrites(w, es[..|es| - 1], c) + EventWrites(Run(w, es[..|es| - 1], c).world, es[|es| - 1], c)
  }

  lemma EventPixels(w: World, e: Event, c: Setup)
    requires Step(w, e, c).Reached?
    ensures Step(w, e, c).world.sys.pixels == ApplyAll(w.sys.pixels, EventWrites(w, e, c))
    ensures !e.ZcppArrival? ==>
              Step(w, e, c).world.sys.config == w.sys.config && Step(w, e, c).world.zcppEth == w.zcppEth
    ensures !e.AcnArrival? ==> Step(w, e, c).world.acnEth == w.acnEth
  {
    match e
    case ZcppArrival(z) => ZcppAgain(w.sys, Received(w.zcppEth, z), Step(w, e, c).world.sys);
    case AcnArrival(n) => AcnAgain(w.sys.pixels, Received(w.acnEth, n), c, w.sys.pixels);
    case Tick(_) =>
  }

  lemma {:induction false} RunPixels(w: World, es: seq<Event>, c: Setup)
    requires Run(w, es, c).Reached?
    ensures Run(w, es, c).world.sys.pixels == ApplyAll(w.sys.pixels, RunWrites(w, es, c))
    ensures (forall i :: 0 <= i < |es| ==> !es[i].ZcppArrival?) ==>
              Run(w, es, c).world.sys.config == w.sys.config && Run(w, es, c).world.zcppEth == w.zcppEth
    ensures (forall i :: 0 <= i < |es| ==> !es[i].AcnArrival?) ==> Run(w, es, c).world.acnEth == w.acnEth
  {
    assert ApplyAll(w.sys.pixels, []) == w.sys.pixels;
    hide Step, ApplyAll, EventWrites;
    if es != [] {
      var front := es[..|es| - 1];
      RunPixels(w, front, c);
      EventPixels(Run(w, front, c).world, es[|es| - 1], c);
      ApplyAllConcat(w.sys.pixels, RunWrites(w, front, c), EventWrites(Run(w, front, c).world, es[|es| - 1], c));
    }
  }

  lemma RewriteAllUnchangedIff(px: Pixels, ws: seq<Write>, others: seq<Write>)
    requires |ws| <= 1
    ensures var now := ApplyAll(ApplyAll(px, ws), others);
            ApplyAll(now, ws) == now <==> forall p :: p in ws ==> KeptBy(p, others)
  {
    if ws != [] {
      assert ws[..0] == [];
      hide KeptBy;
      RewriteUnchangedIff(px, ws[0], others);
      assert forall p :: p in ws <==> p == ws[0];
    }
  }

  /** Handling a buffer again, over what others have written to the pixels. */
  lemma ZcppAgain(s: Zcpp.Sys, eth: Eth, later: Zcpp.Sys)
    requires Zcpp.Handle(s, eth).Done? && later.config == Zcpp.Handle(s, eth).sys.config
    ensures Zcpp.Handle(later, eth) == Zcpp.Done(later.(pixels := ApplyAll(later.pixels, ZcppWrites(eth))))
    ensures Zcpp.Handle(s, eth).sys.pixels == ApplyAll(s.pixels, ZcppWrites(eth))
  {
    Zcpp.HandlingTwice(s, eth);
    hide ConfigStep, Zcpp.ConfigInside, Zcpp.DecodeConfig, Zcpp.DecodeData, Apply;
    if ZcppWrites(eth) != [] {
      assert ZcppWrites(eth)[..0] == [];
    }
  }

  lemma AcnAgain(px: Pixels, eth: Eth, c: Setup, later: Pixels)
    requires Acn.Handle(px, c.universeStart, c.UniverseEnd(), eth).Done?
    ensures Acn.Handle(later, c.universeStart, c.UniverseEnd(), eth) ==
            Acn.Done(ApplyAll(later, AcnWrites(eth, c)))
    ensures Acn.Handle(px, c.universeStart, c.UniverseEnd(), eth).pixels == ApplyAll(px, AcnWrites(eth, c))
  {
    hide Apply, Acn.Accepted, Acn.AcnInside, Acn.AcnWrite;
    if AcnWrites(eth, c) != [] {
      assert AcnWrites(eth, c)[..0] == [];
    }
  }

  /** After a ZCPP arrival and any events of others, a failed ZCPP receive leaves the state
      as it is, if and only if the buffer holds no data packet, or since it was handled each
      of its channels got no byte, or last the same byte, from the other listener. */
  lemma FailedZcppReceiveIff(w: World, z: Arrival, others: seq<Event>, c: Setup)
    requires forall i :: 0 <= i < |others| ==> !others[i].ZcppArrival?
    requires Step(w, ZcppArrival(z), c).Reached? && Run(Step(w, ZcppArrival(z), c).world, others, c).Reached?
    ensures var first := Step(w, ZcppArrival(z), c).world;
            var now := Run(first, others, c).world;
            && Step(now, ZcppArrival(Failed), c).Reached?
            && (Step(now, ZcppArrival(Failed), c).world == now <==>
                forall p :: p in EventWrites(w, ZcppArrival(z), c) ==> KeptBy(p, RunWrites(first, others, c)))
  {
    var first := Step(w, ZcppArrival(z), c).world;
    var now, ws := Run(first, others, c).world, EventWrites(w, ZcppArrival(z), c);
    RunPixels(first, others, c);
    ZcppAgain(w.sys, first.zcppEth, now.sys);
    hide KeptBy, Zcpp.Handle, ZcppWrites, Run, RunWrites, ApplyAll;
    RewriteAllUnchangedIff(w.sys.pixels, ws, RunWrites(first, others, c));
  }

  /** The same for the E1.31 listener, whose packets touch the pixels only. */
  lemma FailedAcnReceiveIff(w: World, a: Arrival, others: seq<Event>, c: Setup)
    requires forall i :: 0 <= i < |others| ==> !others[i].AcnArrival?
    requires Step(w, AcnArrival(a), c).Reached? && Run(Step(w, AcnArrival(a), c).world, others, c).Reached?
    ensures var first := Step(w, AcnArrival(a), c).world;
            var now := Run(first, others, c).world;
            && Step(now, AcnArrival(Failed), c).Reached?
            && (Step(now, AcnArrival(Failed), c).world == now <==>
                forall p :: p in EventWrites(w, AcnArrival(a), c) ==> KeptBy(p, RunWrites(first, others, c)))
  {
    var first := Step(w, AcnArrival(a), c).world;
    var now, ws := Run(first, others, c).world, EventWrites(w, AcnArrival(a), c);
    RunPixels(first, others, c);
    AcnAgain(w.sys.pixels, first.acnEth, c, now.sys.pixels);
    hide KeptBy, Acn.Handle, AcnWrites, Run, RunWrites, ApplyAll;
    RewriteAllUnchangedIff(w.sys.pixels, ws, RunWrites(first, others, c));
  }

  function OldByte(): Wire.DataPacket {
    Wire.DataPacket(0, 0, 0, 0, 0, [7])
  }

  function NewByte(universe: uint16): Acn.AcnPacket {
    Acn.AcnPacket(seq(4, i => 0), seq(99, i => 0), universe, seq(8, i => 0), 0, [9])
  }

  lemma TwoEvents(w: World, d: Event, e: Event, c: Setup)
    ensures Run(w, [d, e], c) ==
            if Step(w, d, c).Reached? then Step(Step(w, d, c).world, e, c) else OutOfBounds
    ensures Run(w, [d], c) == Step(w, d, c)
  {
    var es := [d, e];
    assert es[..|es| - 1] == [d] && [d][..0] == [];
    assert Run(w, [d], c) == Step(w, d, c) by {
      assert Run(w, [], c) == Reached(w);
    }
  }

  /** A stale ZCPP packet overwrites a newer universe: channel 0 gets 7 over ZCPP, then 9 over
      E1.31, and a failed ZCPP receive makes it 7 again. */
  lemma FailedReceiveReverts(w: World, c: Setup)
    requires 0 <= c.universeStart < 0x1_0000 && 1 <= c.universeCount
    ensures var es := [ZcppArrival(Datagram(Wire.DataBytes(OldByte()))),
                       AcnArrival(Datagram(Acn.AcnBytes(NewByte(c.universeStart))))];
            && Run(w, es, c).Reached? && Run(w, es, c).world.sys.pixels[0] == 9
            && Run(w, es + [ZcppArrival(Failed)], c).Reached?
            && Run(w, es + [ZcppArrival(Failed)], c).world.sys.pixels[0] == 7
  {
    var z, a := Datagram(Wire.DataBytes(OldByte())), Datagram(Acn.AcnBytes(NewByte(c.universeStart)));
    var es := [ZcppArrival(z), AcnArrival(a)];
    Datagrams.DataRoundTrip(OldByte(), w.zcppEth, w.sys);
    var first := Step(w, ZcppArrival(z), c).world;
    Acn.AcnRoundTrip(NewByte(c.universeStart), w.acnEth, first.sys.pixels, c.universeStart, c.UniverseEnd());
    TwoEvents(w, ZcppArrival(z), AcnArrival(a), c);
    var now := Run(w, es, c).world;
    Datagrams.DataRoundTrip(OldByte(), w.zcppEth, now.sys);
    assert Received(now.zcppEth, Failed) == Received(w.zcppEth, z);
    assert (es + [ZcppArrival(Failed)])[..2] == es;
  }

  /** A receive that fails before anything has arrived handles a buffer that was never
      initialised: for some contents it changes a pixel, for some it leaves the arrays. */
  lemma FailedFirstReceive(s: Zcpp.Sys, acnEth: Eth, c: Setup) returns (changing: Eth, leaving: Eth)
    ensures var after := Step(World(s, changing, acnEth), ZcppArrival(Failed), c);
            after.Reached? && after.world.sys.pixels[0] != s.pixels[0]
    ensures Step(World(s, leaving, acnEth), ZcppArrival(Failed), c).OutOfBounds?
  {
    var dark: Eth := seq(ETH_BUFFER_SIZE, i => 0);
    var d := Wire.DataPacket(0, 0, 0, 0, 0, [(s.pixels[0] as int + 1) % 0x100]);
    assert Apply(s.pixels, Write(0, d.data))[0] == d.data[0] != s.pixels[0];
    hide Wire.DataBytes, Zcpp.DataAddress, Zcpp.DataLength, Apply;
    changing := Received(dark, Datagram(Wire.DataBytes(d)));
    Datagrams.DataRoundTrip(d, dark, s);
    assert Received(changing, Failed) == changing;
    var far := Wire.DataPacket(0, 0, 0, PIXEL_BUFFER_SIZE, 0, [1]);
    leaving := Received(dark, Datagram(Wire.DataBytes(far)));
    Datagrams.DataFieldsRoundTrip(far, dark);
    assert Received(leaving, Failed) == leaving;
  }
}
