/** The pixel buffer all threads share, and the byte-range writes into it. */
module PixelBuffer {
  import opened Bytes
  import opened Limits

  type Pixels = s: seq<byte> | |s| == PIXEL_BUFFER_SIZE
    witness seq(PIXEL_BUFFER_SIZE, i => 0)

  datatype WriteRaw = Write(at: nat, data: seq<byte>)
  {
    predicate Covers(ch: int) {
      at <= ch < at + |data|
    }
  }

  /** A write that stays inside the buffer. */
  type Write = w: WriteRaw | w.at + |w.data| <= PIXEL_BUFFER_SIZE
    witness Write(0, [])

  function Apply(px: Pixels, w: Write): Pixels {
    Splice(px, w.at, w.data)
  }

  function ApplyAll(px: Pixels, ws: seq<Write>): Pixels {
    if ws == [] then px else Apply(ApplyAll(px, ws[..|ws| - 1]), ws[|ws| - 1])
  }

  lemma {:induction false} ApplyAllConcat(px: Pixels, ws: seq<Write>, vs: seq<Write>)
    ensures ApplyAll(px, ws + vs) == ApplyAll(ApplyAll(px, ws), vs)
  {
    if vs == [] {
      assert ws + vs == ws;
    } else {
      ApplyAllConcat(px, ws, vs[..|vs| - 1]);
      assert (ws + vs)[..|ws + vs| - 1] == ws + vs[..|vs| - 1];
    }
  }

  /** The position of the last write to channel `ch`, or -1. */
  function LastCovering(ws: seq<Write>, ch: int): (i: int)
    ensures -1 <= i < |ws|
    ensures 0 <= i ==> ws[i].Covers(ch)
    ensures forall j :: 0 <= j < |ws| && i < j ==> !ws[j].Covers(ch)
  {
    if ws == [] then -1
    else if ws[|ws| - 1].Covers(ch) then |ws| - 1
    else LastCovering(ws[..|ws| - 1], ch)
  }

  /** The byte most recently written to a channel, or what the buffer held before. */
  function LastByte(px: Pixels, ws: seq<Write>, ch: nat): byte
    requires ch < PIXEL_BUFFER_SIZE
  {
    var i := LastCovering(ws, ch);
    if i < 0 then px[ch] else ws[i].data[ch - ws[i].at]
  }

  /** Last write wins, byte by byte. */
  lemma {:induction false} ApplyAllAt(px: Pixels, ws: seq<Write>, ch: nat)
    requires ch < PIXEL_BUFFER_SIZE
    ensures ApplyAll(px, ws)[ch] == LastByte(px, ws, ch)
  {
    if ws != [] {
      ApplyAllAt(px, ws[..|ws| - 1], ch);
    }
  }

  /** Writes to disjoint ranges commute. */
  lemma DisjointWritesCommute(px: Pixels, v: Write, w: Write)
    requires v.at + |v.data| <= w.at || w.at + |w.data| <= v.at
    ensures Apply(Apply(px, v), w) == Apply(Apply(px, w), v)
  {
  }

  /** Since `w`, each of its channels got no byte, or last the same byte. */
  ghost predicate KeptBy(w: Write, ws: seq<Write>) {
    forall ch :: w.Covers(ch) && 0 <= LastCovering(ws, ch) ==>
      ws[LastCovering(ws, ch)].data[ch - ws[LastCovering(ws, ch)].at] == w.data[ch - w.at]
  }

  /** A channel of `w` after `w` and other writes. */
  lemma ByteSince(px: Pixels, w: Write, ws: seq<Write>, ch: nat)
    requires w.Covers(ch)
    ensures var i := LastCovering(ws, ch);
            ApplyAll(Apply(px, w), ws)[ch] == if i < 0 then w.data[ch - w.at] else ws[i].data[ch - ws[i].at]
  {
    hide ApplyAll;
    ApplyAllAt(Apply(px, w), ws, ch);
  }

  lemma RewriteUnchanged(px: Pixels, w: Write)
    ensures Apply(px, w) == px <==> forall ch: nat :: w.Covers(ch) ==> px[ch] == w.data[ch - w.at]
  {
    if forall ch: nat :: w.Covers(ch) ==> px[ch] == w.data[ch - w.at] {
      assert Apply(px, w) == px;
    } else {
      var ch: nat :| w.Covers(ch) && px[ch] != w.data[ch - w.at];
      assert Apply(px, w)[ch] == w.data[ch - w.at];
    }
  }

  /** Writing `w` once more, after other writes, changes nothing exactly when these kept it. */
  lemma RewriteUnchangedIff(px: Pixels, w: Write, ws: seq<Write>)
    ensures var now := ApplyAll(Apply(px, w), ws); Apply(now, w) == now <==> KeptBy(w, ws)
  {
    var now := ApplyAll(Apply(px, w), ws);
    RewriteUnchanged(now, w);
    hide ApplyAll, Apply;
    forall ch: nat | w.Covers(ch)
      ensures var i := LastCovering(ws, ch);
              now[ch] == if i < 0 then w.data[ch - w.at] else ws[i].data[ch - ws[i].at]
    {
      ByteSince(px, w, ws, ch);
    }
  }

  /** Every byte of the packet is the byte of the frame at its address. */
  ghost predicate PartOf(w: Write, base: nat, frame: seq<byte>) {
    forall ch :: w.Covers(ch) ==> base <= ch < base + |frame| && w.data[ch - w.at] == frame[ch - base]
  }

  ghost predicate Tiled(ws: seq<Write>, base: nat, frame: seq<byte>) {
    forall ch :: base <= ch < base + |frame| ==> 0 <= LastCovering(ws, ch)
  }

  lemma TiledFrameIsLeft(px: Pixels, ws: seq<Write>, base: nat, frame: seq<byte>)
    requires base + |frame| <= PIXEL_BUFFER_SIZE
    requires forall i :: 0 <= i < |ws| ==> PartOf(ws[i], base, frame)
    requires Tiled(ws, base, frame)
    ensures ApplyAll(px, ws) == Splice(px, base, frame)
  {
    hide ApplyAll, Splice;
    forall ch: nat | ch < PIXEL_BUFFER_SIZE
      ensures ApplyAll(px, ws)[ch] == Splice(px, base, frame)[ch]
    {
      ApplyAllAt(px, ws, ch);
      var i := LastCovering(ws, ch);
      assert 0 <= i ==> PartOf(ws[i], base, frame);
    }
  }

  lemma GapKeepsOldByte(ws: seq<Write>, base: nat, frame: seq<byte>, ch: nat) returns (px: Pixels)
    requires base + |frame| <= PIXEL_BUFFER_SIZE
    requires base <= ch < base + |frame| && LastCovering(ws, ch) < 0
    ensures ApplyAll(px, ws) != Splice(px, base, frame)
  {
    var other: byte := (frame[ch - base] as int + 1) % 0x100;
    px := seq(PIXEL_BUFFER_SIZE, i => other);
    ApplyAllAt(px, ws, ch);
    assert Splice(px, base, frame)[ch] == frame[ch - base];
  }

  /** Packets of one frame, in any order and with any repetition, leave exactly that
      frame in its range and the rest of the buffer as it was, whatever was there,
      if and only if together they reach every byte of the frame. */
  lemma Reassembly(ws: seq<Write>, base: nat, frame: seq<byte>)
    requires base + |frame| <= PIXEL_BUFFER_SIZE
    requires forall i :: 0 <= i < |ws| ==> PartOf(ws[i], base, frame)
    ensures (forall px: Pixels :: ApplyAll(px, ws) == Splice(px, base, frame)) <==> Tiled(ws, base, frame)
  {
    if Tiled(ws, base, frame) {
      forall px: Pixels
        ensures ApplyAll(px, ws) == Splice(px, base, frame)
      {
        TiledFrameIsLeft(px, ws, base, frame);
      }
    } else {
      var ch :| base <= ch < base + |frame| && LastCovering(ws, ch) < 0;
      var px := GapKeepsOldByte(ws, base, frame, ch);
    }
  }

  /** Two deliveries of the same packets, reordered and repeated at will, agree wherever
      packets that reach a channel agree about its byte. */
  lemma DeliveryOrderIrrelevant(px: Pixels, ws: seq<Write>, vs: seq<Write>, base: nat, frame: seq<byte>)
    requires base + |frame| <= PIXEL_BUFFER_SIZE
    requires forall w: Write :: w in ws <==> w in vs
    requires forall i :: 0 <= i < |ws| ==> PartOf(ws[i], base, frame)
    ensures ApplyAll(px, ws) == ApplyAll(px, vs)
  {
    forall ch: nat | ch < PIXEL_BUFFER_SIZE
      ensures ApplyAll(px, ws)[ch] == ApplyAll(px, vs)[ch]
    {
      ApplyAllAt(px, ws, ch);
      ApplyAllAt(px, vs, ch);
      var i, j := LastCovering(ws, ch), LastCovering(vs, ch);
      if 0 <= i {
        assert ws[i] in vs;
      }
      if 0 <= j {
        assert vs[j] in ws;
      }
    }
  }
}
