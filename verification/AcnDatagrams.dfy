/** When stale bytes of the E1.31 receive buffer, which is reused from datagram to datagram, matter. */
module AcnDatagrams {
  import opened Bytes
  import opened Limits
  import opened PixelBuffer
  import opened Socket
  import opened Acn

  /** The universe may be that of a packet which starts with the datagram. */
  predicate MayBeFor(d: seq<byte>, u: uint16) {
    && (UNIVERSE_AT < |d| ==> d[UNIVERSE_AT] == u / 0x100)
    && (UNIVERSE_AT + 1 < |d| ==> d[UNIVERSE_AT + 1] == u % 0x100)
  }

  ghost predicate MayBeInRange(d: seq<byte>, universeStart: int, universeEnd: int) {
    exists u: uint16 :: universeStart <= u <= universeEnd && MayBeFor(d, u)
  }

  /** The identifier, as far as the datagram holds it, is not that of E1.31. */
  predicate Foreign(d: seq<byte>) {
    exists i :: 0 <= i < 10 && IDENTIFIER_AT + i < |d| && d[IDENTIFIER_AT + i] != Identifier()[i]
  }

  /** The datagram decides by itself that it is to be ignored, or holds every byte that is read. */
  ghost predicate AcnCovered(d: seq<byte>, universeStart: int, universeEnd: int) {
    || |d| >= ETH_BUFFER_SIZE
    || Foreign(d)
    || !MayBeInRange(d, universeStart, universeEnd)
    || (|d| >= PROPERTY_COUNT_AT + 2
        && var count := FromWire16(d[PROPERTY_COUNT_AT..PROPERTY_COUNT_AT + 2]);
           count <= 1 || |d| >= DATA_AT + count - 1)
  }

  /** A datagram of its true size is covered. */
  lemma TrueSizeIsCovered(p: AcnPacket, universeStart: int, universeEnd: int)
    ensures AcnCovered(AcnBytes(p), universeStart, universeEnd)
  {
  }

  lemma FieldsCovered(d: seq<byte>, x: Eth)
    requires PROPERTY_COUNT_AT + 2 <= |d| && d <= x
    ensures x[IDENTIFIER_AT..IDENTIFIER_AT + 10] == d[IDENTIFIER_AT..IDENTIFIER_AT + 10]
    ensures GetUniverse(x) == FromWire16(d[UNIVERSE_AT..UNIVERSE_AT + 2])
    ensures GetPropertyCount(x) == FromWire16(d[PROPERTY_COUNT_AT..PROPERTY_COUNT_AT + 2]) - 1
  {
  }

  lemma IgnoredAlike(d: seq<byte>, universeStart: int, universeEnd: int, x: Eth)
    requires d <= x && (Foreign(d) || !MayBeInRange(d, universeStart, universeEnd))
    ensures !Accepted(x, universeStart, universeEnd)
  {
    if Foreign(d) {
      var i :| 0 <= i < 10 && IDENTIFIER_AT + i < |d| && d[IDENTIFIER_AT + i] != Identifier()[i];
      assert x[IDENTIFIER_AT..IDENTIFIER_AT + 10][i] == d[IDENTIFIER_AT + i];
    } else {
      assert MayBeFor(d, GetUniverse(x));
    }
  }

  /** A datagram that is not for the range, by its own bytes, is not accepted. */
  lemma IgnoredBuffer(d: seq<byte>, universeStart: int, universeEnd: int, eth: Eth)
    requires Foreign(d) || !MayBeInRange(d, universeStart, universeEnd)
    ensures !Accepted(Received(eth, Datagram(d)), universeStart, universeEnd)
  {
    var k := Kept(d);
    if Foreign(d) {
      var i :| 0 <= i < 10 && IDENTIFIER_AT + i < |d| && d[IDENTIFIER_AT + i] != Identifier()[i];
      assert k[IDENTIFIER_AT + i] == d[IDENTIFIER_AT + i];
    } else {
      assert forall u: uint16 :: MayBeFor(k, u) ==> MayBeFor(d, u);
    }
    IgnoredAlike(k, universeStart, universeEnd, Received(eth, Datagram(d)));
  }

  lemma HeaderCovered(d: seq<byte>, universeStart: int, universeEnd: int, x: Eth)
    requires !Foreign(d) && MayBeInRange(d, universeStart, universeEnd)
    requires d <= x && UNIVERSE_AT + 2 <= |d|
    ensures Accepted(x, universeStart, universeEnd)
  {
    var u: uint16 :| universeStart <= u <= universeEnd && MayBeFor(d, u);
    assert GetUniverse(x) == u;
  }

  lemma DataAlike(d: seq<byte>, px: Pixels, universeStart: int, universeEnd: int, x: Eth, y: Eth)
    requires PROPERTY_COUNT_AT + 2 <= |d| && d <= x && d <= y
    requires var count := FromWire16(d[PROPERTY_COUNT_AT..PROPERTY_COUNT_AT + 2]);
             count <= 1 || |d| >= DATA_AT + count - 1
    ensures Handle(px, universeStart, universeEnd, x) == Handle(px, universeStart, universeEnd, y)
  {
    FieldsCovered(d, x);
    FieldsCovered(d, y);
    var n := GetPropertyCount(x);
    if 0 < n {
      assert x[DATA_AT..DATA_AT + n] == d[DATA_AT..DATA_AT + n] == y[DATA_AT..DATA_AT + n];
    }
    hide Apply, GetUniverse, GetPropertyCount;
  }

  lemma AcnCoveredIndependent(d: seq<byte>, px: Pixels, universeStart: int, universeEnd: int, e: Eth, f: Eth)
    requires AcnCovered(d, universeStart, universeEnd)
    ensures Handle(px, universeStart, universeEnd, Received(e, Datagram(d))) ==
            Handle(px, universeStart, universeEnd, Received(f, Datagram(d)))
  {
    var x, y := Received(e, Datagram(d)), Received(f, Datagram(d));
    if |d| >= ETH_BUFFER_SIZE {
      assert x == y;
    } else if Foreign(d) || !MayBeInRange(d, universeStart, universeEnd) {
      IgnoredAlike(d, universeStart, universeEnd, x);
      IgnoredAlike(d, universeStart, universeEnd, y);
    } else {
      DataAlike(d, px, universeStart, universeEnd, x, y);
    }
  }

  function Unlit(): Pixels {
    seq(PIXEL_BUFFER_SIZE, i => 0)
  }

  /** A packet with one byte of data, which is not 0, either leaves the arrays or shows. */
  lemma OneByteShows(universeStart: int, universeEnd: int, f: Eth)
    requires Accepted(f, universeStart, universeEnd) && GetPropertyCount(f) == 1 && f[DATA_AT] != 0
    ensures Handle(Unlit(), universeStart, universeEnd, f) != Done(Unlit())
  {
    if AcnInside(f, universeStart) {
      var w := AcnWrite(f, universeStart);
      assert Apply(Unlit(), w)[w.at] == f[DATA_AT];
    }
  }

  /** The last data byte that is written is stale: changing it shows. */
  lemma StaleByte(d: seq<byte>, universeStart: int, universeEnd: int, x: Eth) returns (f: Eth)
    requires Accepted(x, universeStart, universeEnd) && AcnInside(x, universeStart) && 0 < GetPropertyCount(x)
    requires d <= x && |d| < DATA_AT + GetPropertyCount(x)
    ensures d <= f
    ensures Handle(Unlit(), universeStart, universeEnd, x) != Handle(Unlit(), universeStart, universeEnd, f)
  {
    var last := DATA_AT + GetPropertyCount(x) - 1;
    f := x[last := (x[last] as int + 1) % 0x100];
    assert f[IDENTIFIER_AT..IDENTIFIER_AT + 10] == x[IDENTIFIER_AT..IDENTIFIER_AT + 10];
    var w := AcnWrite(x, universeStart);
    var ch := w.at + |w.data| - 1;
    assert Apply(Unlit(), w)[ch] == x[last];
    assert Apply(Unlit(), AcnWrite(f, universeStart))[ch] == f[last];
  }

  /** No data, but the low byte of their count is stale: an old packet may bring a byte. */
  lemma StaleCount(d: seq<byte>, universeStart: int, universeEnd: int, x: Eth) returns (f: Eth)
    requires Accepted(x, universeStart, universeEnd) && AcnInside(x, universeStart) && GetPropertyCount(x) == 0
    requires d <= x && |d| <= PROPERTY_COUNT_AT + 1
    ensures d <= f
    ensures Handle(Unlit(), universeStart, universeEnd, x) != Handle(Unlit(), universeStart, universeEnd, f)
  {
    f := x[PROPERTY_COUNT_AT + 1 := 2][DATA_AT := 1];
    assert f[IDENTIFIER_AT..IDENTIFIER_AT + 10] == x[IDENTIFIER_AT..IDENTIFIER_AT + 10];
    OneByteShows(universeStart, universeEnd, f);
    assert Apply(Unlit(), AcnWrite(x, universeStart)) == Unlit();
  }

  /** The identifier or the universe is stale: an old packet may complete the datagram. */
  lemma StaleHeader(d: seq<byte>, universeStart: int, universeEnd: int, x: Eth) returns (f: Eth)
    requires !Foreign(d) && MayBeInRange(d, universeStart, universeEnd)
    requires d <= x && |d| <= UNIVERSE_AT + 1 && !Accepted(x, universeStart, universeEnd)
    ensures d <= f
    ensures Handle(Unlit(), universeStart, universeEnd, x) != Handle(Unlit(), universeStart, universeEnd, f)
  {
    var u: uint16 :| universeStart <= u <= universeEnd && MayBeFor(d, u);
    var g := Splice(Splice(x, IDENTIFIER_AT, Identifier()), UNIVERSE_AT, [u / 0x100, u % 0x100]);
    f := g[PROPERTY_COUNT_AT := 0][PROPERTY_COUNT_AT + 1 := 2][DATA_AT := 1];
    assert f[IDENTIFIER_AT..IDENTIFIER_AT + 10] == Identifier();
    OneByteShows(universeStart, universeEnd, f);
  }

  lemma AcnUncovered(d: seq<byte>, universeStart: int, universeEnd: int, px: Pixels, eth: Eth) returns (f: Eth)
    requires !AcnCovered(d, universeStart, universeEnd)
    requires Handle(px, universeStart, universeEnd, Received(eth, Datagram(d))).Done?
    ensures Handle(Unlit(), universeStart, universeEnd, Received(eth, Datagram(d))) !=
            Handle(Unlit(), universeStart, universeEnd, Received(f, Datagram(d)))
  {
    var x := Received(eth, Datagram(d));
    if PROPERTY_COUNT_AT + 2 <= |d| {
      FieldsCovered(d, x);
    }
    if !Accepted(x, universeStart, universeEnd) {
      if UNIVERSE_AT + 2 <= |d| {
        HeaderCovered(d, universeStart, universeEnd, x);
      }
      f := StaleHeader(d, universeStart, universeEnd, x);
    } else if 0 < GetPropertyCount(x) {
      f := StaleByte(d, universeStart, universeEnd, x);
    } else {
      f := StaleCount(d, universeStart, universeEnd, x);
    }
    assert Received(f, Datagram(d)) == f;
  }

  /** Handling is a function of the datagram and the pixels, whatever the receive buffer held
      before, exactly when the datagram is covered. (Over some buffer it stays inside the arrays.) */
  lemma AcnStaleBytesMatterIffUncovered(d: seq<byte>, universeStart: int, universeEnd: int, px0: Pixels, eth: Eth)
    requires Handle(px0, universeStart, universeEnd, Received(eth, Datagram(d))).Done?
    ensures AcnCovered(d, universeStart, universeEnd) <==>
            forall px: Pixels, e: Eth, f: Eth ::
              Handle(px, universeStart, universeEnd, Received(e, Datagram(d))) ==
              Handle(px, universeStart, universeEnd, Received(f, Datagram(d)))
  {
    if AcnCovered(d, universeStart, universeEnd) {
      forall px: Pixels, e: Eth, f: Eth
        ensures Handle(px, universeStart, universeEnd, Received(e, Datagram(d))) ==
                Handle(px, universeStart, universeEnd, Received(f, Datagram(d)))
      {
        AcnCoveredIndependent(d, px, universeStart, universeEnd, e, f);
      }
    } else {
      var f := AcnUncovered(d, universeStart, universeEnd, px0, eth);
    }
  }
}
