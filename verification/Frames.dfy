/** The frame a port transmits: eight 16-bit counts and the channels of its strings. */
module Frames {
  import opened Bytes
  import opened Limits
  import opened PixelBuffer
  import opened StringTable

  const COUNTS_SIZE := 16

  /** `uint16_t` from an `int`. */
  function Narrow(i: int): (u: uint16)
    ensures (i - u) % 0x1_0000 == 0
  {
    i % 0x1_0000
  }

  /** An array of 16-bit words as it lies in the memory of a little-endian machine. */
  function WordsInMemory(ws: seq<uint16>): (m: seq<byte>)
    ensures |m| == 2 * |ws|
    ensures forall a :: 0 <= a < |ws| ==> WordAt(m, 2 * a) == ws[a]
  {
    seq(2 * |ws|, i requires 0 <= i < 2 * |ws| => if i % 2 == 0 then ws[i / 2] % 0x100 else ws[i / 2] / 0x100)
  }

  function WordAt(m: seq<byte>, i: nat): uint16
    requires i + 1 < |m|
  {
    m[i] as int + 0x100 * m[i + 1] as int
  }

  /** The counts of a port's strings as its frame announces them. */
  function HeaderWords(t: Table, port: nat): (ws: seq<uint16>)
    requires port < PORTS
    ensures |ws| == STRINGS
  {
    seq(STRINGS, s requires 0 <= s < STRINGS => Narrow(t.counts[Slot(port, s)]))
  }

  /** The channels of one string; a string without channels has a start that is never used. */
  function RangeOf(px: Pixels, t: Table, k: nat): (d: seq<byte>)
    requires k < SLOTS && StringInRange(t.counts[k], t.starts[k])
    ensures |d| == t.counts[k]
  {
    if t.counts[k] == 0 then [] else px[t.starts[k]..t.starts[k] + t.counts[k]]
  }

  /** The channels of the first `n` strings of a port, in the order they are sent. */
  function Sources(t: Table, port: nat, n: nat): (cs: seq<int>)
    requires port < PORTS && n <= STRINGS && PortSafe(t, port)
    ensures |cs| == Offset(t, port, n)
    ensures forall q :: 0 <= q < |cs| ==> 0 <= cs[q] < PIXEL_BUFFER_SIZE
  {
    if n == 0 then []
    else
      var k := Slot(port, n - 1);
      assert StringInRange(t.counts[k], t.starts[k]);
      Sources(t, port, n - 1) + seq(t.counts[k], i => t.starts[k] + i)
  }

  function Pick(px: Pixels, cs: seq<int>): (d: seq<byte>)
    requires forall q :: 0 <= q < |cs| ==> 0 <= cs[q] < PIXEL_BUFFER_SIZE
    ensures |d| == |cs|
  {
    seq(|cs|, q requires 0 <= q < |cs| => px[cs[q]])
  }

  function PortFrame(px: Pixels, t: Table, port: nat): (f: seq<byte>)
    requires port < PORTS && PortSafe(t, port)
    ensures |f| == COUNTS_SIZE + Offset(t, port, STRINGS) <= COUNTS_SIZE + MAX_CHANNELS_PER_DEVICE
  {
    WordsInMemory(HeaderWords(t, port)) + Pick(px, Sources(t, port, STRINGS))
  }

  // ----- unpacking, from the frame alone

  /** Where the data of string `a` starts, by the announced counts of those before it. */
  function SectionStart(f: seq<byte>, a: nat): nat
    requires a <= STRINGS && COUNTS_SIZE <= |f|
  {
    if a == 0 then COUNTS_SIZE else SectionStart(f, a - 1) + WordAt(f, 2 * (a - 1))
  }

  /** The announced counts delimit the data exactly. */
  predicate WellFormedFrame(f: seq<byte>) {
    COUNTS_SIZE <= |f| == SectionStart(f, STRINGS)
  }

  lemma {:induction false} SectionsGrow(f: seq<byte>, a: nat, b: nat)
    requires a <= b <= STRINGS && COUNTS_SIZE <= |f|
    ensures SectionStart(f, a) <= SectionStart(f, b)
  {
    if a < b {
      SectionsGrow(f, a, b - 1);
    }
  }

  /** What a receiver reads for string `a`. */
  function Section(f: seq<byte>, a: nat): seq<byte>
    requires a < STRINGS && WellFormedFrame(f)
  {
    SectionsGrow(f, a + 1, STRINGS);
    f[SectionStart(f, a)..SectionStart(f, a + 1)]
  }

  lemma {:induction false} CountSurvives(t: Table, port: nat, s: nat)
    requires port < PORTS && s < STRINGS && PortSafe(t, port)
    ensures 0 <= t.counts[Slot(port, s)] <= MAX_CHANNELS_PER_DEVICE
    ensures Narrow(t.counts[Slot(port, s)]) == t.counts[Slot(port, s)]
  {
    assert StringInRange(t.counts[Slot(port, s)], t.starts[Slot(port, s)]);
    assert forall r: nat :: r < STRINGS ==> StringInRange(t.counts[Slot(port, r)], t.starts[Slot(port, r)]);
    OffsetMonotone(t, port, 0, s);
    OffsetMonotone(t, port, s + 1, STRINGS);
  }

  /** The frame's header holds the table's counts for the port. */
  ghost predicate Announces(f: seq<byte>, t: Table, port: nat)
    requires port < PORTS
  {
    COUNTS_SIZE <= |f| && forall a: nat :: a < STRINGS ==> WordAt(f, 2 * a) == t.counts[Slot(port, a)]
  }

  lemma HeaderAnnounces(header: seq<byte>, data: seq<byte>, t: Table, port: nat)
    requires port < PORTS && PortSafe(t, port)
    requires header == WordsInMemory(HeaderWords(t, port))
    ensures Announces(header + data, t, port)
  {
    forall a: nat | a < STRINGS
      ensures WordAt(header + data, 2 * a) == t.counts[Slot(port, a)]
    {
      assert WordAt(header + data, 2 * a) == WordAt(header, 2 * a);
      CountSurvives(t, port, a);
    }
  }

  lemma {:induction false} SectionStartIsOffset(f: seq<byte>, t: Table, port: nat, a: nat)
    requires port < PORTS && a <= STRINGS && Announces(f, t, port)
    ensures SectionStart(f, a) == COUNTS_SIZE + Offset(t, port, a)
  {
    if 0 < a {
      SectionStartIsOffset(f, t, port, a - 1);
    }
  }

  /** A frame that announces the table's counts and has data of their total length is
      delimited by them. */
  lemma SectionOfAnnounced(f: seq<byte>, data: seq<byte>, t: Table, port: nat, a: nat)
    requires port < PORTS && a < STRINGS && Announces(f, t, port)
    requires COUNTS_SIZE + Offset(t, port, STRINGS) == |f| && data == f[COUNTS_SIZE..]
    ensures WellFormedFrame(f)
    ensures 0 <= Offset(t, port, a) <= Offset(t, port, a + 1) <= |data|
    ensures Section(f, a) == data[Offset(t, port, a)..Offset(t, port, a + 1)]
  {
    SectionStartIsOffset(f, t, port, a);
    SectionStartIsOffset(f, t, port, a + 1);
    SectionStartIsOffset(f, t, port, STRINGS);
    SectionsGrow(f, 0, a);
    SectionsGrow(f, a, a + 1);
    SectionsGrow(f, a + 1, STRINGS);
    assert f[COUNTS_SIZE..COUNTS_SIZE + |data|] == data;
    SubSlice(f, COUNTS_SIZE, |data|, Offset(t, port, a), Offset(t, port, a + 1));
  }

  /** The sources of string `a` lie at its offset, each string's channels in order. */
  lemma {:induction false} SourcesOfString(t: Table, port: nat, n: nat, a: nat, i: nat)
    requires port < PORTS && a < n <= STRINGS && PortSafe(t, port)
    requires i < t.counts[Slot(port, a)]
    ensures 0 <= Offset(t, port, a) && Offset(t, port, a) + i < |Sources(t, port, n)|
    ensures Sources(t, port, n)[Offset(t, port, a) + i] == t.starts[Slot(port, a)] + i
  {
    assert forall r: nat :: r < STRINGS ==> StringInRange(t.counts[Slot(port, r)], t.starts[Slot(port, r)]);
    OffsetMonotone(t, port, 0, a);
    if a < n - 1 {
      SourcesOfString(t, port, n - 1, a, i);
    } else {
      assert |Sources(t, port, a)| == Offset(t, port, a);
    }
  }

  /** A string of a safe port is in range and lies between its neighbours in the payload. */
  lemma PlaceOfString(t: Table, port: nat, a: nat)
    requires port < PORTS && a < STRINGS && PortSafe(t, port)
    ensures var k := Slot(port, a);
            && StringInRange(t.counts[k], t.starts[k])
            && 0 <= Offset(t, port, a)
            && Offset(t, port, a + 1) == Offset(t, port, a) + t.counts[k] <= Offset(t, port, STRINGS)
            && Offset(t, port, STRINGS) <= MAX_CHANNELS_PER_DEVICE
  {
    assert forall s: nat :: s < STRINGS ==> StringInRange(t.counts[Slot(port, s)], t.starts[Slot(port, s)]);
    OffsetMonotone(t, port, 0, a);
    OffsetMonotone(t, port, a + 1, STRINGS);
  }

  lemma PickOfString(px: Pixels, t: Table, port: nat, a: nat)
    requires port < PORTS && a < STRINGS && PortSafe(t, port)
    ensures 0 <= Offset(t, port, a) <= Offset(t, port, a + 1) <= Offset(t, port, STRINGS)
    ensures StringInRange(t.counts[Slot(port, a)], t.starts[Slot(port, a)])
    ensures Pick(px, Sources(t, port, STRINGS))[Offset(t, port, a)..Offset(t, port, a + 1)] ==
            RangeOf(px, t, Slot(port, a))
  {
    hide PortSafe, Sources, Offset;
    var k := Slot(port, a);
    PlaceOfString(t, port, a);
    var section := Pick(px, Sources(t, port, STRINGS))[Offset(t, port, a)..Offset(t, port, a + 1)];
    if t.counts[k] != 0 {
      var range := px[t.starts[k]..t.starts[k] + t.counts[k]];
      forall i | 0 <= i < |section|
        ensures section[i] == range[i]
      {
        SourcesOfString(t, port, STRINGS, a, i);
      }
      assert section == range;
    }
  }

  /** The counts lead the frame, low byte first. */
  lemma HeaderBytes(px: Pixels, t: Table, port: nat, a: nat)
    requires port < PORTS && a < STRINGS && PortSafe(t, port)
    ensures PortFrame(px, t, port)[2 * a] == t.counts[8 * port + a] % 0x100
    ensures PortFrame(px, t, port)[2 * a + 1] == t.counts[8 * port + a] / 0x100
  {
    hide PortSafe, Sources, Pick, WordsInMemory, Narrow;
    CountSurvives(t, port, a);
    WordBytes(HeaderWords(t, port), a);
    assert Slot(port, a) == 8 * port + a;
  }

  lemma WordBytes(ws: seq<uint16>, a: nat)
    requires a < |ws|
    ensures WordsInMemory(ws)[2 * a] == ws[a] % 0x100 && WordsInMemory(ws)[2 * a + 1] == ws[a] / 0x100
  {
    hide WordAt;
    assert (2 * a) / 2 == a && (2 * a) % 2 == 0;
    assert (2 * a + 1) / 2 == a && (2 * a + 1) % 2 == 1;
  }

  /** Pack, then unpack: every string's section is its range of the pixel buffer, also for
      strings without channels and for ranges that overlap. */
  lemma RoundTrip(px: Pixels, t: Table, port: nat, a: nat)
    requires port < PORTS && a < STRINGS && PortSafe(t, port)
    ensures WellFormedFrame(PortFrame(px, t, port))
    ensures StringInRange(t.counts[Slot(port, a)], t.starts[Slot(port, a)])
    ensures Section(PortFrame(px, t, port), a) == RangeOf(px, t, Slot(port, a))
  {
    var header, data := WordsInMemory(HeaderWords(t, port)), Pick(px, Sources(t, port, STRINGS));
    HeaderAnnounces(header, data, t, port);
    assert (header + data)[COUNTS_SIZE..] == data;
    SectionOfAnnounced(header + data, data, t, port, a);
    PickOfString(px, t, port, a);
  }
}
