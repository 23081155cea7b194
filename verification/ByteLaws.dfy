/** What the handling of a receive buffer does, byte by byte: the two protocols in plain numbers,
    without the constants, codecs and decoding functions of the other modules. */
module ByteLaws {
  import opened Bytes
  import opened PixelBuffer
  import opened StringTable
  import opened Socket
  import Wire
  import Zcpp
  import Acn

  /** A datagram overwrites the front of a 1500-byte receive buffer. */
  lemma ReceivedBytes(eth: Eth, d: seq<byte>, i: nat)
    requires i < 1500
    ensures |Received(eth, Datagram(d))| == 1500
    ensures Received(eth, Datagram(d))[i] == if i < |d| then d[i] else eth[i]
    ensures Received(eth, Failed) == eth
  {
  }

  // ----- ZCPP

  /** "ZCPP" */
  lemma TokenBytes(eth: Eth)
    ensures eth[..4] == Wire.Token() <==> eth[0] == 0x5A && eth[1] == 0x43 && eth[2] == 0x50 && eth[3] == 0x50
  {
    assert |eth[..4]| == 4;
    if eth[0] == 0x5A && eth[1] == 0x43 && eth[2] == 0x50 && eth[3] == 0x50 {
      assert eth[..4] == [0x5A, 0x43, 0x50, 0x50];
    } else {
      assert eth[..4][0] == eth[0] && eth[..4][1] == eth[1] && eth[..4][2] == eth[2] && eth[..4][3] == eth[3];
    }
  }

  lemma BigEndian32(eth: Eth, o: nat)
    requires o + 4 <= 1500
    ensures FromWire32(eth[o..o + 4]) ==
            eth[o] as int * 0x100_0000 + eth[o + 1] as int * 0x1_0000 + eth[o + 2] as int * 0x100 + eth[o + 3]
  {
  }

  lemma BigEndian16(eth: Eth, o: nat)
    requires o + 2 <= 1500
    ensures FromWire16(eth[o..o + 2]) == eth[o] as int * 0x100 + eth[o + 1]
  {
  }

  /** Packets of another token or type change nothing. */
  lemma ZcppOtherLaw(s: Zcpp.Sys, eth: Eth)
    requires !(eth[0] == 0x5A && eth[1] == 0x43 && eth[2] == 0x50 && eth[3] == 0x50)
             || (eth[4] != 0x0A && eth[4] != 0x14)
    ensures Zcpp.Handle(s, eth) == Zcpp.Done(s)
  {
    TokenBytes(eth);
  }

  /** A data packet: the big-endian address in bytes 8 to 11, the big-endian length in bytes 12
      and 13, the data from byte 15 on. */
  lemma ZcppDataLaw(s: Zcpp.Sys, eth: Eth)
    requires eth[0] == 0x5A && eth[1] == 0x43 && eth[2] == 0x50 && eth[3] == 0x50 && eth[4] == 0x14
    ensures var a := eth[8] as int * 0x100_0000 + eth[9] as int * 0x1_0000 + eth[10] as int * 0x100 + eth[11] as int;
            var n := eth[12] as int * 0x100 + eth[13] as int;
            var o := Zcpp.Handle(s, eth);
            && (o.Done? <==> 15 + n <= 1500 && a + n <= 24576)
            && (o.Done? ==>
                  && o.sys.config == s.config
                  && forall ch :: 0 <= ch < 24576 ==>
                       o.sys.pixels[ch] == if a <= ch < a + n then eth[15 + ch - a] else s.pixels[ch])
  {
    TokenBytes(eth);
    BigEndian32(eth, 8);
    BigEndian16(eth, 12);
    hide Wire.Token, FromWire32, FromWire16;
  }

  /** Entry `a` of a configuration, 16 bytes from byte 44 + 16 * a on, names the string. */
  predicate Names(eth: Eth, a: nat, port: nat, str: nat)
    requires 44 + 16 * (a + 1) <= 1500
  {
    eth[44 + 16 * a] == port && eth[45 + 16 * a] == str
  }

  /** Entry `a` names a string that exists. */
  predicate EntryInside(eth: Eth, a: nat)
    requires 44 + 16 * (a + 1) <= 1500
  {
    eth[44 + 16 * a] < 4 && eth[45 + 16 * a] < 8
  }

  /** Every entry is within the receive buffer and names a string that exists. */
  predicate EntriesInside(eth: Eth) {
    44 + 16 * eth[43] as int <= 1500 && forall a: nat :: a < eth[43] ==> EntryInside(eth, a)
  }

  /** Four bytes as a signed big-endian number. */
  function Signed(b0: byte, b1: byte, b2: byte, b3: byte): (v: int)
    ensures -0x8000_0000 <= v < 0x8000_0000
    ensures v % 0x1_0000_0000 == b0 as int * 0x100_0000 + b1 as int * 0x1_0000 + b2 as int * 0x100 + b3
  {
    (if b0 < 0x80 then b0 as int else b0 as int - 0x100) * 0x100_0000 + b1 as int * 0x1_0000 + b2 as int * 0x100 + b3
  }

  lemma SignedWord(eth: Eth, o: nat)
    requires o + 4 <= 1500
    ensures ToInt32(FromWire32(eth[o..o + 4])) == Signed(eth[o], eth[o + 1], eth[o + 2], eth[o + 3])
  {
    BigEndian32(eth, o);
    hide FromWire32;
  }

  lemma EntryBytes(eth: Eth, a: nat)
    requires 44 + 16 * (a + 1) <= 1500
    ensures var o, e := 44 + 16 * a, Zcpp.EntryAt(eth, a);
            && e.port == eth[o] && e.str == eth[o + 1]
            && e.start == Signed(eth[o + 4], eth[o + 5], eth[o + 6], eth[o + 7])
            && e.count == Signed(eth[o + 8], eth[o + 9], eth[o + 10], eth[o + 11])
  {
    SignedWord(eth, 44 + 16 * a + 4);
    SignedWord(eth, 44 + 16 * a + 8);
  }

  lemma InsideBytes(eth: Eth)
    ensures Zcpp.ConfigInside(eth) <==> EntriesInside(eth)
  {
    hide Signed, Zcpp.EntryAt;
    if 44 + 16 * eth[43] as int <= 1500 {
      forall a: nat | a < eth[43]
        ensures EntryInside(eth, a) <==> Zcpp.EntryAt(eth, a).port < 4 && Zcpp.EntryAt(eth, a).str < 8
      {
        EntryBytes(eth, a);
      }
    }
  }

  /** Entry `a` is the last that names the string; -1 if there is none. */
  predicate LastNaming(eth: Eth, port: nat, str: nat, a: int)
    requires EntriesInside(eth)
  {
    && -1 <= a < eth[43]
    && (0 <= a ==> Names(eth, a, port, str))
    && forall b: nat :: a < b < eth[43] ==> !Names(eth, b, port, str)
  }

  lemma LastEntryBytes(eth: Eth, port: nat, str: nat, a: int)
    requires port < 4 && str < 8 && EntriesInside(eth) && LastNaming(eth, port, str, a)
    requires Zcpp.ConfigInside(eth)
    ensures LastFor(Zcpp.DecodeConfig(eth).entries, 8 * port + str) == a
    ensures 0 <= a ==> Zcpp.DecodeConfig(eth).entries[a] == Zcpp.EntryAt(eth, a)
  {
    var es, k := Zcpp.DecodeConfig(eth).entries, 8 * port + str;
    hide Signed;
    forall b: nat | b < |es|
      ensures SlotOf(es[b]) == k <==> Names(eth, b, port, str)
    {
      EntryBytes(eth, b);
      assert es[b] == Zcpp.EntryAt(eth, b);
      assert SlotOf(es[b]) == 8 * es[b].port + es[b].str;
    }
  }

  /** A configuration: the big-endian sequence number in bytes 6 and 7, the number of entries in
      byte 43, in each entry the port, the string, and from its bytes 4 and 8 on the signed
      big-endian start and count. The last entry for a string sets it; other strings keep their
      values if the sequence number is the last one, and lose them if it is new. */
  lemma ZcppConfigLaw(s: Zcpp.Sys, eth: Eth, port: nat, str: nat, a: int)
    requires eth[0] == 0x5A && eth[1] == 0x43 && eth[2] == 0x50 && eth[3] == 0x50 && eth[4] == 0x0A
    requires port < 4 && str < 8 && (EntriesInside(eth) ==> LastNaming(eth, port, str, a))
    ensures Zcpp.Handle(s, eth).Done? <==> EntriesInside(eth)
    ensures EntriesInside(eth) ==>
              var o, k, sys := 44 + 16 * a, 8 * port + str, Zcpp.Handle(s, eth).sys;
              var sequence := eth[6] as int * 0x100 + eth[7] as int;
              && sys.pixels == s.pixels && sys.config.lastSequence == sequence
              && sys.config.table.counts[k] ==
                 (if 0 <= a then Signed(eth[o + 8], eth[o + 9], eth[o + 10], eth[o + 11])
                  else if sequence == s.config.lastSequence then s.config.table.counts[k] else 0)
              && sys.config.table.starts[k] ==
                 (if 0 <= a then Signed(eth[o + 4], eth[o + 5], eth[o + 6], eth[o + 7])
                  else if sequence == s.config.lastSequence then s.config.table.starts[k] else 0)
  {
    hide Signed, Overlay, Wire.Token, FromWire16, Zcpp.EntryAt, LastFor, LastNaming, EntriesInside, Zcpp.ConfigInside;
    TokenBytes(eth);
    InsideBytes(eth);
    if EntriesInside(eth) {
      ConfigStepBytes(s, eth, port, str, a);
    }
  }

  lemma ConfigStepBytes(s: Zcpp.Sys, eth: Eth, port: nat, str: nat, a: int)
    requires port < 4 && str < 8 && EntriesInside(eth) && LastNaming(eth, port, str, a) && Zcpp.ConfigInside(eth)
    ensures var o, k, c := 44 + 16 * a, 8 * port + str, ConfigStep(s.config, Zcpp.DecodeConfig(eth));
            var sequence := eth[6] as int * 0x100 + eth[7] as int;
            && c.lastSequence == sequence
            && c.table.counts[k] ==
               (if 0 <= a then Signed(eth[o + 8], eth[o + 9], eth[o + 10], eth[o + 11])
                else if sequence == s.config.lastSequence then s.config.table.counts[k] else 0)
            && c.table.starts[k] ==
               (if 0 <= a then Signed(eth[o + 4], eth[o + 5], eth[o + 6], eth[o + 7])
                else if sequence == s.config.lastSequence then s.config.table.starts[k] else 0)
  {
    hide Signed, Overlay, FromWire16, LastFor;
    var m, k := Zcpp.DecodeConfig(eth), 8 * port + str;
    BigEndian16(eth, 6);
    LastEntryBytes(eth, port, str, a);
    if 0 <= a {
      EntryBytes(eth, a);
    }
    OverlayAt(if s.config.lastSequence != m.sequence then Cleared() else s.config.table, m.entries, k);
  }

  // ----- E1.31

  /** "ASC-E1.17" and a NUL from byte 4 on. */
  lemma IdentifierBytes(eth: Eth)
    ensures eth[4..14] == Acn.Identifier() <==>
            (forall i :: 0 <= i < 9 ==> eth[4 + i] == "ASC-E1.17"[i] as int) && eth[13] == 0
  {
    var t := "ASC-E1.17";
    assert t[0] as int == 0x41 && t[1] as int == 0x53 && t[2] as int == 0x43 && t[3] as int == 0x2D
        && t[4] as int == 0x45 && t[5] as int == 0x31 && t[6] as int == 0x2E && t[7] as int == 0x31
        && t[8] as int == 0x37;
    if (forall i :: 0 <= i < 9 ==> eth[4 + i] == "ASC-E1.17"[i] as int) && eth[13] == 0 {
      assert forall i :: 0 <= i < 10 ==> eth[4..14][i] == Acn.Identifier()[i];
    }
    if eth[4..14] == Acn.Identifier() {
      assert forall i :: 0 <= i < 10 ==> eth[4 + i] == eth[4..14][i] == Acn.Identifier()[i];
    }
  }

  /** A universe: its number in bytes 113 and 114, one more than the number of data bytes in bytes
      123 and 124, the data from byte 126 on. Other identifiers and universes change nothing. */
  lemma AcnLaw(px: Pixels, universeStart: int, universeEnd: int, eth: Eth)
    ensures var u, n := eth[113] as int * 0x100 + eth[114] as int, eth[123] as int * 0x100 + eth[124] as int - 1;
            var o, at := Acn.Handle(px, universeStart, universeEnd, eth), (u - universeStart) * 512;
            if (forall i :: 0 <= i < 9 ==> eth[4 + i] == "ASC-E1.17"[i] as int) && eth[13] == 0
               && universeStart <= u <= universeEnd then
              && (o.Done? <==> 0 <= n && 126 + n <= 1500 && at + n <= 24576)
              && (o.Done? ==> forall ch :: 0 <= ch < 24576 ==>
                    o.pixels[ch] == if at <= ch < at + n then eth[126 + ch - at] else px[ch])
            else o == Acn.Done(px)
  {
    IdentifierBytes(eth);
    hide Acn.Identifier;
  }
}
