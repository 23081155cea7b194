/** Bytes, C machine words in the memory and on the wire, and the byte-range
    overwrite (`memcpy`) that every writer of the controller performs. */
module Bytes {

  type byte = x: int | 0 <= x < 0x100
  type uint16 = x: int | 0 <= x < 0x1_0000
  type uint32 = x: int | 0 <= x < 0x1_0000_0000

  /** The value `int i = u` has in C for a 32-bit `int`. */
  function ToInt32(u: uint32): (i: int)
    ensures -0x8000_0000 <= i < 0x8000_0000
    ensures i % 0x1_0000_0000 == u
  {
    if u < 0x8000_0000 then u else u - 0x1_0000_0000
  }

  /** Big-endian decoding of two bytes of memory. */
  function FromWire16(m: seq<byte>): (v: uint16)
    requires |m| == 2
  {
    m[0] as int * 0x100 + m[1]
  }

  /** Big-endian decoding of four bytes of memory. */
  function FromWire32(m: seq<byte>): (v: uint32)
    requires |m| == 4
  {
    m[0] as int * 0x100_0000 + m[1] as int * 0x1_0000 + m[2] as int * 0x100 + m[3]
  }

  /** Takes 32 bits, as in the source, and drops the upper 16. */
  function ToWire16(value: uint32): (m: seq<byte>)
    ensures |m| == 2 && FromWire16(m) == value % 0x1_0000
  {
    [(value % 0x1_0000) / 0x100, value % 0x100]
  }

  function ToWire32(value: uint32): (m: seq<byte>)
    ensures |m| == 4 && FromWire32(m) == value
  {
    Remainders(value);
    [value / 0x100_0000, (value % 0x100_0000) / 0x1_0000, (value % 0x1_0000) / 0x100, value % 0x100]
  }

  lemma Split(high: int, m: int, low: int)
    requires m == 0x100 || m == 0x1_0000 || m == 0x100_0000
    requires 0 <= low < m
    ensures (high * m + low) / m == high && (high * m + low) % m == low
  {
  }

  lemma Remainders(value: int)
    ensures (value % 0x100_0000) % 0x1_0000 == value % 0x1_0000
    ensures (value % 0x1_0000) % 0x100 == value % 0x100
  {
    var low24, low16 := value % 0x100_0000, value % 0x1_0000;
    Split((value / 0x100_0000) * 0x100 + low24 / 0x1_0000, 0x1_0000, low24 % 0x1_0000);
    Split((value / 0x1_0000) * 0x100 + low16 / 0x100, 0x100, low16 % 0x100);
  }

  /** With the contracts of ToWire16 and ToWire32: the conversions are mutual inverses. */
  lemma FromWireInjective(m: seq<byte>, n: seq<byte>)
    requires |m| == 2 && |n| == 4
    ensures ToWire16(FromWire16(m)) == m
    ensures ToWire32(FromWire32(n)) == n
  {
    assert ToWire16(FromWire16(m)) == m;
    var low16 := n[2] as int * 0x100 + n[3];
    var low24 := n[1] as int * 0x1_0000 + low16;
    Split(n[0], 0x100_0000, low24);
    Split(n[1], 0x1_0000, low16);
    Split(n[0] as int * 0x100 + n[1], 0x1_0000, low16);
    Split(n[2], 0x100, n[3]);
    Split(FromWire32(n) / 0x100, 0x100, n[3]);
  }

  /** `s` with the bytes from position `at` on overwritten by `data`. */
  function Splice(s: seq<byte>, at: nat, data: seq<byte>): (r: seq<byte>)
    requires at + |data| <= |s|
    ensures |r| == |s|
    ensures forall i :: 0 <= i < |s| ==> r[i] == if at <= i < at + |data| then data[i - at] else s[i]
  {
    s[..at] + data + s[at + |data|..]
  }

  lemma SubSlice(s: seq<byte>, at: nat, n: nat, low: nat, high: nat)
    requires low <= high <= n && at + n <= |s|
    ensures s[at..at + n][low..high] == s[at + low..at + high]
  {
    var a, b := s[at..at + n][low..high], s[at + low..at + high];
    forall k | 0 <= k < |a|
      ensures a[k] == b[k]
    {
      assert a[k] == s[at..at + n][low + k] == s[at + (low + k)];
    }
  }

  method Memcpy(dst: array<byte>, at: nat, src: array<byte>, from: nat, n: nat)
    requires dst != src
    requires at + n <= dst.Length && from + n <= src.Length
    modifies dst
    ensures dst[..] == Splice(old(dst[..]), at, src[from..from + n])
  {
    forall i | 0 <= i < n {
      dst[at + i] := src[from + i];
    }
  }
}
