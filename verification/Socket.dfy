/** `recvfrom` into a listener's receive buffer, which is reused from datagram to datagram. */
module Socket {
  import opened Bytes
  import opened Limits

  type Eth = s: seq<byte> | |s| == ETH_BUFFER_SIZE
    witness seq(ETH_BUFFER_SIZE, i => 0)

  /** What a `recvfrom` brings. */
  datatype Arrival = Datagram(bytes: seq<byte>) | Failed

  /** The part of a datagram that fits the receive buffer. */
  function Kept(d: seq<byte>): (k: seq<byte>)
    ensures k <= d && |k| <= ETH_BUFFER_SIZE
  {
    if |d| <= ETH_BUFFER_SIZE then d else d[..ETH_BUFFER_SIZE]
  }

  /** The receive buffer keeps its old bytes behind the datagram, and all of them on an error. */
  function Received(eth: Eth, a: Arrival): Eth {
    if a.Failed? then eth else Splice(eth, 0, Kept(a.bytes))
  }

  function EthAfter(eth: Eth, arrivals: seq<Arrival>): Eth {
    if arrivals == [] then eth
    else Received(EthAfter(eth, arrivals[..|arrivals| - 1]), arrivals[|arrivals| - 1])
  }

  /** The part of the receive buffer a datagram covers holds the datagram. */
  lemma ReceivedSlice(eth: Eth, d: seq<byte>, low: nat, high: nat)
    requires low <= high <= |d| <= ETH_BUFFER_SIZE
    ensures Received(eth, Datagram(d))[low..high] == d[low..high]
  {
  }

  /** The result of `recvfrom` is never looked at. */
  method RecvFrom(ethBuffer: array<byte>, arrival: Arrival)
    requires ethBuffer.Length == ETH_BUFFER_SIZE
    modifies ethBuffer
    ensures ethBuffer[..] == Received(old(ethBuffer[..]), arrival)
  {
    if arrival.Datagram? {
      var kept := Kept(arrival.bytes);
      forall i | 0 <= i < |kept| {
        ethBuffer[i] := kept[i];
      }
    }
  }
}
