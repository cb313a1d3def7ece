/** A connected stream socket: the peer's bytes arrive in order, cut into chunks of any size. */
module Sockets {
  import opened Octets

  class Socket {
    var incoming: Bytes // sent by the peer and not yet received
    var outgoing: Bytes // sent to the peer

    constructor (incoming: Bytes)
      ensures this.incoming == incoming && outgoing == []
    {
      this.incoming, outgoing := incoming, [];
    }

    /** At least one and at most `n` bytes, as many as the network pleases. */
    method Recv(n: nat) returns (chunk: Bytes)
      requires n > 0 && incoming != []
      modifies this`incoming
      ensures 0 < |chunk| <= n
      ensures chunk + incoming == old(incoming)
    {
      var k :| 0 < k <= n && k <= |incoming|;
      chunk := incoming[..k];
      incoming := incoming[k..];
    }

    method SendAll(data: Bytes)
      modifies this`outgoing
      ensures outgoing == old(outgoing) + data
    {
      outgoing := outgoing + data;
    }

    /** `recv_exact` of the exporter client and `recvall` of the vsock listener: exactly `n` bytes, in order,
        whatever the chunks, and nothing of what follows. */
    method RecvExact(n: nat) returns (b: Bytes)
      requires n <= |incoming|
      modifies this`incoming
      ensures |b| == n
      ensures b + incoming == old(incoming)
    {
      b := [];
      while |b| < n
        invariant |b| <= n <= |b| + |incoming|
        invariant b + incoming == old(incoming)
        decreases n - |b|
      {
        var chunk := Recv(n - |b|);
        Assoc(b, chunk, incoming);
        b := b + chunk;
      }
    }

    /** A big-endian length of `k` bytes and then that many bytes. */
    method RecvCounted(k: nat) returns (b: Bytes)
      requires Counted(incoming, k).Some?
      modifies this`incoming
      ensures Some((b, incoming)) == Counted(old(incoming), k)
    {
      var len := RecvExact(k);
      assert old(incoming)[..k] == len && old(incoming)[k..] == incoming;
      ghost var rest := incoming;
      b := RecvExact(Be(len));
      assert rest[..Be(len)] == b && rest[Be(len)..] == incoming;
    }
  }

  /** A length-prefixed field at the front of a stream, and what follows it; `None` while it is incomplete. */
  function Counted(s: Bytes, k: nat): Option<(Bytes, Bytes)> {
    if |s| < k then None
    else if |s| - k < Be(s[..k]) then None
    else Some((s[k..][..Be(s[..k])], s[k..][Be(s[..k])..]))
  }

  lemma CountedRoundTrip(data: Bytes, k: nat, rest: Bytes)
    requires |data| < Pow256(k)
    ensures Counted(BeBytes(|data|, k) + data + rest, k) == Some((data, rest))
  {
    BeOfBytes(|data|, k);
    hide Be, BeBytes, Pow256;
    var len := BeBytes(|data|, k);
    Assoc(len, data, rest);
    TakeAppend(len, data + rest);
    TakeAppend(data, rest);
  }
}
