/** The host's side of a client's rings, as far as the client can notice it: it
    takes slots from the outbound ring, publishes slots in the inbound ring, and
    publishes an epoch. */
module HostSide {
  import opened Bytes
  import opened BusClient
  import RingLayout

  /** What the host does between two steps of a client. */
  datatype HostMove = HostMove(takes: nat, epoch: uint64)

  function LeftAfter(n: nat, takes: nat): nat {
    if takes < n then n - takes else 0
  }

  /** The host takes up to `n` slots from the outbound ring, oldest first. */
  method Take(client: Client, n: nat)
    requires client.Valid()
    modifies client.outbound`taken, client.outbound.mem
    ensures client.Valid()
    ensures |client.outbound.Contents()| == LeftAfter(old(|client.outbound.Contents()|), n)
    ensures client.outbound.taken >= old(client.outbound.taken)
    ensures n == 0 ==> client.outbound.taken == old(client.outbound.taken)
  {
    hide RingLayout.Holds;
    ghost var before := |client.outbound.Contents()|;
    var i := 0;
    while i < n
      invariant 0 <= i <= n && client.Valid() && i <= before
      invariant client.outbound.taken == old(client.outbound.taken) + i
      invariant |client.outbound.Contents()| == before - i
      decreases n - i
    {
      var ok, _ := client.outbound.ConsumeBegin();
      if !ok {
        return;
      }
      client.outbound.ConsumeCommit();
      i := i + 1;
    }
  }

  method Move(client: Client, move: HostMove)
    requires client.Valid()
    modifies client`hostEpoch, client.outbound`taken, client.outbound.mem
    ensures client.Valid() && client.hostEpoch == move.epoch
    ensures |client.outbound.Contents()| == LeftAfter(old(|client.outbound.Contents()|), move.takes)
    ensures client.outbound.taken >= old(client.outbound.taken)
  {
    hide RingLayout.Holds;
    Take(client, move.takes);
    client.hostEpoch := move.epoch;
  }

  /** The host, the inbound ring's producer, publishes one slot if there is
      room. */
  method Deliver(client: Client, slot: Bytes)
    requires client.Valid()
    modifies client.inbound`log, client.inbound.mem
    ensures client.Valid()
    ensures client.inbound.log == old(client.inbound.log)
         || (|client.inbound.log| == |old(client.inbound.log)| + 1
             && client.inbound.log[..|old(client.inbound.log)|] == old(client.inbound.log))
  {
    hide RingLayout.Holds, RingLayout.Times, Splice;
    var ring := client.inbound;
    var ok, off := ring.ProduceBegin();
    if ok && |slot| <= ring.slotSize {
      RingLayout.WriteFreeSlot(ring.mem[..], ring.Geo(), ring.base, ring.log, ring.taken, 0, slot);
      CopyIn(ring.mem, off, slot);
      ring.ProduceCommit();
    }
  }
}
