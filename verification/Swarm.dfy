/**
  The worker swarm that assembles a release from peer-served chunks. Workers share one
  cursor that can be rewound, a retry budget and one rotation of peers with strikes.

  `Rotation` is the shared object the workers lock; each of its methods is one critical
  section and is proved against a function on `Shared` values. The interleaved swarm is a
  state machine over those functions, one transition per critical section, fetch or write.
 */
module Swarm {
  import opened Bytes

  datatype Peer = Peer(addr: string, key: string)

  /** What the mutex guards. */
  datatype Shared = Shared(next: nat, retries: nat, live: seq<Peer>, liveIdx: nat, strikes: map<string, nat>)

  const STRIKES_OUT := 2
  const MAX_THROTTLES := 200

  function StrikesOf(strikes: map<string, nat>, addr: string): nat {
    if addr in strikes then strikes[addr] else 0
  }

  function PopSpec(s: Shared, chunks: nat): (Shared, Option<nat>) {
    if s.next < chunks then (s.(next := s.next + 1), Some(s.next)) else (s, None)
  }

  function NextPeerSpec(s: Shared): (Shared, Option<Peer>) {
    if s.live == [] then (s, None)
    else (s.(liveIdx := s.liveIdx + 1), Some(s.live[s.liveIdx % |s.live|]))
  }

  function StrikeSpec(s: Shared, p: Peer, n: nat): Shared {
    var strikes := s.strikes[p.addr := StrikesOf(s.strikes, p.addr) + n];
    if strikes[p.addr] < STRIKES_OUT || s.live == [] then s.(strikes := strikes)
    else
      var live := Filter(s.live, (q: Peer) => q.addr != p.addr);
      s.(strikes := strikes, live := live, liveIdx := if live != [] then s.liveIdx % |live| else s.liveIdx)
  }

  function RequeueSpec(s: Shared, chunks: nat, i: nat): Shared {
    var retries := s.retries + 1;
    if retries <= 3 * chunks && s.next > i then s.(retries := retries, next := i) else s.(retries := retries)
  }

  /** Filters the first `n` entries in place: the write index never overtakes the read index. */
  method DropAddress(peers: array<Peer>, n: nat, p: Peer) returns (kept: nat)
    requires n <= peers.Length
    modifies peers
    ensures kept <= n && peers[..kept] == Filter(old(peers[..n]), (q: Peer) => q.addr != p.addr)
  {
    ghost var before := peers[..n];
    ghost var keep := (q: Peer) => q.addr != p.addr;
    var k := 0;
    kept := 0;
    while k < n
      invariant 0 <= kept <= k <= n
      invariant peers[..kept] == Filter(before[..k], keep)
      invariant forall j :: k <= j < n ==> peers[j] == before[j]
    {
      var q := peers[k];
      assert before[..k + 1] == before[..k] + [q];
      FilterAppend(before[..k], [q], keep);
      if q.addr != p.addr {
        peers[kept] := q;
        kept := kept + 1;
      }
      k := k + 1;
    }
    assert before[..k] == before;
  }

  /** The shared variables of one transfer; the rotation is a prefix of a fixed array, filtered in place. */
  class Rotation {
    const chunks: nat
    const peers: array<Peer>
    var liveLen: nat
    var next: nat
    var retries: nat
    var liveIdx: nat
    var strikes: map<string, nat>

    ghost predicate Valid()
      reads this
    {
      liveLen <= peers.Length
    }

    ghost function View(): Shared
      requires Valid()
      reads this, peers
    {
      Shared(next, retries, peers[..liveLen], liveIdx, strikes)
    }

    constructor (chunks: nat, viable: seq<Peer>)
      ensures Valid() && fresh(peers) && this.chunks == chunks
      ensures View() == Shared(0, 0, viable, 0, map[])
    {
      this.chunks := chunks;
      peers := new Peer[|viable|](i requires 0 <= i < |viable| => viable[i]);
      liveLen, next, retries, liveIdx, strikes := |viable|, 0, 0, 0, map[];
      new;
      assert peers[..liveLen] == viable;
    }

    method Pop() returns (i: nat, ok: bool)
      requires Valid()
      modifies this
      ensures Valid()
      ensures (View(), if ok then Some(i) else None) == PopSpec(old(View()), chunks)
    {
      if next < chunks {
        i, ok := next, true;
        next := next + 1;
      } else {
        i, ok := 0, false;
      }
    }

    method NextPeer() returns (p: Option<Peer>)
      requires Valid()
      modifies this
      ensures Valid() && (View(), p) == NextPeerSpec(old(View()))
    {
      if liveLen == 0 {
        return None;
      }
      p := Some(peers[liveIdx % liveLen]);
      liveIdx := liveIdx + 1;
    }

    /** Counts `n` failures against a peer; at two strikes every entry with its address leaves the rotation. */
    method StrikeN(p: Peer, n: nat)
      requires Valid()
      modifies this, peers
      ensures Valid() && View() == StrikeSpec(old(View()), p, n)
      ensures forall a :: StrikesOf(strikes, a) == StrikesOf(old(strikes), a) + if a == p.addr then n else 0
    {
      strikes := strikes[p.addr := StrikesOf(strikes, p.addr) + n];
      if strikes[p.addr] < STRIKES_OUT || liveLen == 0 {
        return;
      }
      liveLen := DropAddress(peers, liveLen, p);
      if liveLen > 0 {
        liveIdx := liveIdx % liveLen;
      }
    }

    method Requeue(i: nat)
      requires Valid()
      modifies this
      ensures Valid() && View() == RequeueSpec(old(View()), chunks, i)
    {
      retries := retries + 1;
      if retries <= 3 * chunks && next > i {
        next := i;
      }
    }
  }
}
