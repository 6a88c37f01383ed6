/**
 What a peer store means: a flat relation of (role, info hash, peer) to the time of
 the last announce, and the set of swarms it knows about. An emptied swarm stays
 known until the next garbage collection, which decides whether a deletion
 reports an error.
 */
module FlatStore {
  import opened Bittorrent

  datatype Role = Seeder | Leecher

  /** A swarm: an info hash in one address family. */
  datatype SwarmKey = SwarmKey(hash: InfoHash, v6: bool)

  datatype Entry = Entry(role: Role, swarm: SwarmKey, peer: Peer)

  datatype Flat = Flat(times: map<Entry, int>, tracked: set<SwarmKey>)

  const EMPTY := Flat(map[], {})

  /** The family of a peer is that of its unmapped address. */
  predicate IsV6(p: Peer) { p.Addr().Is6() }

  function SwarmOf(h: InfoHash, p: Peer): SwarmKey { SwarmKey(h, IsV6(p)) }

  /** Every entry belongs to a known swarm of its own family. */
  ghost predicate Consistent(f: Flat) {
    forall e :: InFamily(f, e)
  }

  predicate InFamily(f: Flat, e: Entry) {
    e in f.times ==> e.swarm in f.tracked && e.swarm.v6 == IsV6(e.peer)
  }

  function Put(f: Flat, role: Role, k: SwarmKey, p: Peer, now: int): Flat {
    Flat(f.times[Entry(role, k, p) := now], f.tracked + {k})
  }

  function Remove(f: Flat, role: Role, k: SwarmKey, p: Peer): Flat {
    f.(times := f.times - {Entry(role, k, p)})
  }

  /** Deleting from a known swarm succeeds even when the peer is not there. */
  function Delete(f: Flat, role: Role, k: SwarmKey, p: Peer): Flat {
    if k in f.tracked then Remove(f, role, k, p) else f
  }

  function Graduate(f: Flat, k: SwarmKey, p: Peer, now: int): Flat {
    Put(Remove(f, Leecher, k, p), Seeder, k, p, now)
  }

  ghost function Fresh(f: Flat, cutoff: int): map<Entry, int> {
    map e | e in f.times && f.times[e] > cutoff :: f.times[e]
  }

  /** Exactly the entries later than the cutoff survive, and only swarms that hold one. */
  ghost function Collect(f: Flat, cutoff: int): Flat {
    Flat(Fresh(f, cutoff), set e | e in Fresh(f, cutoff) :: e.swarm)
  }

  /** The peers of one role in one swarm. */
  ghost function PeersOf(f: Flat, role: Role, k: SwarmKey): set<Peer> {
    set e | e in f.times && e.role == role && e.swarm == k :: e.peer
  }

  ghost function EntriesOf(f: Flat, role: Role): set<Entry> {
    set e | e in f.times && e.role == role
  }

  function Max1(n: int): int { if n < 1 then 1 else n }

  function Min(a: int, b: int): int { if a < b then a else b }

  predicate NoDuplicates<T(==)>(s: seq<T>) {
    forall i, j :: 0 <= i < j < |s| ==> s[i] != s[j]
  }

  /**
   What AnnouncePeers may answer. Maps are read in any order, so the answer is some
   seeders and then some leechers (no seeders for a seeder), each at most once; the
   leechers are reached only when the seeders did not fill the request.
   */
  ghost predicate IsSelection(f: Flat, k: SwarmKey, forSeeder: bool, numWant: int, r: seq<Peer>) {
    Selects(PeersOf(f, Seeder, k), PeersOf(f, Leecher, k), forSeeder, numWant, r)
  }

  ghost predicate Selects(seeders: set<Peer>, leechers: set<Peer>, forSeeder: bool, numWant: int, r: seq<Peer>) {
    var first := if forSeeder then {} else seeders;
    var n := Min(Max1(numWant), |first|);
    && |r| == Min(Max1(numWant), |first| + |leechers|)
    && NoDuplicates(r[..n]) && (forall p :: p in r[..n] ==> p in first)
    && NoDuplicates(r[n..]) && (forall p :: p in r[n..] ==> p in leechers)
  }
}
