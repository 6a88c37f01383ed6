/**
 The sharded in-memory peer store. Its meaning is the flat store kept in `flat`: every
 whole call has the result and the effect that the flat store gives it.
 */
module MemoryStore {
  import opened Bittorrent
  import opened FlatStore
  import opened Words
  import opened MemoryShard
  import opened MemoryTable

  const MAX_INT: int := 0x7FFF_FFFF_FFFF_FFFF

  /** Config.Validate */
  function ValidShardCount(n: int): (r: int)
    ensures r >= 1
  {
    if n <= 0 || n > MAX_INT / 2 then 1024 else n
  }

  class PeerStore {
    const shards: seq<PeerShard>
    const index: Index
    var closed: bool
    ghost var flat: Flat

    ghost predicate Shape() {
      && Splits(index, |shards|)
      && forall i, j :: 0 <= i < |shards| && 0 <= j < |shards| && i != j ==> shards[i] != shards[j]
    }

    ghost function View(): (v: View)
      reads shards
      ensures |v| == |shards| && forall i :: 0 <= i < |v| ==> v[i] == shards[i].swarms
    {
      seq(|shards|, i requires 0 <= i < |shards| reads shards => shards[i].swarms)
    }

    ghost predicate Valid()
      reads this, shards
    {
      && Shape()
      && Counted()
      && Refines(View(), index, flat)
    }

    /** NewPeerStorage with the shard count of the configuration. */
    constructor (shardCount: int)
      requires 2 * ValidShardCount(shardCount) < MOD32
      ensures Valid() && !closed && flat == EMPTY
      ensures |shards| == 2 * ValidShardCount(shardCount) && index == ShardIndex(|shards|)
      ensures fresh(shards)
    {
      var n := 2 * ValidShardCount(shardCount);
      var all: seq<PeerShard> := [];
      while |all| < n
        invariant |all| <= n && fresh(all)
        invariant forall i :: 0 <= i < |all| ==> all[i].Valid() && all[i].swarms == map[]
        invariant forall i, j :: 0 <= i < |all| && 0 <= j < |all| && i != j ==> all[i] != all[j]
      {
        var sh := new PeerShard();
        all := all + [sh];
      }
      shards, index := all, ShardIndex(n);
      closed, flat := false, EMPTY;
      new;
      NothingStored(View(), index);
    }

    ghost predicate Counted()
      reads shards
    {
      forall i :: 0 <= i < |shards| ==> shards[i].Valid()
    }

    twostate lemma OneShardChanged(i: int)
      requires Shape() && 0 <= i < |shards| && old(Counted()) && shards[i].Valid()
      requires forall j :: 0 <= j < |shards| && shards[j] != shards[i] ==> unchanged(shards[j])
      ensures Counted() && View() == old(View())[i := shards[i].swarms]
    {
      forall j | 0 <= j < |shards| && j != i ensures shards[j].Valid() && shards[j].swarms == old(shards[j].swarms) {
        assert shards[j] != shards[i];
      }
    }

    /** PutSeeder and PutLeecher. */
    method Put(role: Role, h: InfoHash, p: Peer, now: int)
      requires Valid() && !closed
      modifies this`flat, shards
      ensures Valid() && flat == FlatStore.Put(old(flat), role, SwarmOf(h, p), p, now)
    {
      var k := SwarmOf(h, p);
      var i := index(k);
      ghost var v, f := View(), flat;
      shards[i].Put(role, h, p, now);
      flat := FlatStore.Put(flat, role, k, p, now);
      OneShardChanged(i);
      assert Refines(View(), index, flat) by { PutRefines(v, index, f, role, k, p, now); }
    }

    /** DeleteSeeder and DeleteLeecher. */
    method Delete(role: Role, h: InfoHash, p: Peer) returns (err: bool)
      requires Valid() && !closed
      modifies this`flat, shards
      ensures Valid() && flat == FlatStore.Delete(old(flat), role, SwarmOf(h, p), p)
      ensures err <==> SwarmOf(h, p) !in old(flat).tracked
    {
      var k := SwarmOf(h, p);
      var i := index(k);
      ghost var v, f := View(), flat;
      err := h !in shards[i].swarms;
      assert err <==> k !in flat.tracked by { TrackedSwarm(v, index, f, k); }
      if !err {
        shards[i].DeletePeer(role, h, p);
        flat := Remove(flat, role, k, p);
        OneShardChanged(i);
        assert Refines(View(), index, flat) by { RemoveRefines(v, index, f, role, k, p); }
      }
    }

    method GraduateLeecher(h: InfoHash, p: Peer, now: int)
      requires Valid() && !closed
      modifies this`flat, shards
      ensures Valid() && flat == Graduate(old(flat), SwarmOf(h, p), p, now)
    {
      var k := SwarmOf(h, p);
      var i := index(k);
      ghost var v, f := View(), flat;
      shards[i].Graduate(h, p, now);
      flat := Graduate(flat, k, p, now);
      OneShardChanged(i);
      assert Refines(View(), index, flat) by { GraduateRefines(v, index, f, k, p, now); }
    }

    /** One map read in any order until `numWant` runs out: the callback of AnnouncePeers. */
    static method RangeKeys(m: map<Peer, int>, numWant: int) returns (taken: seq<Peer>, left: int, all: bool)
      ensures NoDuplicates(taken) && (forall p :: p in taken ==> p in m)
      ensures |taken| == Min(Max1(numWant), |m|) && left == numWant - |taken|
      ensures all <==> |m| < Max1(numWant)
    {
      taken, left := [], numWant;
      var rest := m.Keys;
      while rest != {}
        invariant NoDuplicates(taken) && rest <= m.Keys
        invariant forall p :: p in taken <==> p in m && p !in rest
        invariant |taken| + |rest| == |m| && left == numWant - |taken|
        invariant taken != [] ==> left > 0
        decreases rest
      {
        var p :| p in rest;
        taken, left, rest := taken + [p], left - 1, rest - {p};
        if left <= 0 {
          return taken, left, false;
        }
      }
      all := true;
    }

    /** The two ranges of AnnouncePeers over one swarm. */
    static method Select(sw: Swarm, forSeeder: bool, numWant: int) returns (peers: seq<Peer>)
      ensures Selects(sw.seeders.Keys, sw.leechers.Keys, forSeeder, numWant, peers)
    {
      var left, all;
      if forSeeder {
        peers, left, all := RangeKeys(sw.leechers, numWant);
        assert peers[..0] == [] && peers[0..] == peers;
      } else {
        peers, left, all := RangeKeys(sw.seeders, numWant);
        ghost var n := |peers|;
        assert peers[..n] == peers && peers[n..] == [];
        if all {
          var more;
          more, left, all := RangeKeys(sw.leechers, left);
          peers := peers + more;
          assert peers[..n] + peers[n..] == peers && peers[n..] == more;
        }
      }
    }

    /** A request below -1 would not survive the make() of the result slice. */
    method AnnouncePeers(h: InfoHash, forSeeder: bool, numWant: int, v6: bool) returns (peers: seq<Peer>)
      requires Valid() && !closed && numWant >= -1
      ensures IsSelection(flat, SwarmKey(h, v6), forSeeder, numWant, peers)
    {
      var k := SwarmKey(h, v6);
      var sh := shards[index(k)];
      if h in sh.swarms {
        peers := Select(sh.swarms[h], forSeeder, numWant);
      } else {
        peers := [];
      }
      PeersOfSwarm(View(), index, flat, Seeder, k);
      PeersOfSwarm(View(), index, flat, Leecher, k);
    }

    method CountPeers(h: InfoHash, v6: bool) returns (leechers: nat, seeders: nat)
      requires Valid()
      ensures leechers == Wrap32(|PeersOf(flat, Leecher, SwarmKey(h, v6))|)
      ensures seeders == Wrap32(|PeersOf(flat, Seeder, SwarmKey(h, v6))|)
    {
      var k := SwarmKey(h, v6);
      var sh := shards[index(k)];
      PeersOfSwarm(View(), index, flat, Seeder, k);
      PeersOfSwarm(View(), index, flat, Leecher, k);
      leechers, seeders := 0, 0;
      if h in sh.swarms {
        leechers, seeders := Wrap32(|sh.swarms[h].leechers|), Wrap32(|sh.swarms[h].seeders|);
      }
    }

    /** Both families together, in uint32 arithmetic; the memory store counts no snatches. */
    method ScrapeSwarm(h: InfoHash) returns (leechers: nat, seeders: nat, snatched: nat)
      requires Valid() && !closed
      ensures leechers == SwarmSize(flat, Leecher, h) % MOD32 && seeders == SwarmSize(flat, Seeder, h) % MOD32
      ensures snatched == 0
    {
      leechers, seeders := CountPeers(h, false);
      var l, s := CountPeers(h, true);
      BothFamilies(flat, Leecher, h);
      BothFamilies(flat, Seeder, h);
      leechers, seeders, snatched := Add32(leechers, l), Add32(seeders, s), 0;
      WrapIsMod(SwarmSize(flat, Leecher, h), MOD32);
      WrapIsMod(SwarmSize(flat, Seeder, h), MOD32);
    }

    /** gc; on a closed store it does nothing. */
    method GC(cutoff: int)
      requires Valid()
      modifies this`flat, shards
      ensures Valid() && flat == if closed then old(flat) else Collect(old(flat), cutoff)
    {
      if closed {
        return;
      }
      ghost var v, f := View(), flat;
      CollectShards(cutoff);
      flat := Collect(flat, cutoff);
      assert Refines(View(), index, flat) by { CollectRefines(v, View(), index, f, cutoff); }
    }

    /** gc's loop over the shards. */
    method CollectShards(cutoff: int)
      requires Shape() && Counted()
      modifies shards
      ensures Counted()
      ensures forall i :: 0 <= i < |shards| ==>
                View()[i] == CollectIn(old(View())[i], cutoff, old(View())[i].Keys)
    {
      ghost var v := View();
      for n := 0 to |shards|
        invariant Counted()
        invariant forall i :: 0 <= i < n ==> shards[i].swarms == CollectIn(v[i], cutoff, v[i].Keys)
        invariant forall i :: n <= i < |shards| ==> shards[i].swarms == v[i]
      {
        shards[n].GC(cutoff);
      }
    }

    /** The totals that ScheduleStatisticsCollection reports. */
    method Statistics() returns (numInfoHashes: nat, numSeeders: nat, numLeechers: nat)
      requires Valid()
      ensures numInfoHashes == |flat.tracked| % MOD64
      ensures numSeeders == |EntriesOf(flat, Seeder)| % MOD64 && numLeechers == |EntriesOf(flat, Leecher)| % MOD64
    {
      numInfoHashes, numSeeders, numLeechers := 0, 0, 0;
      ghost var v := View();
      for n := 0 to |shards|
        invariant numInfoHashes == Wrap64(TotalTracked(v, n))
        invariant numSeeders == Wrap64(Total(v, Seeder, n)) && numLeechers == Wrap64(Total(v, Leecher, n))
      {
        Add64Wrapped(TotalTracked(v, n), |v[n]|);
        Add64Wrapped(Total(v, Seeder, n), |Pairs(v[n], Seeder)|);
        Add64Wrapped(Total(v, Leecher, n), |Pairs(v[n], Leecher)|);
        numInfoHashes := Add64(numInfoHashes, |shards[n].swarms|);
        numSeeders := Add64(numSeeders, shards[n].numSeeders);
        numLeechers := Add64(numLeechers, shards[n].numLeechers);
      }
      Totals(v, index, flat);
      WrapIsMod(|flat.tracked|, MOD64);
      WrapIsMod(|EntriesOf(flat, Seeder)|, MOD64);
      WrapIsMod(|EntriesOf(flat, Leecher)|, MOD64);
    }
  }

  lemma BothFamilies(f: Flat, role: Role, h: InfoHash)
    ensures Add32(Wrap32(|PeersOf(f, role, SwarmKey(h, false))|), Wrap32(|PeersOf(f, role, SwarmKey(h, true))|))
            == Wrap32(SwarmSize(f, role, h))
  {
    Add32Wrapped(|PeersOf(f, role, SwarmKey(h, false))|, |PeersOf(f, role, SwarmKey(h, true))|);
  }

  ghost function SwarmSize(f: Flat, role: Role, h: InfoHash): nat {
    |PeersOf(f, role, SwarmKey(h, false))| + |PeersOf(f, role, SwarmKey(h, true))|
  }
}
