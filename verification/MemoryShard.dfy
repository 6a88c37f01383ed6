/**
 One shard of the in-memory store: a map from info hash to swarm, and two wrap-around
 64-bit counters that must stay equal to the number of peers in its maps.
 */
module MemoryShard {
  import opened Bittorrent
  import opened FlatStore
  import opened Words

  datatype Swarm = Swarm(seeders: map<Peer, int>, leechers: map<Peer, int>)
  {
    function Of(role: Role): map<Peer, int> {
      if role.Seeder? then seeders else leechers
    }

    function With(role: Role, m: map<Peer, int>): Swarm {
      if role.Seeder? then this.(seeders := m) else this.(leechers := m)
    }
  }

  type Swarms = map<InfoHash, Swarm>

  /** ^uint64(0), the addend that lowers a counter by one. */
  const DECR: nat := MOD64 - 1

  lemma CountDown(n: nat)
    requires n > 0
    ensures Add64(Wrap64(n), DECR) == Wrap64(n - 1)
  {
    Add64Wrapped(n, DECR);
  }

  function Get(s: Swarms, h: InfoHash): Swarm {
    if h in s then s[h] else Swarm(map[], map[])
  }

  function PutIn(s: Swarms, role: Role, h: InfoHash, p: Peer, now: int): Swarms {
    s[h := Get(s, h).With(role, Get(s, h).Of(role)[p := now])]
  }

  function RemoveIn(s: Swarms, role: Role, h: InfoHash, p: Peer): Swarms {
    if h in s then s[h := s[h].With(role, s[h].Of(role) - {p})] else s
  }

  /** getOrCreate, then out of the leechers and into the seeders. */
  function GraduateIn(s: Swarms, h: InfoHash, p: Peer, now: int): Swarms {
    PutIn(RemoveIn(s[h := Get(s, h)], Leecher, h, p), Seeder, h, p, now)
  }

  ghost function Live(m: map<Peer, int>, cutoff: int): map<Peer, int> {
    map p | p in m && m[p] > cutoff :: m[p]
  }

  ghost function LiveSwarm(sw: Swarm, cutoff: int): Swarm {
    Swarm(Live(sw.seeders, cutoff), Live(sw.leechers, cutoff))
  }

  ghost function CollectOne(s: Swarms, cutoff: int, h: InfoHash): Swarms
    requires h in s
  {
    var sw := LiveSwarm(s[h], cutoff);
    if sw == Swarm(map[], map[]) then s - {h} else s[h := sw]
  }

  /** The shard after gc has been through the swarms in `done`. */
  ghost function CollectIn(s: Swarms, cutoff: int, done: set<InfoHash>): Swarms {
    map h | h in s && !(h in done && LiveSwarm(s[h], cutoff) == Swarm(map[], map[])) ::
      if h in done then LiveSwarm(s[h], cutoff) else s[h]
  }

  lemma CollectNone(s: Swarms, cutoff: int)
    ensures CollectIn(s, cutoff, {}) == s
  {
  }

  lemma ElementsNext<T>(s: seq<T>, i: nat)
    requires i < |s|
    ensures Elements(s[..i + 1]) == Elements(s[..i]) + {s[i]}
  {
  }

  lemma CollectStep(s: Swarms, cutoff: int, done: set<InfoHash>, h: InfoHash)
    requires h in s && h !in done
    ensures h in CollectIn(s, cutoff, done)
    ensures CollectIn(s, cutoff, done + {h}) == CollectOne(CollectIn(s, cutoff, done), cutoff, h)
  {
  }

  ghost function Pairs(s: Swarms, role: Role): set<(InfoHash, Peer)> {
    set h, p | h in s && p in s[h].Of(role) :: (h, p)
  }

  /** The counters are exact, modulo their width. */
  ghost predicate Exact(s: Swarms, numSeeders: nat, numLeechers: nat) {
    numSeeders == Wrap64(|Pairs(s, Seeder)|) && numLeechers == Wrap64(|Pairs(s, Leecher)|)
  }

  function Elements<T>(s: seq<T>): set<T> { set x | x in s }

  class PeerShard {
    var swarms: Swarms
    var numSeeders: nat
    var numLeechers: nat

    ghost predicate Valid()
      reads this
    {
      Exact(swarms, numSeeders, numLeechers)
    }

    constructor ()
      ensures Valid() && swarms == map[]
    {
      swarms := map[];
      numSeeders, numLeechers := 0, 0;
      new;
      assert Pairs(swarms, Seeder) == {} && Pairs(swarms, Leecher) == {};
    }

    /** atomic.Uint64.Add on the counter of a role. */
    method AddCount(role: Role, delta: nat)
      modifies this`numSeeders, this`numLeechers
      ensures numSeeders == if role.Seeder? then Add64(old(numSeeders), delta) else old(numSeeders)
      ensures numLeechers == if role.Leecher? then Add64(old(numLeechers), delta) else old(numLeechers)
    {
      if role.Seeder? {
        numSeeders := Add64(numSeeders, delta);
      } else {
        numLeechers := Add64(numLeechers, delta);
      }
    }

    /** ihSwarm.getOrCreate */
    method GetOrCreate(h: InfoHash) returns (sw: Swarm)
      requires Valid()
      modifies this`swarms
      ensures Valid() && h in swarms && swarms[h] == sw == Get(old(swarms), h)
      ensures swarms == old(swarms)[h := sw]
    {
      if h !in swarms {
        SamePairs(swarms, swarms[h := Swarm(map[], map[])]);
        swarms := swarms[h := Swarm(map[], map[])];
      }
      sw := swarms[h];
    }

    /** PutSeeder and PutLeecher, once the shard is chosen. */
    method Put(role: Role, h: InfoHash, p: Peer, now: int)
      requires Valid()
      modifies this
      ensures Valid() && swarms == PutIn(old(swarms), role, h, p, now)
    {
      var sw := GetOrCreate(h);
      PutExact(swarms, numSeeders, numLeechers, role, h, p, now);
      if p !in sw.Of(role) {
        AddCount(role, 1);
      }
      swarms := swarms[h := sw.With(role, sw.Of(role)[p := now])];
    }

    /** peers.del with the counter that goes with it. */
    method DeletePeer(role: Role, h: InfoHash, p: Peer)
      requires Valid() && h in swarms
      modifies this
      ensures Valid() && swarms == RemoveIn(old(swarms), role, h, p)
    {
      RemoveExact(swarms, numSeeders, numLeechers, role, h, p);
      var sw := swarms[h];
      if p in sw.Of(role) {
        AddCount(role, DECR);
      }
      swarms := swarms[h := sw.With(role, sw.Of(role) - {p})];
    }

    /** GraduateLeecher, once the shard is chosen. */
    method Graduate(h: InfoHash, p: Peer, now: int)
      requires Valid()
      modifies this
      ensures Valid() && swarms == GraduateIn(old(swarms), h, p, now)
    {
      var _ := GetOrCreate(h);
      DeletePeer(Leecher, h, p);
      Put(Seeder, h, p, now);
    }

    /** The expired peers of a map, in any order. */
    static method Expired(m: map<Peer, int>, cutoff: int) returns (toDel: seq<Peer>)
      ensures forall p :: p in toDel <==> p in m && m[p] <= cutoff
    {
      toDel := [];
      var rest := m.Keys;
      while rest != {}
        invariant rest <= m.Keys
        invariant forall p :: p in toDel <==> p in m && p !in rest && m[p] <= cutoff
        decreases rest
      {
        var p :| p in rest;
        if m[p] <= cutoff {
          toDel := toDel + [p];
        }
        rest := rest - {p};
      }
    }

    /** One half of gc's work on a swarm: list what has expired, then delete it. */
    method Expire(role: Role, h: InfoHash, cutoff: int)
      requires Valid() && h in swarms
      modifies this
      ensures Valid()
      ensures swarms == old(swarms)[h := old(swarms[h]).With(role, Live(old(swarms[h]).Of(role), cutoff))]
    {
      ghost var was := swarms[h];
      var toDel := Expired(swarms[h].Of(role), cutoff);
      DropNone(was, role);
      for i := 0 to |toDel|
        invariant Valid() && h in swarms
        invariant swarms == old(swarms)[h := Drop(was, role, toDel[..i])]
      {
        DropStep(was, role, toDel, i);
        DeletePeer(role, h, toDel[i]);
      }
      assert toDel[..|toDel|] == toDel;
      assert was.Of(role) - Elements(toDel) == Live(was.Of(role), cutoff);
    }

    /** gc's work on one swarm: what is left of it, or nothing when no peer is left. */
    method CollectSwarm(h: InfoHash, cutoff: int)
      requires Valid() && h in swarms
      modifies this
      ensures Valid() && swarms == CollectOne(old(swarms), cutoff, h)
    {
      ghost var all, live := swarms, LiveSwarm(swarms[h], cutoff);
      Expire(Leecher, h, cutoff);
      Expire(Seeder, h, cutoff);
      assert swarms == all[h := live];
      if |swarms[h].leechers| == 0 && |swarms[h].seeders| == 0 {
        DropEmpty(all, h, live);
        swarms := swarms - {h};
      }
    }

    /** gc on this shard. */
    method GC(cutoff: int)
      requires Valid()
      modifies this
      ensures Valid() && swarms == CollectIn(old(swarms), cutoff, old(swarms.Keys))
    {
      ghost var all := swarms;
      var infoHashes := Keys(swarms);
      CollectNone(all, cutoff);
      for i := 0 to |infoHashes|
        invariant Valid()
        invariant swarms == CollectIn(all, cutoff, Elements(infoHashes[..i]))
      {
        ghost var done := Elements(infoHashes[..i]);
        CollectStep(all, cutoff, done, infoHashes[i]);
        ElementsNext(infoHashes, i);
        CollectSwarm(infoHashes[i], cutoff);
      }
      assert infoHashes[..|infoHashes|] == infoHashes;
      assert Elements(infoHashes) == all.Keys;
    }

    /** ihSwarm.keys: the info hashes of the shard, in any order. */
    static method Keys(s: Swarms) returns (keys: seq<InfoHash>)
      ensures NoDuplicates(keys)
      ensures forall h :: h in keys <==> h in s
    {
      keys := [];
      var rest := s.Keys;
      while rest != {}
        invariant NoDuplicates(keys) && rest <= s.Keys
        invariant forall h :: h in keys <==> h in s && h !in rest
        decreases rest
      {
        var h :| h in rest;
        keys, rest := keys + [h], rest - {h};
      }
    }
  }

  function Drop(sw: Swarm, role: Role, dead: seq<Peer>): Swarm {
    sw.With(role, sw.Of(role) - Elements(dead))
  }

  lemma DropNone(sw: Swarm, role: Role)
    ensures Drop(sw, role, []) == sw
  {
    assert sw.Of(role) - Elements<Peer>([]) == sw.Of(role);
  }

  lemma DropStep(sw: Swarm, role: Role, dead: seq<Peer>, i: nat)
    requires i < |dead|
    ensures Drop(sw, role, dead[..i + 1]) ==
            var now := Drop(sw, role, dead[..i]); now.With(role, now.Of(role) - {dead[i]})
  {
    assert Elements(dead[..i + 1]) == Elements(dead[..i]) + {dead[i]};
    var all := sw.Of(role);
    assert all - Elements(dead[..i + 1]) == all - Elements(dead[..i]) - {dead[i]};
  }

  lemma SamePairs(s: Swarms, s': Swarms)
    requires forall h :: h in s && h in s' ==> s[h] == s'[h]
    requires forall h :: h in s && h !in s' ==> s[h] == Swarm(map[], map[])
    requires forall h :: h in s' && h !in s ==> s'[h] == Swarm(map[], map[])
    ensures Pairs(s', Seeder) == Pairs(s, Seeder) && Pairs(s', Leecher) == Pairs(s, Leecher)
  {
  }

  lemma PutPairs(s: Swarms, role: Role, h: InfoHash, p: Peer, now: int, r: Role)
    ensures Pairs(PutIn(s, role, h, p, now), r) == if r == role then Pairs(s, r) + {(h, p)} else Pairs(s, r)
    ensures (h, p) in Pairs(s, role) <==> p in Get(s, h).Of(role)
  {
  }

  lemma RemovePairs(s: Swarms, role: Role, h: InfoHash, p: Peer, r: Role)
    requires h in s
    ensures Pairs(RemoveIn(s, role, h, p), r) == if r == role then Pairs(s, r) - {(h, p)} else Pairs(s, r)
    ensures (h, p) in Pairs(s, role) <==> p in s[h].Of(role)
  {
  }

  lemma InsertCount<T>(a: set<T>, x: T)
    ensures Wrap64(|a + {x}|) == if x in a then Wrap64(|a|) else Add64(Wrap64(|a|), 1)
  {
    Add64Wrapped(|a|, 1);
    assert x in a ==> a + {x} == a;
  }

  /** The wrap-around decrement is made only on a counter that stands for at least one peer. */
  lemma RemoveCount<T>(a: set<T>, x: T)
    ensures x in a ==> |a| > 0
    ensures Wrap64(|a - {x}|) == if x in a then Add64(Wrap64(|a|), DECR) else Wrap64(|a|)
  {
    if x in a { CountDown(|a|); }
    assert x !in a ==> a - {x} == a;
  }

  lemma DropEmpty(s: Swarms, h: InfoHash, sw: Swarm)
    requires |sw.leechers| == 0 && |sw.seeders| == 0
    ensures sw == Swarm(map[], map[])
    ensures s[h := sw] - {h} == s - {h}
    ensures Pairs(s[h := sw] - {h}, Seeder) == Pairs(s[h := sw], Seeder)
    ensures Pairs(s[h := sw] - {h}, Leecher) == Pairs(s[h := sw], Leecher)
  {
    assert sw.leechers == map[] && sw.seeders == map[];
    SamePairs(s[h := sw], s[h := sw] - {h});
  }

  /** Storing a peer, with the counter raised exactly when it is new. */
  lemma PutExact(s: Swarms, numSeeders: nat, numLeechers: nat, role: Role, h: InfoHash, p: Peer, now: int)
    requires Exact(s, numSeeders, numLeechers)
    ensures var up := p !in Get(s, h).Of(role);
            Exact(PutIn(s, role, h, p, now),
                  if role.Seeder? && up then Add64(numSeeders, 1) else numSeeders,
                  if role.Leecher? && up then Add64(numLeechers, 1) else numLeechers)
  {
    PutPairs(s, role, h, p, now, Seeder);
    PutPairs(s, role, h, p, now, Leecher);
    InsertCount(Pairs(s, role), (h, p));
  }

  /** Removing a peer, with the counter lowered exactly when it was there: from a positive number to the one below. */
  lemma RemoveExact(s: Swarms, numSeeders: nat, numLeechers: nat, role: Role, h: InfoHash, p: Peer)
    requires h in s && Exact(s, numSeeders, numLeechers)
    ensures var down := p in s[h].Of(role);
            Exact(RemoveIn(s, role, h, p),
                  if role.Seeder? && down then Add64(numSeeders, DECR) else numSeeders,
                  if role.Leecher? && down then Add64(numLeechers, DECR) else numLeechers)
    ensures p in s[h].Of(role) && |Pairs(s, role)| < MOD64 ==>
              var c := if role.Seeder? then numSeeders else numLeechers; c > 0 && Add64(c, DECR) == c - 1
  {
    RemovePairs(s, role, h, p, Seeder);
    RemovePairs(s, role, h, p, Leecher);
    RemoveCount(Pairs(s, role), (h, p));
    if p in s[h].Of(role) { CountDown(|Pairs(s, role)|); }
  }
}
