/**
 How the shards of the in-memory store represent a flat store. The first half of the
 shards holds IPv4 swarms, the second half IPv6 swarms.
 */
module MemoryTable {
  import opened ByteStrings
  import opened Bittorrent
  import opened FlatStore
  import opened MemoryShard

  /** Which shard holds a swarm. */
  type Index = SwarmKey -> int

  /** peerStore.shardIndex, for `n` shards. */
  function ShardIndex(n: int): (idx: Index)
    requires 2 <= n && n % 2 == 0
    ensures Splits(idx, n)
  {
    (k: SwarmKey) => Value(k.hash[..4]) % (n / 2) + if k.v6 then n / 2 else 0
  }

  /** Every swarm has a shard, in the half of its family. */
  ghost predicate Splits(idx: Index, n: int) {
    forall k :: 0 <= idx(k) < n && (idx(k) >= n / 2 <==> k.v6)
  }

  /** The swarm maps of all shards. */
  type View = seq<Swarms>

  /** The swarm of each (info hash, family), wherever it is kept. */
  ghost function Table(v: View, idx: Index): imap<SwarmKey, Swarm>
    requires Splits(idx, |v|)
  {
    imap k: SwarmKey | k.hash in v[idx(k)] :: v[idx(k)][k.hash]
  }

  /** Every swarm is in the shard where it will be looked for. */
  ghost predicate Placed(v: View, idx: Index) {
    && Splits(idx, |v|)
    && forall i, h :: AtHome(v, idx, i, h)
  }

  predicate AtHome(v: View, idx: Index, i: int, h: InfoHash) {
    0 <= i < |v| && h in v[i] ==> i == idx(SwarmKey(h, i >= |v| / 2))
  }

  ghost predicate Represents(t: imap<SwarmKey, Swarm>, f: Flat) {
    (forall e :: SameTime(t, f, e)) && (forall k :: SameTracked(t, f, k))
  }

  ghost predicate SameTime(t: imap<SwarmKey, Swarm>, f: Flat, e: Entry) {
    && (e in f.times <==> e.swarm in t && e.peer in t[e.swarm].Of(e.role))
    && (e in f.times ==> f.times[e] == t[e.swarm].Of(e.role)[e.peer])
  }

  ghost predicate SameTracked(t: imap<SwarmKey, Swarm>, f: Flat, k: SwarmKey) {
    k in f.tracked <==> k in t
  }

  ghost predicate Refines(v: View, idx: Index, f: Flat) {
    Placed(v, idx) && Represents(Table(v, idx), f) && Consistent(f)
  }

  /** Shards without swarms represent the empty store. */
  lemma NothingStored(v: View, idx: Index)
    requires Splits(idx, |v|) && forall i :: 0 <= i < |v| ==> v[i] == map[]
    ensures Refines(v, idx, EMPTY)
  {
    assert Table(v, idx) == imap[];
  }

  lemma PutRepresents(t: imap<SwarmKey, Swarm>, f: Flat, role: Role, k: SwarmKey, p: Peer, now: int)
    requires Represents(t, f)
    ensures var sw := if k in t then t[k] else Swarm(map[], map[]);
            Represents(t[k := sw.With(role, sw.Of(role)[p := now])], Put(f, role, k, p, now))
  {
    var sw := if k in t then t[k] else Swarm(map[], map[]);
    var t', f' := t[k := sw.With(role, sw.Of(role)[p := now])], Put(f, role, k, p, now);
    forall e: Entry ensures SameTime(t', f', e) { assert SameTime(t, f, e); }
    forall k': SwarmKey ensures SameTracked(t', f', k') { assert SameTracked(t, f, k'); }
  }

  lemma RemoveRepresents(t: imap<SwarmKey, Swarm>, f: Flat, role: Role, k: SwarmKey, p: Peer)
    requires Represents(t, f) && k in t
    ensures Represents(t[k := t[k].With(role, t[k].Of(role) - {p})], Remove(f, role, k, p))
  {
    var t', f' := t[k := t[k].With(role, t[k].Of(role) - {p})], Remove(f, role, k, p);
    forall e: Entry ensures SameTime(t', f', e) { assert SameTime(t, f, e); }
    forall k': SwarmKey ensures SameTracked(t', f', k') { assert SameTracked(t, f, k'); }
  }

  function SetSwarm(s: Swarms, h: InfoHash, sw: Swarm): Swarms { s[h := sw] }

  lemma PlacedUpdate(v: View, idx: Index, k: SwarmKey, sw: Swarm)
    requires Placed(v, idx)
    ensures Placed(v[idx(k) := SetSwarm(v[idx(k)], k.hash, sw)], idx)
  {
    var v' := v[idx(k) := SetSwarm(v[idx(k)], k.hash, sw)];
    forall i, h: InfoHash ensures AtHome(v', idx, i, h) {
      assert AtHome(v, idx, i, h);
      assert i == idx(k) && h == k.hash ==> k == SwarmKey(h, i >= |v| / 2);
    }
  }

  /** Replacing one swarm in its shard replaces it in the table, and nothing else. */
  lemma TableUpdate(v: View, idx: Index, k: SwarmKey, sw: Swarm)
    requires Placed(v, idx)
    ensures var v' := v[idx(k) := SetSwarm(v[idx(k)], k.hash, sw)];
            Placed(v', idx) && Table(v', idx) == Table(v, idx)[k := sw]
  {
    PlacedUpdate(v, idx, k, sw);
    var v' := v[idx(k) := SetSwarm(v[idx(k)], k.hash, sw)];
    var t, t' := Table(v, idx), Table(v', idx);
    assert t'.Keys == t[k := sw].Keys && forall k' :: k' in t' ==> t'[k'] == t[k := sw][k'] by {
      forall k': SwarmKey ensures k' in t' <==> k' == k || k' in t
        ensures k' in t' ==> t'[k'] == if k' == k then sw else t[k']
      {
        SwarmIn(v, idx, k, sw, k');
      }
    }
  }

  lemma SwarmIn(v: View, idx: Index, k: SwarmKey, sw: Swarm, k': SwarmKey)
    requires Splits(idx, |v|)
    ensures var s' := v[idx(k) := SetSwarm(v[idx(k)], k.hash, sw)][idx(k')];
            && (k'.hash in s' <==> k' == k || k'.hash in v[idx(k')])
            && (k'.hash in s' ==> s'[k'.hash] == if k' == k then sw else v[idx(k')][k'.hash])
  {
  }

  lemma CollectPlaced(v: View, v': View, idx: Index, cutoff: int)
    requires Placed(v, idx) && |v'| == |v|
    requires forall i :: 0 <= i < |v| ==> v'[i] == CollectIn(v[i], cutoff, v[i].Keys)
    ensures Placed(v', idx)
    ensures forall k :: LiveAt(Table(v, idx), Table(v', idx), cutoff, k)
  {
    forall i, h: InfoHash ensures AtHome(v', idx, i, h) { assert AtHome(v, idx, i, h); }
    var t, t' := Table(v, idx), Table(v', idx);
    forall k: SwarmKey ensures LiveAt(t, t', cutoff, k) {
      assert v'[idx(k)] == CollectIn(v[idx(k)], cutoff, v[idx(k)].Keys);
    }
  }

  /** A swarm of the new table is what is left of the old one, unless nothing is. */
  ghost predicate LiveAt(t: imap<SwarmKey, Swarm>, t': imap<SwarmKey, Swarm>, cutoff: int, k: SwarmKey) {
    && (k in t' <==> k in t && LiveSwarm(t[k], cutoff) != Swarm(map[], map[]))
    && (k in t' ==> t'[k] == LiveSwarm(t[k], cutoff))
  }

  /** Collecting every shard collects the flat store. */
  lemma CollectRefines(v: View, v': View, idx: Index, f: Flat, cutoff: int)
    requires Refines(v, idx, f) && |v'| == |v|
    requires forall i :: 0 <= i < |v| ==> v'[i] == CollectIn(v[i], cutoff, v[i].Keys)
    ensures Refines(v', idx, Collect(f, cutoff))
  {
    CollectPlaced(v, v', idx, cutoff);
    CollectRepresents(Table(v, idx), Table(v', idx), f, cutoff);
    var f' := Collect(f, cutoff);
    forall e: Entry ensures InFamily(f', e) { assert InFamily(f, e); }
  }

  lemma CollectRepresents(t: imap<SwarmKey, Swarm>, t': imap<SwarmKey, Swarm>, f: Flat, cutoff: int)
    requires Represents(t, f)
    requires forall k :: LiveAt(t, t', cutoff, k)
    ensures Represents(t', Collect(f, cutoff))
  {
    var f' := Collect(f, cutoff);
    forall e: Entry ensures SameTime(t', f', e) { CollectSameTime(t, t', f, cutoff, e); }
    forall k: SwarmKey ensures SameTracked(t', f', k) {
      assert LiveAt(t, t', cutoff, k);
      if k in t' {
        var role := if t'[k].seeders != map[] then Seeder else Leecher;
        Inhabited(t'[k].Of(role));
        var p :| p in t'[k].Of(role);
        assert SameTime(t', f', Entry(role, k, p));
      }
      if k in f'.tracked {
        var e :| e in f'.times && e.swarm == k;
        assert SameTime(t', f', e);
      }
    }
  }

  lemma CollectSameTime(t: imap<SwarmKey, Swarm>, t': imap<SwarmKey, Swarm>, f: Flat, cutoff: int, e: Entry)
    requires SameTime(t, f, e) && LiveAt(t, t', cutoff, e.swarm)
    ensures SameTime(t', Collect(f, cutoff), e)
  {
    if e.swarm in t {
      var live := LiveSwarm(t[e.swarm], cutoff);
      assert live.Of(e.role) == Live(t[e.swarm].Of(e.role), cutoff);
      assert e.peer in live.Of(e.role) ==> live != Swarm(map[], map[]);
    }
  }

  lemma Inhabited(m: map<Peer, int>)
    requires m != map[]
    ensures exists p :: p in m
  {
    var p :| p in m.Keys;
  }

  lemma PutRefines(v: View, idx: Index, f: Flat, role: Role, k: SwarmKey, p: Peer, now: int)
    requires Refines(v, idx, f) && k.v6 == IsV6(p)
    ensures var i := idx(k);
            Refines(v[i := PutIn(v[i], role, k.hash, p, now)], idx, FlatStore.Put(f, role, k, p, now))
  {
    var sw := Get(v[idx(k)], k.hash);
    TableUpdate(v, idx, k, sw.With(role, sw.Of(role)[p := now]));
    PutRepresents(Table(v, idx), f, role, k, p, now);
    var f' := FlatStore.Put(f, role, k, p, now);
    forall e: Entry ensures InFamily(f', e) { assert InFamily(f, e); }
  }

  lemma RemoveRefines(v: View, idx: Index, f: Flat, role: Role, k: SwarmKey, p: Peer)
    requires Refines(v, idx, f) && k.hash in v[idx(k)]
    ensures var i := idx(k);
            Refines(v[i := RemoveIn(v[i], role, k.hash, p)], idx, Remove(f, role, k, p))
  {
    var sw := v[idx(k)][k.hash];
    TableUpdate(v, idx, k, sw.With(role, sw.Of(role) - {p}));
    RemoveRepresents(Table(v, idx), f, role, k, p);
    var f' := Remove(f, role, k, p);
    forall e: Entry ensures InFamily(f', e) { assert InFamily(f, e); }
  }

  lemma TrackRepresents(t: imap<SwarmKey, Swarm>, f: Flat, k: SwarmKey)
    requires Represents(t, f)
    ensures Represents(t[k := if k in t then t[k] else Swarm(map[], map[])], f.(tracked := f.tracked + {k}))
  {
    var t', f' := t[k := if k in t then t[k] else Swarm(map[], map[])], f.(tracked := f.tracked + {k});
    forall e: Entry ensures SameTime(t', f', e) { assert SameTime(t, f, e); assert SameTracked(t, f, k); }
    forall k': SwarmKey ensures SameTracked(t', f', k') { assert SameTracked(t, f, k'); }
  }

  /** Creating an empty swarm only makes it known. */
  lemma TrackRefines(v: View, idx: Index, f: Flat, k: SwarmKey)
    requires Refines(v, idx, f)
    ensures var i := idx(k);
            Refines(v[i := SetSwarm(v[i], k.hash, Get(v[i], k.hash))], idx, f.(tracked := f.tracked + {k}))
  {
    TableUpdate(v, idx, k, Get(v[idx(k)], k.hash));
    TrackRepresents(Table(v, idx), f, k);
    var f' := f.(tracked := f.tracked + {k});
    forall e: Entry ensures InFamily(f', e) { assert InFamily(f, e); }
  }

  lemma GraduateRefines(v: View, idx: Index, f: Flat, k: SwarmKey, p: Peer, now: int)
    requires Refines(v, idx, f) && k.v6 == IsV6(p)
    ensures var i := idx(k);
            Refines(v[i := GraduateIn(v[i], k.hash, p, now)], idx, Graduate(f, k, p, now))
  {
    var i := idx(k);
    var s1 := SetSwarm(v[i], k.hash, Get(v[i], k.hash));
    var s2 := RemoveIn(s1, Leecher, k.hash, p);
    var f1 := f.(tracked := f.tracked + {k});
    var f2 := Remove(f1, Leecher, k, p);
    TrackRefines(v, idx, f, k);
    RemoveRefines(v[i := s1], idx, f1, Leecher, k, p);
    PutRefines(v[i := s1][i := s2], idx, f2, Seeder, k, p, now);
    SameGraduate(v, i, s1, s2, PutIn(s2, Seeder, k.hash, p, now), f, k, p, now);
  }

  lemma SameGraduate(v: View, i: int, s1: Swarms, s2: Swarms, s3: Swarms, f: Flat, k: SwarmKey, p: Peer, now: int)
    requires 0 <= i < |v|
    ensures v[i := s1][i := s2][i := s3] == v[i := s3]
    ensures FlatStore.Put(Remove(f.(tracked := f.tracked + {k}), Leecher, k, p), Seeder, k, p, now) ==
            Graduate(f, k, p, now)
  {
    assert f.tracked + {k} + {k} == f.tracked + {k};
  }

  lemma TrackedSwarm(v: View, idx: Index, f: Flat, k: SwarmKey)
    requires Refines(v, idx, f)
    ensures k in f.tracked <==> k.hash in v[idx(k)]
  {
    assert SameTracked(Table(v, idx), f, k);
  }

  lemma PeersOfSwarm(v: View, idx: Index, f: Flat, role: Role, k: SwarmKey)
    requires Refines(v, idx, f)
    ensures PeersOf(f, role, k) == Get(v[idx(k)], k.hash).Of(role).Keys
  {
    var t := Table(v, idx);
    assert k in t <==> k.hash in v[idx(k)];
    forall p: Peer ensures p in PeersOf(f, role, k) <==> p in Get(v[idx(k)], k.hash).Of(role) {
      assert SameTime(t, f, Entry(role, k, p));
    }
  }

  // ------------------------------------------------------------------ totals

  lemma {:induction false} SameCount<A, B>(a: set<A>, b: set<B>, image: A -> B)
    requires forall x :: x in a ==> image(x) in b
    requires forall x, y :: x in a && y in a && image(x) == image(y) ==> x == y
    requires forall y :: y in b ==> exists x :: x in a && image(x) == y
    ensures |a| == |b|
    decreases a
  {
    if a == {} {
      assert b == {};
    } else {
      var x :| x in a;
      SameCount(a - {x}, b - {image(x)}, image);
    }
  }

  ghost function Total(v: View, role: Role, n: nat): nat
    requires n <= |v|
  {
    if n == 0 then 0 else Total(v, role, n - 1) + |Pairs(v[n - 1], role)|
  }

  ghost function TotalTracked(v: View, n: nat): nat
    requires n <= |v|
  {
    if n == 0 then 0 else TotalTracked(v, n - 1) + |v[n - 1]|
  }

  ghost function EntriesBelow(idx: Index, f: Flat, role: Role, n: int): set<Entry> {
    set e | e in f.times && e.role == role && idx(e.swarm) < n
  }

  ghost function EntriesAt(idx: Index, f: Flat, role: Role, i: int): set<Entry> {
    set e | e in f.times && e.role == role && idx(e.swarm) == i
  }

  lemma SplitEntries(idx: Index, f: Flat, role: Role, n: int)
    ensures |EntriesBelow(idx, f, role, n + 1)| == |EntriesBelow(idx, f, role, n)| + |EntriesAt(idx, f, role, n)|
  {
    assert EntriesBelow(idx, f, role, n + 1) == EntriesBelow(idx, f, role, n) + EntriesAt(idx, f, role, n);
    assert EntriesBelow(idx, f, role, n) !! EntriesAt(idx, f, role, n);
  }

  lemma ShardEntries(v: View, idx: Index, f: Flat, role: Role, i: int)
    requires Refines(v, idx, f) && 0 <= i < |v|
    ensures |EntriesAt(idx, f, role, i)| == |Pairs(v[i], role)|
  {
    var a := EntriesAt(idx, f, role, i);
    var b := Pairs(v[i], role);
    var t := Table(v, idx);
    var image := (e: Entry) => (e.swarm.hash, e.peer);
    forall y | y in b ensures exists e :: e in a && image(e) == y {
      var e := Entry(role, SwarmKey(y.0, i >= |v| / 2), y.1);
      assert AtHome(v, idx, i, y.0) && SameTime(t, f, e);
      assert e in a && image(e) == y;
    }
    forall e | e in a ensures image(e) in b {
      assert SameTime(t, f, e);
    }
    SameCount(a, b, image);
  }

  /** The peers of all shards are the entries of the flat store, each counted once. */
  lemma {:induction false} TotalEntries(v: View, idx: Index, f: Flat, role: Role, n: nat)
    requires Refines(v, idx, f) && n <= |v|
    ensures Total(v, role, n) == |EntriesBelow(idx, f, role, n)|
  {
    if n == 0 {
      assert EntriesBelow(idx, f, role, 0) == {};
    } else {
      TotalEntries(v, idx, f, role, n - 1);
      ShardEntries(v, idx, f, role, n - 1);
      SplitEntries(idx, f, role, n - 1);
    }
  }

  ghost function TrackedBelow(idx: Index, f: Flat, n: int): set<SwarmKey> {
    set k | k in f.tracked && idx(k) < n
  }

  ghost function TrackedAt(idx: Index, f: Flat, i: int): set<SwarmKey> {
    set k | k in f.tracked && idx(k) == i
  }

  lemma SplitTracked(idx: Index, f: Flat, n: int)
    ensures |TrackedBelow(idx, f, n + 1)| == |TrackedBelow(idx, f, n)| + |TrackedAt(idx, f, n)|
  {
    assert TrackedBelow(idx, f, n + 1) == TrackedBelow(idx, f, n) + TrackedAt(idx, f, n);
    assert TrackedBelow(idx, f, n) !! TrackedAt(idx, f, n);
  }

  lemma ShardSwarms(v: View, idx: Index, f: Flat, i: int)
    requires Refines(v, idx, f) && 0 <= i < |v|
    ensures |TrackedAt(idx, f, i)| == |v[i]|
  {
    var a := TrackedAt(idx, f, i);
    var t := Table(v, idx);
    var image := (k: SwarmKey) => k.hash;
    forall h | h in v[i].Keys ensures exists k :: k in a && image(k) == h {
      var k := SwarmKey(h, i >= |v| / 2);
      assert AtHome(v, idx, i, h) && SameTracked(t, f, k);
      assert k in a && image(k) == h;
    }
    forall k | k in a ensures image(k) in v[i].Keys {
      assert SameTracked(t, f, k);
    }
    SameCount(a, v[i].Keys, image);
  }

  lemma {:induction false} TotalSwarms(v: View, idx: Index, f: Flat, n: nat)
    requires Refines(v, idx, f) && n <= |v|
    ensures TotalTracked(v, n) == |TrackedBelow(idx, f, n)|
  {
    if n == 0 {
      assert TrackedBelow(idx, f, 0) == {};
    } else {
      TotalSwarms(v, idx, f, n - 1);
      ShardSwarms(v, idx, f, n - 1);
      SplitTracked(idx, f, n - 1);
    }
  }

  /** Summed over all shards: every entry of the flat store, and every known swarm, once. */
  lemma Totals(v: View, idx: Index, f: Flat)
    requires Refines(v, idx, f)
    ensures forall role :: Total(v, role, |v|) == |EntriesOf(f, role)|
    ensures TotalTracked(v, |v|) == |f.tracked|
  {
    forall role: Role ensures Total(v, role, |v|) == |EntriesOf(f, role)| {
      TotalEntries(v, idx, f, role, |v|);
      AllBelow(idx, f, role, |v|);
    }
    TotalSwarms(v, idx, f, |v|);
    AllBelow(idx, f, Seeder, |v|);
  }

  lemma AllBelow(idx: Index, f: Flat, role: Role, n: int)
    requires Splits(idx, n)
    ensures EntriesBelow(idx, f, role, n) == EntriesOf(f, role) && TrackedBelow(idx, f, n) == f.tracked
  {
  }
}
