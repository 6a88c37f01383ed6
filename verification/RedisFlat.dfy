/**
 What the Redis store means: its hashes are a flat store, the commands of its clients and an
 uninterrupted gc pass are the operations of the flat store, and a query selects from it.
 */
module RedisFlat {
  import opened ByteStrings
  import opened Bittorrent
  import opened RedisKeys
  import opened RedisProtocol
  import opened RedisPeers
  import opened EntryMap
  import FlatStore
  import MemoryTable
  import RedisPass
  import RedisRefresh

  type Field = RedisRefresh.Field

  // ---------------------------------------------------------------- fields and entries

  /** A field that a store call can have written: PackPeer of a peer with an address. */
  predicate Packed(b: Bytes) {
    var u := UnpackPeer(b);
    u.Unpacked? && PackPeer(u.peer) == b
  }

  lemma PackedPeer(p: Peer)
    requires p.ip.IsValid()
    ensures Packed(PackPeer(p))
  {
    UnpackPacked(p);
    BareUnmapped(p.ip);
    PackInjective(p, Peer(p.id, Bare(p.ip), p.port));
  }

  lemma UnpackedPlain(b: Bytes)
    requires UnpackPeer(b).Unpacked?
    ensures Plain(UnpackPeer(b).peer)
  {
    BareUnmapped(UnpackPeer(b).peer.ip);
  }

  predicate IsHash(h: Bytes) { |h| == INFO_HASH_V1_LEN || |h| == INFO_HASH_V2_LEN }

  /** A field of a swarm. */
  predicate Representable(g: Field) { g.0.Peers? && IsHash(g.0.infoHash) && Packed(g.1) }

  function RoleOf(seeder: bool): FlatStore.Role { if seeder then FlatStore.Seeder else FlatStore.Leecher }

  /** An entry no field of a swarm stands for: a peer without an address. */
  const NO_ENTRY := FlatStore.Entry(FlatStore.Seeder, FlatStore.SwarmKey("01234567890123456789", false),
      Peer("01234567890123456789", NoAddr, 0))

  function EntryOf(g: Field): FlatStore.Entry {
    if Representable(g) then
      FlatStore.Entry(RoleOf(g.0.seeder), FlatStore.SwarmKey(g.0.infoHash, g.0.v6), UnpackPeer(g.1).peer)
    else NO_ENTRY
  }

  function FieldOf(e: FlatStore.Entry): Field {
    (Peers(e.swarm.hash, e.role.Seeder?, e.swarm.v6), PackPeer(e.peer))
  }

  const CODEC := Codec(FieldOf, EntryOf)

  lemma EntryRoundTrip(g: Field)
    requires Representable(g)
    ensures FieldOf(EntryOf(g)) == g && Plain(EntryOf(g).peer)
  {
    UnpackedPlain(g.1);
  }

  lemma FieldRoundTrip(e: FlatStore.Entry)
    requires Plain(e.peer)
    ensures Representable(FieldOf(e)) && EntryOf(FieldOf(e)) == e
  {
    UnpackPacked(e.peer);
    PackedPeer(e.peer);
  }

  // ------------------------------------------------------------------- the flat store

  ghost predicate WellKept(db: Redis) { forall g :: g in db.fields ==> Representable(g) }

  lemma KeptByCodec(db: Redis)
    requires WellKept(db)
    ensures EntryMap.WellKept(CODEC, db.fields)
  {
    forall g | g in db.fields ensures CODEC.field(CODEC.entry(g)) == g { EntryRoundTrip(g); }
  }

  ghost function FlatOf(db: Redis): FlatStore.Flat {
    var times := TimesOf(CODEC, db.fields);
    FlatStore.Flat(times, set e | e in times :: e.swarm)
  }

  // ------------------------------------------------------------------ the operations

  /** A peer as Redis keeps it: its address unmapped and without a zone. */
  function Kept(p: Peer): Peer { Peer(p.id, Bare(p.ip), p.port) }

  lemma KeptPacks(p: Peer)
    requires p.ip.IsValid()
    ensures Plain(Kept(p)) && PackPeer(Kept(p)) == PackPeer(p) && Packed(PackPeer(p))
  {
    BareUnmapped(p.ip);
    PackInjective(p, Kept(p));
    PackedPeer(p);
  }

  /** The entry of a store call, and the field it is kept in. */
  function EntryFor(h: InfoHash, seeder: bool, v6: bool, p: Peer): FlatStore.Entry {
    FlatStore.Entry(RoleOf(seeder), FlatStore.SwarmKey(h, v6), Kept(p))
  }

  lemma FieldFor(h: InfoHash, seeder: bool, v6: bool, p: Peer)
    requires p.ip.IsValid()
    ensures var e := EntryFor(h, seeder, v6, p);
            CODEC.field(e) == (Peers(h, seeder, v6), PackPeer(p)) && CODEC.entry(CODEC.field(e)) == e &&
                Representable(CODEC.field(e))
  {
    KeptPacks(p);
    FieldRoundTrip(EntryFor(h, seeder, v6, p));
  }

  /** putPeer is the flat store's Put, */
  lemma PutFlat(db: Redis, h: InfoHash, seeder: bool, v6: bool, p: Peer, b: Bytes, now: int)
    requires WellKept(db) && p.ip.IsValid() && b == PackPeer(p)
    ensures var db' := PutPeer(db, Peers(h, seeder, v6), seeder, b, now);
            && WellKept(db')
            && FlatOf(db').times == FlatStore.Put(FlatOf(db), RoleOf(seeder), FlatStore.SwarmKey(h, v6), Kept(p),
              now).times
  {
    FieldFor(h, seeder, v6, p);
    KeptByCodec(db);
    PutField(CODEC, db.fields, EntryFor(h, seeder, v6, p), now);
  }

  /** delPeer removes the entry, */
  lemma DeleteFlat(db: Redis, h: InfoHash, seeder: bool, v6: bool, p: Peer, b: Bytes)
    requires WellKept(db) && p.ip.IsValid() && b == PackPeer(p)
    ensures var db' := HDel(db, Peers(h, seeder, v6), b);
            && WellKept(db')
            && FlatOf(db').times == FlatStore.Remove(FlatOf(db), RoleOf(seeder), FlatStore.SwarmKey(h, v6),
              Kept(p)).times
  {
    FieldFor(h, seeder, v6, p);
    KeptByCodec(db);
    var e, g := EntryFor(h, seeder, v6, p), (Peers(h, seeder, v6), b);
    RemoveField(CODEC, db.fields, e);
    if g !in db.fields { assert db.fields - {g} == db.fields; }
  }

  /** GraduateLeecher is its Graduate, */
  lemma GraduateFlat(db: Redis, h: InfoHash, v6: bool, p: Peer, b: Bytes, now: int)
    requires WellKept(db) && p.ip.IsValid() && b == PackPeer(p)
    ensures var db' := GraduateLeecher(db, h, v6, b, now);
            && WellKept(db')
            && FlatOf(db').times == FlatStore.Graduate(FlatOf(db), FlatStore.SwarmKey(h, v6), Kept(p), now).times
  {
    var mid := HDel(db, Peers(h, false, v6), b);
    DeleteFlat(db, h, false, v6, p, b);
    PutFlat(mid, h, true, v6, p, b, now);
    assert GraduateLeecher(db, h, v6, b, now).fields == PutPeer(mid, Peers(h, true, v6), true, b, now).fields;
  }

  /** and a gc pass that ends is its Collect. */
  lemma PassFlat(db: Redis, cutoff: int, db': Redis)
    requires WellKept(db) && RedisPass.Cleaned(db, cutoff, db')
    ensures WellKept(db') && FlatOf(db') == FlatStore.Collect(FlatOf(db), cutoff)
  {
    KeptByCodec(db);
    LaterFields(CODEC, db.fields, cutoff);
    assert db'.fields == Later(db.fields, cutoff);
  }

  // ----------------------------------------------------------------- reachable states

  /** What the store calls send: an info hash and a packed peer. */
  predicate Proper(a: Action) { a.Put? || a.Graduate? ==> IsHash(a.infoHash) && Packed(a.peer) }

  lemma {:induction false} RunsWellKept(guarded: bool, s: State, trace: Trace)
    requires Initial(s) && forall i :: 0 <= i < |trace| ==> Proper(trace[i].1)
    ensures WellKept(Exec(guarded, s, trace).db)
  {
    if trace != [] {
      var n := |trace| - 1;
      var before := Exec(guarded, s, trace[..n]);
      RunsWellKept(guarded, s, trace[..n]);
      assert Proper(trace[n].1);
      forall g: Field | g in Exec(guarded, s, trace).db.fields ensures Representable(g) {
        RedisRefresh.StepOnField(guarded, before, trace[n].0, trace[n].1, g);
      }
    }
  }

  /** After every run of the guarded protocol an uninterrupted pass that ends collects the flat store. */
  lemma GuardedPassIsCollect(s: State, trace: Trace, pid: nat, cutoff: int, members: seq<Key>, actions: seq<Action>)
    requires Initial(s) && (forall i :: 0 <= i < |trace| ==> Proper(trace[i].1)) && RedisPass.Undisturbed(actions)
    requires var mid := Exec(true, s, trace);
             pid < |mid.procs| && mid.procs[pid] == Idle && forall k :: k in members <==> k in mid.db.index
    ensures var mid := Exec(true, s, trace);
            var (db, p) := RedisPass.Pass(true, mid.db, NextKey(cutoff, members), actions);
            WellKept(mid.db) && (p.Idle? ==> FlatOf(db) == FlatStore.Collect(FlatOf(mid.db), cutoff))
  {
    var mid := Exec(true, s, trace);
    RunsWellKept(true, s, trace);
    RedisPass.GuardedPassCollects(s, trace, pid, cutoff, members, actions);
    var (db, p) := RedisPass.Pass(true, mid.db, NextKey(cutoff, members), actions);
    if p.Idle? { PassFlat(mid.db, cutoff, db); }
  }

  // --------------------------------------------------------------------------- queries

  /** The fields of one hash. */
  ghost function FieldsUnder(db: Redis, key: Key): set<Bytes> { set g | g in db.fields && g.0 == key :: g.1 }

  /** HRANDFIELD with a positive count: distinct fields, as many as there are up to the count. */
  ghost predicate Draws(m: Members, db: Redis, key: Key, count: int) {
    && m.Records? && FlatStore.NoDuplicates(m.records)
    && |m.records| == FlatStore.Min(count, |FieldsUnder(db, key)|)
    && forall i :: 0 <= i < |m.records| ==> m.records[i] in FieldsUnder(db, key)
  }

  ghost predicate HRandField(members: MembersFn, db: Redis) {
    forall key: Key, count: int {:trigger Draws(members(Render(key), count), db, key, count)} ::
      key.Peers? && count >= 1 ==> Draws(members(Render(key), count), db, key, count)
  }

  lemma PeerUnder(db: Redis, h: InfoHash, seeder: bool, v6: bool, p: Peer)
    requires WellKept(db)
    ensures p in FlatStore.PeersOf(FlatOf(db), RoleOf(seeder), FlatStore.SwarmKey(h, v6)) <==>
              Plain(p) && (Peers(h, seeder, v6), PackPeer(p)) in db.fields
  {
    var e := FlatStore.Entry(RoleOf(seeder), FlatStore.SwarmKey(h, v6), p);
    KeptByCodec(db);
    EntryAt(CODEC, db.fields, e);
    InPeersOf(FlatOf(db), e);
    if FieldOf(e) in db.fields && EntryOf(FieldOf(e)) == e { EntryRoundTrip(FieldOf(e)); }
    if Plain(p) { FieldRoundTrip(e); }
  }

  lemma InPeersOf(f: FlatStore.Flat, e: FlatStore.Entry)
    ensures e.peer in FlatStore.PeersOf(f, e.role, e.swarm) <==> e in f.times
  {
  }

  lemma FieldUnder(db: Redis, h: InfoHash, seeder: bool, v6: bool, b: Bytes)
    requires WellKept(db)
    ensures var peers := FlatStore.PeersOf(FlatOf(db), RoleOf(seeder), FlatStore.SwarmKey(h, v6));
            (Peers(h, seeder, v6), b) in db.fields <==> b in Fields(peers)
  {
    var peers := FlatStore.PeersOf(FlatOf(db), RoleOf(seeder), FlatStore.SwarmKey(h, v6));
    var g := (Peers(h, seeder, v6), b);
    if g in db.fields {
      EntryRoundTrip(g);
      PeerUnder(db, h, seeder, v6, EntryOf(g).peer);
      assert EntryOf(g).peer in peers && PackPeer(EntryOf(g).peer) == b;
    }
    if b in Fields(peers) {
      var p :| p in peers && PackPeer(p) == b;
      PeerUnder(db, h, seeder, v6, p);
    }
  }

  /** The peers of a swarm in the flat store and the fields of its hash are in bijection. */
  lemma FieldsOfPeers(db: Redis, h: InfoHash, seeder: bool, v6: bool)
    requires WellKept(db)
    ensures var peers := FlatStore.PeersOf(FlatOf(db), RoleOf(seeder), FlatStore.SwarmKey(h, v6));
            && (forall p :: p in peers ==> Plain(p))
            && Fields(peers) == FieldsUnder(db, Peers(h, seeder, v6)) && |peers| == |Fields(peers)|
  {
    var key := Peers(h, seeder, v6);
    var peers := FlatStore.PeersOf(FlatOf(db), RoleOf(seeder), FlatStore.SwarmKey(h, v6));
    forall p | p in peers ensures Plain(p) { PeerUnder(db, h, seeder, v6, p); }
    forall b: Bytes ensures b in Fields(peers) <==> b in FieldsUnder(db, key) { FieldUnder(db, h, seeder, v6, b); }
    AsManyFields(peers);
  }

  lemma AsManyFields(peers: set<Peer>)
    requires forall p :: p in peers ==> Plain(p)
    ensures |peers| == |Fields(peers)|
  {
    forall p, q | p in peers && q in peers && PackPeer(p) == PackPeer(q) ensures p == q { PackInjective(p, q); }
    MemoryTable.SameCount(peers, Fields(peers), PackPeer);
  }

  lemma HashServes(members: MembersFn, db: Redis, h: InfoHash, seeder: bool, v6: bool)
    requires WellKept(db) && HRandField(members, db)
    ensures Serves(members, InfoHashKey(h, seeder, v6),
            FlatStore.PeersOf(FlatOf(db), RoleOf(seeder), FlatStore.SwarmKey(h, v6)))
  {
    var key := Peers(h, seeder, v6);
    var peers := FlatStore.PeersOf(FlatOf(db), RoleOf(seeder), FlatStore.SwarmKey(h, v6));
    FieldsOfPeers(db, h, seeder, v6);
    forall count | count >= 1 ensures Answered(members(InfoHashKey(h, seeder, v6), count), peers, count) {
      assert Draws(members(Render(key), count), db, key, count);
    }
  }

  /**
   After every run of the protocol, a query for at least one peer over HRANDFIELD selects from the
   flat store of that state, as the memory store does from its own.
   */
  lemma QuerySelectsFromState(guarded: bool, s: State, trace: Trace, members: MembersFn, h: InfoHash,
                              forSeeder: bool, numWant: int, v6: bool)
    requires Initial(s) && (forall i :: 0 <= i < |trace| ==> Proper(trace[i].1)) && numWant >= 1
    requires HRandField(members, Exec(guarded, s, trace).db)
    ensures var db, g := Exec(guarded, s, trace).db, Gather(QueryKeys(h, forSeeder, v6), numWant, members);
            WellKept(db) && !g.failed && FlatStore.IsSelection(FlatOf(db), FlatStore.SwarmKey(h, v6), forSeeder,
                numWant, g.peers)
  {
    var db, k := Exec(guarded, s, trace).db, FlatStore.SwarmKey(h, v6);
    RunsWellKept(guarded, s, trace);
    HashServes(members, db, h, true, v6);
    HashServes(members, db, h, false, v6);
    QuerySelects(h, forSeeder, numWant, v6, members, FlatStore.PeersOf(FlatOf(db), FlatStore.Seeder, k),
                 FlatStore.PeersOf(FlatOf(db), FlatStore.Leecher, k));
  }
}
