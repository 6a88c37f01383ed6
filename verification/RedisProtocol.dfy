/**
 The Redis store as a concurrent protocol. Any number of clients and garbage
 collection passes share one Redis server; the server executes one command or one
 MULTI block at a time, in any interleaving, and any command may fail.

 A trace is a sequence of (process, action) pairs. An action that its process is
 not ready for does nothing, so every trace is a run.
 */
module RedisProtocol {
  import opened ByteStrings
  import opened RedisKeys

  type PeerID = Bytes

  /**
   Redis removes a hash with its last field, so the hashes are the flat map of
   their fields. `versions` counts the changes of each hash: a WATCH remembers it,
   and an EXEC goes through only if it is still the same.
   */
  datatype Redis = Redis(
    fields: map<(Key, PeerID), int>,
    index: set<Key>,
    seederCount: int,
    leecherCount: int,
    downloads: map<Bytes, nat>,
    versions: map<Key, nat>
  )

  /** Where a gc pass stands with the hash it is working on. */
  datatype Phase =
    | Expired(dead: seq<PeerID>)                 // HDEL of the expired peers is next
    | OneByOne(dead: seq<PeerID>, removed: nat)  // HDEL takes only one field, one such HDEL is next
    | OwesDecrBy(removed: nat)                   // DECRBY is next
    | Cleanup                                    // WATCH is next
    | Watching(version: nat)                     // HLEN is next
    | FoundEmpty(version: nat)                   // HLEN said 0, SREM is next

  /** Where a client or a gc pass stands between two commands. */
  datatype Proc =
    | Idle
    | OwesDecr(seeder: bool)                     // delPeer: HDEL removed one, DECR is next
    | NextKey(cutoff: int, todo: seq<Key>)       // gc: head of the loop over SMEMBERS
    | At(cutoff: int, todo: seq<Key>, key: Key, phase: Phase)

  datatype Action =
    | Put(infoHash: Bytes, seeder: bool, v6: bool, peer: PeerID, now: int)
    | Delete(infoHash: Bytes, seeder: bool, v6: bool, peer: PeerID)
    | Decr
    | Graduate(infoHash: Bytes, v6: bool, peer: PeerID, now: int)
    | StartGC(cutoff: int, members: seq<Key>)
    | Fetch(dead: seq<PeerID>)
    | HDelAll
    | HDelRefused
    | HDelOne
    | DecrBy
    | Watch
    | HLen
    | SRem
    | Fail
    | Crash

  datatype State = State(db: Redis, procs: seq<Proc>)

  // ---------------------------------------------------------------- commands

  function Version(db: Redis, key: Key): nat {
    if key in db.versions then db.versions[key] else 0
  }

  ghost predicate EmptyHash(db: Redis, key: Key) {
    forall f :: f in db.fields ==> f.0 != key
  }

  function Count(db: Redis, seeder: bool): int {
    if seeder then db.seederCount else db.leecherCount
  }

  function AddCount(db: Redis, seeder: bool, n: int): Redis {
    if seeder then db.(seederCount := db.seederCount + n) else db.(leecherCount := db.leecherCount + n)
  }

  function Touch(db: Redis, key: Key): Redis {
    db.(versions := db.versions[key := Version(db, key) + 1])
  }

  function HSet(db: Redis, key: Key, peer: PeerID, time: int): Redis {
    Touch(db.(fields := db.fields[(key, peer) := time]), key)
  }

  function HDel(db: Redis, key: Key, peer: PeerID): Redis {
    if (key, peer) in db.fields then Touch(db.(fields := db.fields - {(key, peer)}), key) else db
  }

  function HDelMany(db: Redis, key: Key, peers: seq<PeerID>): (Redis, nat)
    decreases peers
  {
    if peers == [] then (db, 0)
    else
      var (rest, n) := HDelMany(HDel(db, key, peers[0]), key, peers[1..]);
      (rest, if (key, peers[0]) in db.fields then n + 1 else n)
  }

  /** putPeer: one MULTI block of HSET, INCR and SADD. */
  function PutPeer(db: Redis, key: Key, seeder: bool, peer: PeerID, now: int): Redis {
    var db := AddCount(HSet(db, key, peer, now), seeder, 1);
    db.(index := db.index + {key})
  }

  /**
   GraduateLeecher: one MULTI block. The reply of its HDEL is read while the
   commands are only queued, where it is always 0: the leecher counter stays.
   */
  function GraduateLeecher(db: Redis, infoHash: Bytes, v6: bool, peer: PeerID, now: int): Redis {
    var db := HDel(db, Peers(infoHash, false, v6), peer);
    var db := PutPeer(db, Peers(infoHash, true, v6), true, peer, now);
    var n := if infoHash in db.downloads then db.downloads[infoHash] else 0;
    db.(downloads := db.downloads[infoHash := n + 1])
  }

  // ------------------------------------------------------------------- steps

  /** The expired fields of a hash, in any order. */
  ghost predicate Lists(dead: seq<PeerID>, db: Redis, key: Key, cutoff: int) {
    && (forall i, j :: 0 <= i < j < |dead| ==> dead[i] != dead[j])
    && (forall p :: p in dead <==> (key, p) in db.fields && db.fields[(key, p)] <= cutoff)
  }

  /** gc's loop head: finished, an unexpected record to skip, or a hash to read. */
  ghost function FetchStep(db: Redis, cutoff: int, todo: seq<Key>, dead: seq<PeerID>): Proc {
    if todo == [] then Idle
    else
      var key := todo[0];
      if key.Foreign? then NextKey(cutoff, todo[1..])
      else if !Lists(dead, db, key, cutoff) then NextKey(cutoff, todo)
      else At(cutoff, todo[1..], key, if dead == [] then Cleanup else Expired(dead))
  }

  function AfterHDel(removed: nat): Phase {
    if removed > 0 then OwesDecrBy(removed) else Cleanup
  }

  function AfterHDelOne(dead: seq<PeerID>, removed: nat): Phase {
    if |dead| <= 1 then AfterHDel(removed) else OneByOne(dead[1..], removed)
  }

  /** A failed command of a gc pass is logged, and the pass goes on. */
  function AfterFailure(p: Proc): Proc {
    match p
    case Idle => Idle
    case OwesDecr(_) => Idle
    case NextKey(cutoff, todo) => if todo == [] then Idle else NextKey(cutoff, todo[1..])
    case At(cutoff, todo, _, phase) =>
      match phase
      case OneByOne(dead, removed) => p.(phase := AfterHDelOne(dead, removed))
      case Expired(_) => p.(phase := Cleanup)
      case OwesDecrBy(_) => p.(phase := Cleanup)
      case _ => NextKey(cutoff, todo)
  }

  /**
   One atomic step of one process. With `guarded`, SREM is the body of the
   WATCH/MULTI/EXEC block that the comment on gc describes; without it, SREM is
   sent outside the transaction, as the callback does.
   */
  ghost function StepProc(guarded: bool, db: Redis, p: Proc, a: Action): (Redis, Proc) {
    if a.Crash? then (db, Idle)
    else if a.Fail? then (db, AfterFailure(p))
    else if p.At? then if p.key.Foreign? then (db, p) else StepGC(guarded, db, p, a)
    else StepClient(db, p, a)
  }

  ghost function StepClient(db: Redis, p: Proc, a: Action): (Redis, Proc) {
    if p.Idle? && a.Put? then
      (PutPeer(db, Peers(a.infoHash, a.seeder, a.v6), a.seeder, a.peer, a.now), Idle)
    else if p.Idle? && a.Delete? then
      var key := Peers(a.infoHash, a.seeder, a.v6);
      (HDel(db, key, a.peer), if (key, a.peer) in db.fields then OwesDecr(a.seeder) else Idle)
    else if p.OwesDecr? && a.Decr? then (AddCount(db, p.seeder, -1), Idle)
    else if p.Idle? && a.Graduate? then (GraduateLeecher(db, a.infoHash, a.v6, a.peer, a.now), Idle)
    else if p.Idle? && a.StartGC? && (forall k :: k in a.members <==> k in db.index) then
      (db, NextKey(a.cutoff, a.members))
    else if p.NextKey? && a.Fetch? then (db, FetchStep(db, p.cutoff, p.todo, a.dead))
    else (db, p)
  }

  ghost function StepGC(guarded: bool, db: Redis, p: Proc, a: Action): (Redis, Proc)
    requires p.At? && p.key.Peers?
  {
    var ph := p.phase;
    if ph.Expired? && a.HDelAll? then
      var (db', removed) := HDelMany(db, p.key, ph.dead);
      (db', p.(phase := AfterHDel(removed)))
    else if ph.Expired? && a.HDelRefused? then (db, p.(phase := OneByOne(ph.dead, 0)))
    else if ph.OneByOne? && a.HDelOne? && ph.dead != [] then
      var n := if (p.key, ph.dead[0]) in db.fields then ph.removed + 1 else ph.removed;
      (HDel(db, p.key, ph.dead[0]), p.(phase := AfterHDelOne(ph.dead, n)))
    else if ph.OwesDecrBy? && a.DecrBy? then (AddCount(db, p.key.seeder, 0 - ph.removed), p.(phase := Cleanup))
    else if ph.Cleanup? && a.Watch? then (db, p.(phase := Watching(Version(db, p.key))))
    else if ph.Watching? && a.HLen? then
      (db, if EmptyHash(db, p.key) then p.(phase := FoundEmpty(ph.version)) else NextKey(p.cutoff, p.todo))
    else if ph.FoundEmpty? && a.SRem? then
      (if guarded && Version(db, p.key) != ph.version then db else db.(index := db.index - {p.key}),
       NextKey(p.cutoff, p.todo))
    else (db, p)
  }

  ghost function Step(guarded: bool, s: State, pid: nat, a: Action): State {
    if pid >= |s.procs| then s
    else
      var (db, p) := StepProc(guarded, s.db, s.procs[pid], a);
      State(db, s.procs[pid := p])
  }

  type Trace = seq<(nat, Action)>

  ghost function Exec(guarded: bool, s: State, trace: Trace): State {
    if trace == [] then s
    else
      var (pid, a) := trace[|trace| - 1];
      Step(guarded, Exec(guarded, s, trace[..|trace| - 1]), pid, a)
  }

  ghost predicate Initial(s: State) {
    && s.db.fields == map[] && s.db.seederCount == 0 && s.db.leecherCount == 0
    && (forall k :: k in s.db.index ==> k.Foreign?)
    && forall i :: 0 <= i < |s.procs| ==> s.procs[i] == Idle
  }

  // ------------------------------------------------- conservation of counters

  ghost function FieldsOf(db: Redis, seeder: bool): set<(Key, PeerID)> {
    set f | f in db.fields && f.0.Peers? && f.0.seeder == seeder
  }

  /** How many peers are stored in a role. */
  ghost function Stored(db: Redis, seeder: bool): nat {
    |FieldsOf(db, seeder)|
  }

  /** The decrements a process has still to send. */
  function OwedBy(p: Proc, seeder: bool): nat {
    match p
    case OwesDecr(s) => if s == seeder then 1 else 0
    case At(_, _, key, phase) =>
      if key.Peers? && key.seeder == seeder && (phase.OneByOne? || phase.OwesDecrBy?) then phase.removed else 0
    case _ => 0
  }

  function Owed(procs: seq<Proc>, seeder: bool): nat {
    if procs == [] then 0 else Owed(procs[..|procs| - 1], seeder) + OwedBy(procs[|procs| - 1], seeder)
  }

  /**
   By how much one step makes a counter overcount for good: an INCR for a peer that
   was there already, the missing DECR of a graduation, or a decrement that is
   given up because its command failed or its process died.
   */
  function DriftOf(db: Redis, p: Proc, a: Action, seeder: bool): nat {
    if p.Idle? && a.Put? then
      if a.seeder == seeder && (Peers(a.infoHash, seeder, a.v6), a.peer) in db.fields then 1 else 0
    else if p.Idle? && a.Graduate? then
      if (Peers(a.infoHash, seeder, a.v6), a.peer) in db.fields then 1 else 0
    else if a.Crash? || (a.Fail? && !(p.At? && p.phase.OneByOne?)) then OwedBy(p, seeder)
    else 0
  }

  ghost function Drift(guarded: bool, s: State, trace: Trace, seeder: bool): nat {
    if trace == [] then 0
    else
      var (before, (pid, a)) := (trace[..|trace| - 1], trace[|trace| - 1]);
      var mid := Exec(guarded, s, before);
      Drift(guarded, s, before, seeder) + if pid < |mid.procs| then DriftOf(mid.db, mid.procs[pid], a, seeder) else 0
  }

  lemma {:induction false} OwedUpdate(procs: seq<Proc>, pid: nat, p: Proc, seeder: bool)
    requires pid < |procs|
    ensures Owed(procs[pid := p], seeder) == Owed(procs, seeder) - OwedBy(procs[pid], seeder) + OwedBy(p, seeder)
  {
    var n := |procs| - 1;
    if pid < n {
      assert procs[pid := p][..n] == procs[..n][pid := p];
      OwedUpdate(procs[..n], pid, p, seeder);
    } else {
      assert procs[pid := p][..n] == procs[..n];
    }
  }

  lemma {:induction false} OwedIdle(procs: seq<Proc>, seeder: bool)
    requires forall i :: 0 <= i < |procs| ==> procs[i] == Idle
    ensures Owed(procs, seeder) == 0
  {
    if procs != [] { OwedIdle(procs[..|procs| - 1], seeder); }
  }

  lemma HSetStored(db: Redis, key: Key, peer: PeerID, time: int, seeder: bool)
    requires key.Peers?
    ensures Stored(HSet(db, key, peer, time), seeder) ==
            Stored(db, seeder) + if key.seeder == seeder && (key, peer) !in db.fields then 1 else 0
  {
    var all, f := FieldsOf(db, seeder), (key, peer);
    assert FieldsOf(HSet(db, key, peer, time), seeder) == if key.seeder == seeder then all + {f} else all;
  }

  lemma HDelStored(db: Redis, key: Key, peer: PeerID, seeder: bool)
    requires key.Peers?
    ensures Stored(HDel(db, key, peer), seeder) ==
            Stored(db, seeder) - if key.seeder == seeder && (key, peer) in db.fields then 1 else 0
  {
    var all, f := FieldsOf(db, seeder), (key, peer);
    assert FieldsOf(HDel(db, key, peer), seeder) == if key.seeder == seeder then all - {f} else all;
  }

  lemma {:induction false} HDelManyStored(db: Redis, key: Key, peers: seq<PeerID>, seeder: bool)
    requires key.Peers?
    ensures var (db', n) := HDelMany(db, key, peers);
            && Stored(db', seeder) == Stored(db, seeder) - (if key.seeder == seeder then n else 0)
            && Count(db', seeder) == Count(db, seeder)
    decreases peers
  {
    if peers != [] {
      HDelStored(db, key, peers[0], seeder);
      HDelManyStored(HDel(db, key, peers[0]), key, peers[1..], seeder);
    }
  }

  /** gc only works on keys whose role it could tell. */
  predicate KnownKey(p: Proc) {
    p.At? ==> p.key.Peers?
  }

  /** What a counter overcounts, as one process sees it. */
  ghost function Excess(db: Redis, p: Proc, seeder: bool): int {
    Count(db, seeder) - Stored(db, seeder) - OwedBy(p, seeder)
  }

  ghost predicate Raises(db: Redis, p: Proc, next: (Redis, Proc), drift: int, seeder: bool) {
    KnownKey(next.1) && Excess(next.0, next.1, seeder) == Excess(db, p, seeder) + drift
  }

  /** One step raises the excess by exactly its drift. */
  lemma StepConserves(guarded: bool, db: Redis, p: Proc, a: Action, seeder: bool)
    requires KnownKey(p)
    ensures Raises(db, p, StepProc(guarded, db, p, a), DriftOf(db, p, a, seeder), seeder)
  {
    if a.Crash? || a.Fail? {
    } else if p.At? {
      GCStepConserves(guarded, db, p, a, seeder);
    } else {
      ClientStepConserves(db, p, a, seeder);
    }
  }

  lemma ClientStepConserves(db: Redis, p: Proc, a: Action, seeder: bool)
    requires !p.At? && !a.Crash? && !a.Fail?
    ensures Raises(db, p, StepClient(db, p, a), DriftOf(db, p, a, seeder), seeder)
  {
    if p.Idle? && a.Put? {
      PutConserves(db, Peers(a.infoHash, a.seeder, a.v6), a.peer, a.now, seeder);
    } else if p.Idle? && a.Delete? {
      DeleteConserves(db, p, a, seeder);
    } else if p.Idle? && a.Graduate? {
      GraduateConserves(db, a.infoHash, a.v6, a.peer, a.now, seeder);
    } else {
      BetweenConserves(db, p, a, seeder);
    }
  }

  lemma DeleteConserves(db: Redis, p: Proc, a: Action, seeder: bool)
    requires p.Idle? && a.Delete?
    ensures Raises(db, p, StepClient(db, p, a), 0, seeder)
  {
    HDelStored(db, Peers(a.infoHash, a.seeder, a.v6), a.peer, seeder);
  }

  /** The DECR of a deletion, and gc's steps between two hashes. */
  lemma BetweenConserves(db: Redis, p: Proc, a: Action, seeder: bool)
    requires !p.At? && !(p.Idle? && (a.Put? || a.Delete? || a.Graduate?))
    ensures Raises(db, p, StepClient(db, p, a), 0, seeder)
  {
    assert FieldsOf(StepClient(db, p, a).0, seeder) == FieldsOf(db, seeder);
  }

  lemma GCStepConserves(guarded: bool, db: Redis, p: Proc, a: Action, seeder: bool)
    requires KnownKey(p) && p.At? && !a.Crash? && !a.Fail?
    ensures Raises(db, p, StepGC(guarded, db, p, a), 0, seeder)
  {
    if p.phase.Expired? && a.HDelAll? {
      HDelAllConserves(guarded, db, p, seeder);
    } else if p.phase.OneByOne? && a.HDelOne? && p.phase.dead != [] {
      HDelOneConserves(guarded, db, p, seeder);
    } else {
      CleaningConserves(guarded, db, p, a, seeder);
    }
  }

  lemma HDelAllConserves(guarded: bool, db: Redis, p: Proc, seeder: bool)
    requires KnownKey(p) && p.At? && p.phase.Expired?
    ensures Raises(db, p, StepGC(guarded, db, p, HDelAll), 0, seeder)
  {
    HDelManyStored(db, p.key, p.phase.dead, seeder);
  }

  lemma HDelOneConserves(guarded: bool, db: Redis, p: Proc, seeder: bool)
    requires KnownKey(p) && p.At? && p.phase.OneByOne? && p.phase.dead != []
    ensures Raises(db, p, StepGC(guarded, db, p, HDelOne), 0, seeder)
  {
    HDelStored(db, p.key, p.phase.dead[0], seeder);
  }

  /** The commands that delete nothing. */
  lemma CleaningConserves(guarded: bool, db: Redis, p: Proc, a: Action, seeder: bool)
    requires KnownKey(p) && p.At?
    requires !(p.phase.Expired? && a.HDelAll?) && !(p.phase.OneByOne? && a.HDelOne? && p.phase.dead != [])
    ensures Raises(db, p, StepGC(guarded, db, p, a), 0, seeder)
  {
    assert FieldsOf(StepGC(guarded, db, p, a).0, seeder) == FieldsOf(db, seeder);
  }

  lemma PutConserves(db: Redis, key: Key, peer: PeerID, now: int, seeder: bool)
    requires key.Peers?
    ensures var db' := PutPeer(db, key, key.seeder, peer, now);
            Count(db', seeder) - Stored(db', seeder) ==
            Count(db, seeder) - Stored(db, seeder) + if key.seeder == seeder && (key, peer) in db.fields then 1 else 0
  {
    HSetStored(db, key, peer, now, seeder);
    assert FieldsOf(PutPeer(db, key, key.seeder, peer, now), seeder) == FieldsOf(HSet(db, key, peer, now), seeder);
  }

  lemma GraduateConserves(db: Redis, h: Bytes, v6: bool, peer: PeerID, now: int, seeder: bool)
    ensures var db' := GraduateLeecher(db, h, v6, peer, now);
            Count(db', seeder) - Stored(db', seeder) ==
            Count(db, seeder) - Stored(db, seeder) + if (Peers(h, seeder, v6), peer) in db.fields then 1 else 0
  {
    HDelStored(db, Peers(h, false, v6), peer, seeder);
    var mid := HDel(db, Peers(h, false, v6), peer);
    PutConserves(mid, Peers(h, true, v6), peer, now, seeder);
    var put := PutPeer(mid, Peers(h, true, v6), true, peer, now);
    assert FieldsOf(GraduateLeecher(db, h, v6, peer, now), seeder) == FieldsOf(put, seeder);
  }

  /**
   Conservation over every interleaved run: each global counter is the number of
   peers stored in that role, plus the decrements still owed, plus the drift.
   */
  lemma {:induction false} CounterConservation(guarded: bool, s: State, trace: Trace, seeder: bool)
    requires Initial(s)
    ensures var s' := Exec(guarded, s, trace);
            && |s'.procs| == |s.procs|
            && (forall i :: 0 <= i < |s'.procs| ==> KnownKey(s'.procs[i]))
            && Count(s'.db, seeder) ==
               Stored(s'.db, seeder) + Owed(s'.procs, seeder) + Drift(guarded, s, trace, seeder)
  {
    if trace == [] {
      OwedIdle(s.procs, seeder);
      assert FieldsOf(s.db, seeder) == {};
    } else {
      var (before, (pid, a)) := (trace[..|trace| - 1], trace[|trace| - 1]);
      CounterConservation(guarded, s, before, seeder);
      var mid := Exec(guarded, s, before);
      if pid < |mid.procs| {
        StepConserves(guarded, mid.db, mid.procs[pid], a, seeder);
        OwedUpdate(mid.procs, pid, StepProc(guarded, mid.db, mid.procs[pid], a).1, seeder);
      }
    }
  }

  /** Hence a counter never undercounts and never goes negative. */
  lemma CountersAreUpperBounds(guarded: bool, s: State, trace: Trace, seeder: bool)
    requires Initial(s)
    ensures var s' := Exec(guarded, s, trace);
            Count(s'.db, seeder) >= Stored(s'.db, seeder) + Owed(s'.procs, seeder) >= 0
  {
    CounterConservation(guarded, s, trace, seeder);
  }
}
