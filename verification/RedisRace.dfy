/**
 One process on its own as a run of the protocol, gc's commands for one hash, and how
 one client that interrupts them makes CHI_I incomplete.
 */
module RedisRace {
  import opened RedisKeys
  import opened RedisProtocol
  import opened RedisIndex

  /** One process alone. */
  ghost function Solo(guarded: bool, db: Redis, p: Proc, actions: seq<Action>): (Redis, Proc)
    decreases actions
  {
    if actions == [] then (db, p)
    else
      var (db', p') := StepProc(guarded, db, p, actions[0]);
      Solo(guarded, db', p', actions[1..])
  }

  function TraceOf(pid: nat, actions: seq<Action>): (t: Trace)
    ensures |t| == |actions|
    ensures forall i :: 0 <= i < |t| ==> t[i] == (pid, actions[i])
  {
    if actions == [] then [] else [(pid, actions[0])] + TraceOf(pid, actions[1..])
  }

  lemma {:induction false} ExecAppend(guarded: bool, s: State, t: Trace, u: Trace)
    ensures Exec(guarded, s, t + u) == Exec(guarded, Exec(guarded, s, t), u)
  {
    if u == [] {
      assert t + u == t;
    } else {
      assert (t + u)[..|t + u| - 1] == t + u[..|u| - 1];
      ExecAppend(guarded, s, t, u[..|u| - 1]);
    }
  }

  lemma ExecOne(guarded: bool, s: State, pid: nat, a: Action)
    ensures Exec(guarded, s, [(pid, a)]) == Step(guarded, s, pid, a)
  {
    var t: Trace := [(pid, a)];
    assert t[..|t| - 1] == [];
  }

  lemma SoloFirst(guarded: bool, db: Redis, p: Proc, a: Action, rest: seq<Action>)
    ensures var (db', p') := StepProc(guarded, db, p, a);
            Solo(guarded, db, p, [a] + rest) == Solo(guarded, db', p', rest)
  {
    assert ([a] + rest)[1..] == rest;
  }

  lemma {:induction false} SoloIsExec(guarded: bool, s: State, pid: nat, actions: seq<Action>)
    requires pid < |s.procs|
    ensures var (db, p) := Solo(guarded, s.db, s.procs[pid], actions);
            Exec(guarded, s, TraceOf(pid, actions)) == State(db, s.procs[pid := p])
    decreases actions
  {
    if actions == [] {
      assert s.procs[pid := s.procs[pid]] == s.procs;
    } else {
      var s' := Step(guarded, s, pid, actions[0]);
      ExecOne(guarded, s, pid, actions[0]);
      ExecAppend(guarded, s, [(pid, actions[0])], TraceOf(pid, actions[1..]));
      SoloIsExec(guarded, s', pid, actions[1..]);
      var p := Solo(guarded, s.db, s.procs[pid], actions).1;
      assert s'.procs[pid := p] == s.procs[pid := p];
    }
  }

  // ------------------------------------------------------------- one hash

  ghost function Without(db: Redis, key: Key, cutoff: int): map<(Key, PeerID), int> {
    map f | f in db.fields && !(f.0 == key && db.fields[f] <= cutoff) :: db.fields[f]
  }

  lemma {:induction false} HDelManyFields(db: Redis, key: Key, peers: seq<PeerID>)
    ensures var (db', n) := HDelMany(db, key, peers);
            && db'.index == db.index
            && (forall f :: f in db'.fields <==> f in db.fields && !(f.0 == key && f.1 in peers))
            && (forall f :: f in db'.fields ==> db'.fields[f] == db.fields[f])
            && (n == 0 ==> db' == db)
    decreases peers
  {
    if peers != [] {
      HDelManyFields(HDel(db, key, peers[0]), key, peers[1..]);
    }
  }

  const CLEANING: seq<Action> := [HDelAll, DecrBy, Watch, HLen]

  /** gc's work on one hash up to its HLEN: exactly the expired peers are gone. */
  lemma KeyPass(guarded: bool, db: Redis, p: Proc, dead: seq<PeerID>)
    requires p.NextKey? && p.todo != [] && p.todo[0].Peers?
    requires Lists(dead, db, p.todo[0], p.cutoff)
    ensures var key, next := p.todo[0], NextKey(p.cutoff, p.todo[1..]);
            var (db', p') := Solo(guarded, db, p, [Fetch(dead)] + CLEANING);
            && db'.fields == Without(db, key, p.cutoff) && db'.index == db.index
            && p' == if EmptyHash(db', key) then At(p.cutoff, p.todo[1..], key, FoundEmpty(Version(db', key))) else next
  {
    var key, todo := p.todo[0], p.todo[1..];
    var db1 := HDelMany(db, key, dead).0;
    var s0, s1, s2 := ExpiryPass(guarded, db, p, dead);
    UnfoldKeyPass(guarded, db, p, dead, s0, s1, s2);
    assert db1.fields == Without(db, key, p.cutoff) by { HDelManyFields(db, key, dead); }
    assert s2.0.fields == db1.fields;
  }

  /** The part that removes and counts the expired peers. */
  lemma ExpiryPass(guarded: bool, db: Redis, p: Proc, dead: seq<PeerID>)
    returns (s0: (Redis, Proc), s1: (Redis, Proc), s2: (Redis, Proc))
    requires p.NextKey? && p.todo != [] && p.todo[0].Peers?
    requires Lists(dead, db, p.todo[0], p.cutoff)
    ensures s0 == StepProc(guarded, db, p, Fetch(dead))
    ensures s1 == StepProc(guarded, s0.0, s0.1, HDelAll)
    ensures s2 == StepProc(guarded, s1.0, s1.1, DecrBy)
    ensures s2.1 == At(p.cutoff, p.todo[1..], p.todo[0], Cleanup)
    ensures s2.0.fields == HDelMany(db, p.todo[0], dead).0.fields && s2.0.index == db.index
  {
    var key, todo := p.todo[0], p.todo[1..];
    s0 := StepProc(guarded, db, p, Fetch(dead));
    assert s0 == (db, At(p.cutoff, todo, key, if dead == [] then Cleanup else Expired(dead)));
    s1 := StepProc(guarded, s0.0, s0.1, HDelAll);
    var (db1, n) := HDelMany(db, key, dead);
    HDelManyFields(db, key, dead);
    assert s1 == (db1, At(p.cutoff, todo, key, AfterHDel(n)));
    s2 := StepProc(guarded, s1.0, s1.1, DecrBy);
  }

  lemma UnfoldKeyPass(guarded: bool, db: Redis, p: Proc, dead: seq<PeerID>, s0: (Redis, Proc), s1: (Redis, Proc),
                      s2: (Redis, Proc))
    requires s0 == StepProc(guarded, db, p, Fetch(dead))
    requires s1 == StepProc(guarded, s0.0, s0.1, HDelAll)
    requires s2 == StepProc(guarded, s1.0, s1.1, DecrBy)
    ensures Solo(guarded, db, p, [Fetch(dead)] + CLEANING) ==
            var s3 := StepProc(guarded, s2.0, s2.1, Watch);
            StepProc(guarded, s3.0, s3.1, HLen)
  {
    var all := [Fetch(dead)] + CLEANING;
    assert all[1..] == CLEANING && CLEANING[1..] == [DecrBy, Watch, HLen];
    assert [DecrBy, Watch, HLen][1..] == [Watch, HLen] && [Watch, HLen][1..] == [HLen] && [HLen][1..] == [];
    assert all[0] == Fetch(dead);
    var s3 := StepProc(guarded, s2.0, s2.1, Watch);
    assert Solo(guarded, s2.0, s2.1, [Watch, HLen]) == Solo(guarded, s3.0, s3.1, [HLen]);
    assert Solo(guarded, s1.0, s1.1, [DecrBy, Watch, HLen]) == Solo(guarded, s2.0, s2.1, [Watch, HLen]);
    assert Solo(guarded, s0.0, s0.1, CLEANING) == Solo(guarded, s1.0, s1.1, [DecrBy, Watch, HLen]);
  }

  // --------------------------------------------------------------- the race

  const EMPTY_STORE := State(Redis(map[], {}, 0, 0, map[], map[]), [Idle, Idle])

  /** A gc pass finds a hash empty, a peer joins the swarm, and then the pass sends its SREM. */
  function RacingTrace(key: Key, peer: PeerID, t: int, gone: PeerID, cutoff: int): Trace
    requires key.Peers?
  {
    [(0, Put(key.infoHash, key.seeder, key.v6, gone, cutoff))]
    + TraceOf(1, [StartGC(cutoff, [key])] + ([Fetch([gone])] + CLEANING))
    + [(0, Put(key.infoHash, key.seeder, key.v6, peer, t))]
    + [(1, SRem)]
  }

  /** For every swarm: the program as written loses the new peer, the documented guard keeps it. */
  lemma RaceLosesIndexEntry(key: Key, peer: PeerID, t: int, gone: PeerID, cutoff: int)
    requires key.Peers?
    ensures var trace := RacingTrace(key, peer, t, gone, cutoff);
            var s' := Exec(false, EMPTY_STORE, trace);
            && Initial(EMPTY_STORE) && (key, peer) in s'.db.fields && key !in s'.db.index
            && !Listed(s'.db) && Listed(Exec(true, EMPTY_STORE, trace).db)
  {
    GuardedRunsStayListed(EMPTY_STORE, RacingTrace(key, peer, t, gone, cutoff));
    var put := Put(key.infoHash, key.seeder, key.v6, gone, cutoff);
    var t0: Trace := [(0, put)];
    var s0 := Step(false, EMPTY_STORE, 0, put);
    ExecOne(false, EMPTY_STORE, 0, put);
    var actions := [StartGC(cutoff, [key])] + ([Fetch([gone])] + CLEANING);
    var s1 := RaceStarts(key, gone, cutoff, s0.db);
    var (db1, p1) := s1;
    SoloIsExec(false, s0, 1, actions);
    ExecAppend(false, EMPTY_STORE, t0, TraceOf(1, actions));
    assert s0.procs[1 := p1] == [Idle, p1];
    RaceEnds(key, peer, t, t0 + TraceOf(1, actions), State(db1, [Idle, p1]));
  }

  lemma RaceStarts(key: Key, gone: PeerID, cutoff: int, db: Redis) returns (s: (Redis, Proc))
    requires key.Peers? && db.index == {key} && (key, gone) in db.fields && db.fields[(key, gone)] == cutoff
    requires forall f :: f in db.fields ==> f == (key, gone)
    ensures s == Solo(false, db, Idle, [StartGC(cutoff, [key])] + ([Fetch([gone])] + CLEANING))
    ensures s.1.At? && s.1.phase.FoundEmpty? && s.1.key == key
  {
    var p := NextKey(cutoff, [key]);
    StartsGC(key, cutoff, db);
    SoloFirst(false, db, Idle, StartGC(cutoff, [key]), [Fetch([gone])] + CLEANING);
    s := Solo(false, db, p, [Fetch([gone])] + CLEANING);
    assert Lists([gone], db, key, cutoff) && Without(db, key, cutoff) == map[];
    OnlyFieldExpired(db, p, gone);
  }

  lemma StartsGC(key: Key, cutoff: int, db: Redis)
    requires db.index == {key}
    ensures StepProc(false, db, Idle, StartGC(cutoff, [key])) == (db, NextKey(cutoff, [key]))
  {
  }

  lemma OnlyFieldExpired(db: Redis, p: Proc, gone: PeerID)
    requires p.NextKey? && |p.todo| == 1 && p.todo[0].Peers?
    requires Lists([gone], db, p.todo[0], p.cutoff) && Without(db, p.todo[0], p.cutoff) == map[]
    ensures var s := Solo(false, db, p, [Fetch([gone])] + CLEANING);
            s.1.At? && s.1.phase.FoundEmpty? && s.1.key == p.todo[0]
  {
    KeyPass(false, db, p, [gone]);
  }

  lemma RaceEnds(key: Key, peer: PeerID, t: int, before: Trace, s: State)
    requires key.Peers? && |s.procs| == 2 && s.procs[0] == Idle && s == Exec(false, EMPTY_STORE, before)
    requires s.procs[1].At? && s.procs[1].phase.FoundEmpty? && s.procs[1].key == key
    ensures var s' := Exec(false, EMPTY_STORE, before + [(0, Put(key.infoHash, key.seeder, key.v6, peer, t))] + [(1,
            SRem)]);
            (key, peer) in s'.db.fields && key !in s'.db.index
  {
    var t1 := before + [(0, Put(key.infoHash, key.seeder, key.v6, peer, t))];
    var t2 := t1 + [(1, SRem)];
    assert t1[..|t1| - 1] == before && t2[..|t2| - 1] == t1;
    var s1 := Exec(false, EMPTY_STORE, t1);
    assert (key, peer) in s1.db.fields;
  }
}
