/**
 CHI_I, the set through which gc finds the hashes it has to clean.

 gc removes the key of an empty hash from CHI_I. The comment on gc argues that a
 WATCH/MULTI/EXEC block makes this safe; the callback sends its SREM outside the
 transaction. Both variants are the protocol of RedisProtocol, told apart by `guarded`.
 */
module RedisIndex {
  import opened RedisKeys
  import opened RedisProtocol

  /** Every hash that holds a peer is found by the next gc pass. */
  ghost predicate Listed(db: Redis) {
    forall f :: f in db.fields ==> f.0 in db.index
  }

  /** What a process between WATCH and SREM may rely on. */
  ghost predicate WatchHolds(db: Redis, p: Proc) {
    p.At? ==>
      match p.phase
      case Watching(v) => v <= Version(db, p.key)
      case FoundEmpty(v) => v <= Version(db, p.key) && (v == Version(db, p.key) ==> EmptyHash(db, p.key))
      case _ => true
  }

  ghost predicate Safe(s: State) {
    Listed(s.db) && forall i :: 0 <= i < |s.procs| ==> WatchHolds(s.db, s.procs[i])
  }

  /** Versions only grow, and a hash whose version is the same has not gained a field. */
  ghost predicate Advances(db: Redis, db': Redis) {
    forall k :: Version(db, k) <= Version(db', k) &&
        (Version(db, k) == Version(db', k) && EmptyHash(db, k) ==> EmptyHash(db', k))
  }

  lemma {:induction false} HDelManyAdvances(db: Redis, key: Key, peers: seq<PeerID>)
    ensures var db' := HDelMany(db, key, peers).0;
            Advances(db, db') && db'.index == db.index && (forall f :: f in db'.fields ==> f in db.fields)
    decreases peers
  {
    if peers != [] {
      var mid := HDel(db, key, peers[0]);
      HDelManyAdvances(mid, key, peers[1..]);
    }
  }

  lemma ClientStepSafe(db: Redis, p: Proc, a: Action)
    requires !p.At? && Listed(db)
    ensures var (db', p') := StepClient(db, p, a);
            Advances(db, db') && Listed(db') && WatchHolds(db', p')
  {
    if p.Idle? && a.Put? {
      PutAdvances(db, a);
    } else if p.Idle? && a.Graduate? {
      GraduateAdvances(db, a);
    }
  }

  lemma PutAdvances(db: Redis, a: Action)
    requires a.Put? && Listed(db)
    ensures var db' := PutPeer(db, Peers(a.infoHash, a.seeder, a.v6), a.seeder, a.peer, a.now);
            Advances(db, db') && Listed(db')
  {
  }

  lemma GraduateAdvances(db: Redis, a: Action)
    requires a.Graduate? && Listed(db)
    ensures var db' := GraduateLeecher(db, a.infoHash, a.v6, a.peer, a.now);
            Advances(db, db') && Listed(db')
  {
  }

  lemma GCStepSafe(guarded: bool, db: Redis, p: Proc, a: Action)
    requires p.At? && p.key.Peers? && WatchHolds(db, p) && Listed(db)
    requires p.phase.FoundEmpty? && a.SRem? && !guarded ==> EmptyHash(db, p.key)
    ensures var (db', p') := StepGC(guarded, db, p, a);
            Advances(db, db') && Listed(db') && WatchHolds(db', p')
  {
    if p.phase.Expired? && a.HDelAll? {
      HDelManyAdvances(db, p.key, p.phase.dead);
    } else if p.phase.OneByOne? && a.HDelOne? && p.phase.dead != [] {
      HDelAdvances(db, p.key, p.phase.dead[0]);
    } else if p.phase.FoundEmpty? && a.SRem? {
      SRemAdvances(db, p.key);
    }
  }

  lemma HDelAdvances(db: Redis, key: Key, peer: PeerID)
    requires Listed(db)
    ensures var db' := HDel(db, key, peer); Advances(db, db') && Listed(db')
  {
  }

  lemma SRemAdvances(db: Redis, key: Key)
    requires Listed(db)
    ensures var db' := db.(index := db.index - {key}); Advances(db, db') && (EmptyHash(db, key) ==> Listed(db'))
  {
  }

  /** Does this action fire an SREM outside a transaction on a hash that is not empty? */
  ghost predicate Race(s: State, pid: nat, a: Action) {
    && pid < |s.procs| && a.SRem?
    && var p := s.procs[pid];
       p.At? && p.key.Peers? && p.phase.FoundEmpty? && !EmptyHash(s.db, p.key)
  }

  lemma StepSafe(guarded: bool, s: State, pid: nat, a: Action)
    requires Safe(s)
    requires guarded || !Race(s, pid, a)
    ensures Safe(Step(guarded, s, pid, a))
  {
    if pid < |s.procs| {
      var p := s.procs[pid];
      if !(a.Crash? || a.Fail?) {
        if !p.At? {
          ClientStepSafe(s.db, p, a);
        } else if p.key.Peers? {
          GCStepSafe(guarded, s.db, p, a);
        }
      }
      assert Advances(s.db, StepProc(guarded, s.db, p, a).0);
    }
  }

  /** With the guard of the comment, every reachable state lists every non-empty hash. */
  lemma {:induction false} GuardedRunsStayListed(s: State, trace: Trace)
    requires Initial(s)
    ensures Safe(Exec(true, s, trace))
  {
    if trace != [] {
      var (pid, a) := trace[|trace| - 1];
      GuardedRunsStayListed(s, trace[..|trace| - 1]);
      StepSafe(true, Exec(true, s, trace[..|trace| - 1]), pid, a);
    }
  }

  ghost predicate RaceFree(s: State, trace: Trace) {
    trace == [] ||
    var before := trace[..|trace| - 1];
    RaceFree(s, before) && !Race(Exec(false, s, before), trace[|trace| - 1].0, trace[|trace| - 1].1)
  }

  /** The program as written keeps CHI_I complete in exactly the runs without such a race. */
  lemma {:induction false} UnguardedRunsListedIffRaceFree(s: State, trace: Trace)
    requires Initial(s)
    ensures RaceFree(s, trace) <==> forall n :: 0 <= n <= |trace| ==> Listed(Exec(false, s, trace[..n]).db)
    ensures RaceFree(s, trace) ==> Safe(Exec(false, s, trace))
  {
    assert trace[..|trace|] == trace;
    if trace == [] {
      assert forall n :: 0 <= n <= |trace| ==> trace[..n] == trace;
    } else {
      var before := trace[..|trace| - 1];
      UnguardedRunsListedIffRaceFree(s, before);
      assert forall n :: 0 <= n <= |before| ==> before[..n] == trace[..n];
      var mid := Exec(false, s, before);
      var (pid, a) := trace[|trace| - 1];
      if !Race(mid, pid, a) {
        if RaceFree(s, before) { StepSafe(false, mid, pid, a); }
      } else {
        var f :| f in mid.db.fields && f.0 == mid.procs[pid].key;
        assert f in Exec(false, s, trace).db.fields && f.0 !in Exec(false, s, trace).db.index;
      }
    }
  }
}
