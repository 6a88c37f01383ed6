/**
 gc is to delete the peers that are older than its cutoff. It reads the times of a hash with one
 command and deletes with a later one, so it may also delete a peer that has announced itself in
 between: exactly such a peer, and no other fresh one.
 */
module RedisRefresh {
  import opened RedisKeys
  import opened RedisProtocol
  import opened RedisIndex
  import opened RedisRace

  type Field = (Key, PeerID)

  /** A run with all its states: ss[n] is the one before step n. */
  ghost predicate Run(guarded: bool, ss: seq<State>, trace: Trace) {
    |ss| == |trace| + 1 && forall n :: 0 <= n < |trace| ==> Steps(guarded, ss, trace, n)
  }

  ghost predicate Steps(guarded: bool, ss: seq<State>, trace: Trace, n: int)
    requires 0 <= n < |trace| && n + 1 < |ss|
  {
    ss[n + 1] == Step(guarded, ss[n], trace[n].0, trace[n].1)
  }

  /** These are the states of the protocol. */
  lemma {:induction false} RunIsExec(guarded: bool, ss: seq<State>, trace: Trace, n: nat)
    requires Run(guarded, ss, trace) && n <= |trace|
    ensures ss[n] == Exec(guarded, ss[0], trace[..n])
  {
    if n > 0 {
      RunIsExec(guarded, ss, trace, n - 1);
      assert Steps(guarded, ss, trace, n - 1) && trace[..n][..n - 1] == trace[..n - 1];
    }
  }

  /** A putPeer or GraduateLeecher of this peer. */
  predicate Writes(s: State, pid: nat, a: Action, g: Field) {
    pid < |s.procs| && s.procs[pid].Idle? && Names(a, g)
  }

  predicate Names(a: Action, g: Field) {
    || (a.Put? && g == (Peers(a.infoHash, a.seeder, a.v6), a.peer))
    || (a.Graduate? && g == (Peers(a.infoHash, true, a.v6), a.peer))
  }

  /** A step writes a field, or at most removes it. */
  lemma StepOnField(guarded: bool, s: State, pid: nat, a: Action, g: Field)
    ensures var s' := Step(guarded, s, pid, a);
            if Writes(s, pid, a, g) then g in s'.db.fields && s'.db.fields[g] == a.now
            else g in s'.db.fields ==> g in s.db.fields && s'.db.fields[g] == s.db.fields[g]
  {
    if pid < |s.procs| && !a.Crash? && !a.Fail? {
      var p := s.procs[pid];
      if p.At? && p.key.Peers? {
        GCOnField(guarded, s.db, p, a, g);
      } else if !p.At? {
        ClientOnField(s.db, p, a, g);
      }
    }
  }

  lemma ClientOnField(db: Redis, p: Proc, a: Action, g: Field)
    requires !p.At?
    ensures var db' := StepClient(db, p, a).0;
            if p.Idle? && Names(a, g) then g in db'.fields && db'.fields[g] == a.now
            else g in db'.fields ==> g in db.fields && db'.fields[g] == db.fields[g]
  {
  }

  lemma GCOnField(guarded: bool, db: Redis, p: Proc, a: Action, g: Field)
    requires p.At? && p.key.Peers?
    ensures var db' := StepGC(guarded, db, p, a).0; g in db'.fields ==> g in db.fields && db'.fields[g] == db.fields[g]
  {
    if p.phase.Expired? && a.HDelAll? { HDelManyFields(db, p.key, p.phase.dead); }
  }

  /** Step m put the field, and it has stayed as it was put up to step n. */
  ghost predicate PutAndKept(ss: seq<State>, trace: Trace, g: Field, m: int, n: int)
    requires |ss| == |trace| + 1 && 0 <= m < n <= |trace|
  {
    Writes(ss[m], trace[m].0, trace[m].1, g) && forall j :: m < j < n ==> Kept(ss, trace, g, j)
  }

  /** So it was, with a time later than the cutoff. */
  ghost predicate Refreshed(ss: seq<State>, trace: Trace, g: Field, cutoff: int, m: int, n: int)
    requires |ss| == |trace| + 1 && 0 <= m < n <= |trace|
  {
    PutAndKept(ss, trace, g, m, n) && trace[m].1.now > cutoff
  }

  ghost predicate Kept(ss: seq<State>, trace: Trace, g: Field, j: int)
    requires |ss| == |trace| + 1 && 0 <= j < |trace|
  {
    !Writes(ss[j], trace[j].0, trace[j].1, g) && g in ss[j + 1].db.fields
  }

  lemma {:induction false} KeptTime(guarded: bool, ss: seq<State>, trace: Trace, g: Field, m: int, n: int)
    requires Run(guarded, ss, trace) && 0 <= m < n <= |trace| && PutAndKept(ss, trace, g, m, n)
    ensures g in ss[n].db.fields && ss[n].db.fields[g] == trace[m].1.now
    decreases n
  {
    assert Steps(guarded, ss, trace, n - 1);
    StepOnField(guarded, ss[n - 1], trace[n - 1].0, trace[n - 1].1, g);
    if m < n - 1 {
      assert Kept(ss, trace, g, n - 1);
      KeptTime(guarded, ss, trace, g, m, n - 1);
    }
  }

  /** A field that is there, and was not there before or had another time, was put in between. */
  lemma {:induction false} WasPut(guarded: bool, ss: seq<State>, trace: Trace, g: Field, k: int, n: int)
    requires Run(guarded, ss, trace) && 0 <= k <= n <= |trace| && g in ss[n].db.fields
    requires g in ss[k].db.fields ==> ss[k].db.fields[g] != ss[n].db.fields[g]
    ensures exists m :: k <= m < n && PutAndKept(ss, trace, g, m, n)
    decreases n
  {
    assert k < n && Steps(guarded, ss, trace, n - 1);
    StepOnField(guarded, ss[n - 1], trace[n - 1].0, trace[n - 1].1, g);
    if Writes(ss[n - 1], trace[n - 1].0, trace[n - 1].1, g) {
      assert PutAndKept(ss, trace, g, n - 1, n);
    } else {
      WasPut(guarded, ss, trace, g, k, n - 1);
      var m :| k <= m < n - 1 && PutAndKept(ss, trace, g, m, n - 1);
      assert Kept(ss, trace, g, n - 1);
      assert PutAndKept(ss, trace, g, m, n);
    }
  }

  /** When something holds that did not hold at first, it has held since some step. */
  lemma {:induction false} HeldSince(holds: seq<bool>, n: nat)
    requires n < |holds| && !holds[0] && holds[n]
    ensures exists k :: 0 <= k < n && !holds[k] && forall j :: k < j <= n ==> holds[j]
  {
    if holds[n - 1] {
      HeldSince(holds, n - 1);
      var k :| 0 <= k < n - 1 && !holds[k] && forall j :: k < j <= n - 1 ==> holds[j];
      assert forall j :: k < j <= n ==> holds[j];
    } else {
      assert forall j :: n - 1 < j <= n ==> holds[j];
    }
  }

  lemma {:induction false} SameProcesses(guarded: bool, ss: seq<State>, trace: Trace, n: nat)
    requires Run(guarded, ss, trace) && n <= |trace|
    ensures |ss[n].procs| == |ss[0].procs|
  {
    if n > 0 {
      SameProcesses(guarded, ss, trace, n - 1);
      assert Steps(guarded, ss, trace, n - 1);
    }
  }

  // ------------------------------------------------------------------- gc's list

  /** The pass has this peer on its list of expired ones. */
  predicate OnList(p: Proc, g: Field) {
    && p.At? && p.key == g.0
    && ((p.phase.Expired? && g.1 in p.phase.dead) || (p.phase.OneByOne? && g.1 in p.phase.dead))
  }

  /** A peer gets on the list by a Fetch that finds it expired. */
  lemma ListedWhenExpired(guarded: bool, db: Redis, p: Proc, a: Action, g: Field)
    requires !OnList(p, g) && OnList(StepProc(guarded, db, p, a).1, g)
    ensures var (db', p') := StepProc(guarded, db, p, a);
            db' == db && g in db.fields && db.fields[g] <= p'.cutoff
  {
  }

  /** A command of gc that deletes a peer on its list. */
  predicate Deletes(p: Proc, a: Action, g: Field) {
    && OnList(p, g) && p.key.Peers?
    && ((p.phase.Expired? && a.HDelAll?) || (p.phase.OneByOne? && a.HDelOne? && p.phase.dead[0] == g.1))
  }

  lemma DeletedField(guarded: bool, db: Redis, p: Proc, a: Action, g: Field)
    requires Deletes(p, a, g) && !a.Fail? && !a.Crash?
    ensures g !in StepProc(guarded, db, p, a).0.fields
  {
    if p.phase.Expired? { HDelManyFields(db, p.key, p.phase.dead); }
  }

  predicate OnListAt(ss: seq<State>, pid: nat, g: Field, j: int)
    requires 0 <= j < |ss|
  {
    pid < |ss[j].procs| && OnList(ss[j].procs[pid], g)
  }

  /** Since step k the pass has had the peer on its list. */
  predicate OnListSince(ss: seq<State>, pid: nat, g: Field, k: int, n: int)
    requires 0 <= k < n < |ss|
  {
    pid < |ss[k].procs| && !OnListAt(ss, pid, g, k) && forall j :: k < j <= n ==> OnListAt(ss, pid, g, j)
  }

  /**
   In every interleaved run, a gc command that deletes a peer deletes a fresh one exactly when
   the peer was put again after the pass had read its time.
   */
  lemma FreshDeletedIff(guarded: bool, ss: seq<State>, trace: Trace, pid: nat, g: Field, k: int, n: int)
    requires Run(guarded, ss, trace) && 0 <= k < n < |trace| && OnListSince(ss, pid, g, k, n) && trace[n].0 == pid
    requires OnListAt(ss, pid, g, n) && Deletes(ss[n].procs[pid], trace[n].1, g) && g in ss[n].db.fields
    ensures var cutoff := ss[n].procs[pid].cutoff;
            && g !in ss[n + 1].db.fields
            && (ss[n].db.fields[g] > cutoff <==> exists m :: k < m < n && Refreshed(ss, trace, g, cutoff, m, n))
  {
    var cutoff := ss[n].procs[pid].cutoff;
    assert Steps(guarded, ss, trace, n);
    DeletedField(guarded, ss[n].db, ss[n].procs[pid], trace[n].1, g);
    ExpiredWhenListed(guarded, ss, trace, pid, g, k, n);
    if ss[n].db.fields[g] > cutoff {
      WasPut(guarded, ss, trace, g, k + 1, n);
      var m :| k + 1 <= m < n && PutAndKept(ss, trace, g, m, n);
      KeptTime(guarded, ss, trace, g, m, n);
      assert Refreshed(ss, trace, g, cutoff, m, n);
    }
    if m :| k < m < n && Refreshed(ss, trace, g, cutoff, m, n) {
      KeptTime(guarded, ss, trace, g, m, n);
    }
  }

  /** In a run from the start there is such a step k: the pass has read the time at some point. */
  lemma ReadAtSomePoint(guarded: bool, ss: seq<State>, trace: Trace, pid: nat, g: Field, n: nat)
    requires Run(guarded, ss, trace) && Initial(ss[0]) && n <= |trace| && OnListAt(ss, pid, g, n)
    ensures exists k :: 0 <= k < n && OnListSince(ss, pid, g, k, n)
  {
    SameProcesses(guarded, ss, trace, n);
    var holds := seq(|ss|, j requires 0 <= j < |ss| => OnListAt(ss, pid, g, j));
    HeldSince(holds, n);
    var k :| 0 <= k < n && !holds[k] && forall j :: k < j <= n ==> holds[j];
    SameProcesses(guarded, ss, trace, k);
    forall j | k < j <= n ensures OnListAt(ss, pid, g, j) { assert holds[j]; }
    assert OnListSince(ss, pid, g, k, n);
  }

  /** So in every run from the start, whichever peer a command of gc deletes. */
  lemma FreshDeletedFromStart(guarded: bool, ss: seq<State>, trace: Trace, pid: nat, g: Field, n: nat)
    requires Run(guarded, ss, trace) && Initial(ss[0]) && n < |trace| && trace[n].0 == pid
    requires OnListAt(ss, pid, g, n) && Deletes(ss[n].procs[pid], trace[n].1, g) && g in ss[n].db.fields
    ensures g !in ss[n + 1].db.fields
    ensures var cutoff := ss[n].procs[pid].cutoff;
            exists k :: 0 <= k < n && OnListSince(ss, pid, g, k, n)
                        && (ss[n].db.fields[g] > cutoff <==>
                          exists m :: k < m < n && Refreshed(ss, trace, g, cutoff, m, n))
  {
    ReadAtSomePoint(guarded, ss, trace, pid, g, n);
    var k :| 0 <= k < n && OnListSince(ss, pid, g, k, n);
    FreshDeletedIff(guarded, ss, trace, pid, g, k, n);
  }

  lemma ExpiredWhenListed(guarded: bool, ss: seq<State>, trace: Trace, pid: nat, g: Field, k: int, n: int)
    requires Run(guarded, ss, trace) && 0 <= k < n <= |trace| && OnListSince(ss, pid, g, k, n)
    ensures OnListAt(ss, pid, g, n) && g in ss[k + 1].db.fields && ss[k + 1].db.fields[g] <= ss[n].procs[pid].cutoff
  {
    assert Steps(guarded, ss, trace, k) && OnListAt(ss, pid, g, k + 1);
    ListedWhenExpired(guarded, ss[k].db, ss[k].procs[pid], trace[k].1, g);
    SameCutoff(guarded, ss, trace, pid, g, k, n);
  }

  lemma {:induction false} SameCutoff(guarded: bool, ss: seq<State>, trace: Trace, pid: nat, g: Field, k: int, n: int)
    requires Run(guarded, ss, trace) && 0 <= k < n <= |trace| && OnListSince(ss, pid, g, k, n)
    ensures OnListAt(ss, pid, g, k + 1) && OnListAt(ss, pid, g, n)
    ensures ss[n].procs[pid].cutoff == ss[k + 1].procs[pid].cutoff
    decreases n
  {
    assert OnListAt(ss, pid, g, n) && OnListAt(ss, pid, g, k + 1);
    if k + 1 < n {
      SameCutoff(guarded, ss, trace, pid, g, k, n - 1);
      assert Steps(guarded, ss, trace, n - 1);
      if trace[n - 1].0 == pid {
        CutoffKept(guarded, ss[n - 1].db, ss[n - 1].procs[pid], trace[n - 1].1, g);
      }
    }
  }

  lemma CutoffKept(guarded: bool, db: Redis, p: Proc, a: Action, g: Field)
    requires OnList(p, g) && OnList(StepProc(guarded, db, p, a).1, g)
    ensures StepProc(guarded, db, p, a).1.cutoff == p.cutoff
  {
  }

  // ------------------------------------------------------------ the race for the index

  /** The pass found this hash empty and is about to unlist it. */
  predicate FoundEmptyAt(ss: seq<State>, pid: nat, key: Key, j: int)
    requires 0 <= j < |ss|
  {
    && pid < |ss[j].procs|
    && var p := ss[j].procs[pid]; p.At? && p.key == key && p.phase.FoundEmpty?
  }

  predicate FoundEmptySince(ss: seq<State>, pid: nat, key: Key, k: int, n: int)
    requires 0 <= k < n < |ss|
  {
    pid < |ss[k].procs| && !FoundEmptyAt(ss, pid, key, k) && forall j :: k < j <= n ==> FoundEmptyAt(ss, pid, key, j)
  }

  lemma EmptyWhenFound(guarded: bool, db: Redis, p: Proc, a: Action, key: Key)
    requires !(p.At? && p.key == key && p.phase.FoundEmpty?)
    requires var p' := StepProc(guarded, db, p, a).1; p'.At? && p'.key == key && p'.phase.FoundEmpty?
    ensures StepProc(guarded, db, p, a).0 == db && EmptyHash(db, key)
  {
    if p.At? && p.key.Peers? && !a.Crash? && !a.Fail? { EmptyWhenCounted(guarded, db, p, a, key); }
  }

  lemma EmptyWhenCounted(guarded: bool, db: Redis, p: Proc, a: Action, key: Key)
    requires p.At? && p.key.Peers? && !(p.key == key && p.phase.FoundEmpty?)
    requires var p' := StepGC(guarded, db, p, a).1; p'.At? && p'.key == key && p'.phase.FoundEmpty?
    ensures StepGC(guarded, db, p, a).0 == db && EmptyHash(db, key)
  {
  }

  /** A peer of this hash was put after the pass had found it empty, and is still there. */
  ghost predicate Joined(ss: seq<State>, trace: Trace, key: Key, k: int, n: int)
    requires |ss| == |trace| + 1 && 0 <= k < n <= |trace|
  {
    exists peer, m :: k < m < n && PutAndKept(ss, trace, (key, peer), m, n)
  }

  /** A hash that a pass found empty is not empty exactly when a peer has joined its swarm since. */
  lemma FilledIffJoined(guarded: bool, ss: seq<State>, trace: Trace, pid: nat, key: Key, k: int, n: int)
    requires Run(guarded, ss, trace) && 0 <= k < n <= |trace| && FoundEmptySince(ss, pid, key, k, n)
    ensures !EmptyHash(ss[n].db, key) <==> Joined(ss, trace, key, k, n)
  {
    assert Steps(guarded, ss, trace, k) && FoundEmptyAt(ss, pid, key, k + 1);
    EmptyWhenFound(guarded, ss[k].db, ss[k].procs[pid], trace[k].1, key);
    if g :| g in ss[n].db.fields && g.0 == key {
      assert g == (key, g.1) && g !in ss[k + 1].db.fields;
      WasPut(guarded, ss, trace, g, k + 1, n);
    }
    if peer, m :| k < m < n && PutAndKept(ss, trace, (key, peer), m, n) {
      KeptTime(guarded, ss, trace, (key, peer), m, n);
    }
  }

  lemma FoundAtSomePoint(guarded: bool, ss: seq<State>, trace: Trace, pid: nat, key: Key, n: nat)
    requires Run(guarded, ss, trace) && Initial(ss[0]) && n <= |trace| && FoundEmptyAt(ss, pid, key, n)
    ensures exists k :: 0 <= k < n && FoundEmptySince(ss, pid, key, k, n)
  {
    SameProcesses(guarded, ss, trace, n);
    var holds := seq(|ss|, j requires 0 <= j < |ss| => FoundEmptyAt(ss, pid, key, j));
    HeldSince(holds, n);
    var k :| 0 <= k < n && !holds[k] && forall j :: k < j <= n ==> holds[j];
    SameProcesses(guarded, ss, trace, k);
    forall j | k < j <= n ensures FoundEmptyAt(ss, pid, key, j) { assert holds[j]; }
    assert FoundEmptySince(ss, pid, key, k, n);
  }

  /** Step n is an SREM of a hash that a peer has joined since the pass found it empty. */
  ghost predicate Overtaken(ss: seq<State>, trace: Trace, n: int)
    requires |ss| == |trace| + 1 && 0 <= n < |trace|
  {
    && trace[n].1.SRem? && trace[n].0 < |ss[n].procs|
    && var p := ss[n].procs[trace[n].0];
       && p.At? && p.key.Peers?
       && exists k :: 0 <= k < n && FoundEmptySince(ss, trace[n].0, p.key, k, n) && Joined(ss, trace, p.key, k, n)
  }

  /** The races are exactly the overtaken steps. */
  lemma RaceIffOvertaken(guarded: bool, ss: seq<State>, trace: Trace, n: nat)
    requires Run(guarded, ss, trace) && Initial(ss[0]) && n < |trace|
    ensures Race(ss[n], trace[n].0, trace[n].1) <==> Overtaken(ss, trace, n)
  {
    var (pid, a) := trace[n];
    if Race(ss[n], pid, a) {
      var key := ss[n].procs[pid].key;
      FoundAtSomePoint(guarded, ss, trace, pid, key, n);
      var k :| 0 <= k < n && FoundEmptySince(ss, pid, key, k, n);
      FilledIffJoined(guarded, ss, trace, pid, key, k, n);
    }
    if Overtaken(ss, trace, n) {
      var key := ss[n].procs[pid].key;
      var k :| 0 <= k < n && FoundEmptySince(ss, pid, key, k, n) && Joined(ss, trace, key, k, n);
      FilledIffJoined(guarded, ss, trace, pid, key, k, n);
      assert FoundEmptyAt(ss, pid, key, n);
    }
  }

  lemma {:induction false} RaceFreeSteps(s: State, ss: seq<State>, trace: Trace, n: nat)
    requires Run(false, ss, trace) && ss[0] == s && n <= |trace|
    ensures RaceFree(s, trace[..n]) <==> forall i :: 0 <= i < n ==> !Race(ss[i], trace[i].0, trace[i].1)
  {
    if n > 0 {
      RaceFreeSteps(s, ss, trace, n - 1);
      RunIsExec(false, ss, trace, n - 1);
      assert trace[..n][..n - 1] == trace[..n - 1] && trace[..n][n - 1] == trace[n - 1];
    }
  }

  /** So the program as written keeps its index complete all along a run exactly when no SREM is overtaken. */
  lemma ListedIffNotOvertaken(ss: seq<State>, trace: Trace)
    requires Run(false, ss, trace) && Initial(ss[0])
    ensures (forall n :: 0 <= n <= |trace| ==> Listed(ss[n].db)) <==>
            (forall n :: 0 <= n < |trace| ==> !Overtaken(ss, trace, n))
  {
    UnguardedRunsListedIffRaceFree(ss[0], trace);
    RaceFreeSteps(ss[0], ss, trace, |trace|);
    assert trace[..|trace|] == trace;
    forall n | 0 <= n <= |trace| ensures ss[n] == Exec(false, ss[0], trace[..n]) { RunIsExec(false, ss, trace, n); }
    forall n | 0 <= n < |trace| ensures Race(ss[n], trace[n].0, trace[n].1) <==> Overtaken(ss, trace, n) {
      RaceIffOvertaken(false, ss, trace, n);
    }
  }

  // ---------------------------------------------------------------------- the run

  /** A peer expires, a pass reads its time, the peer announces itself, and the pass deletes it. */
  function LosingTrace(key: Key, peer: PeerID, t: int, cutoff: int): Trace
    requires key.Peers?
  {
    [(0, Put(key.infoHash, key.seeder, key.v6, peer, cutoff)), (1, StartGC(cutoff, [key])), (1, Fetch([peer])),
     (0, Put(key.infoHash, key.seeder, key.v6, peer, t)), (1, HDelAll)]
  }

  /** For every swarm, peer and time, with or without the guard on the index. */
  lemma FreshPeerLost(guarded: bool, key: Key, peer: PeerID, t: int, cutoff: int)
    requires key.Peers? && t > cutoff
    ensures var trace := LosingTrace(key, peer, t, cutoff);
            var before, after := Exec(guarded, EMPTY_STORE, trace[..4]), Exec(guarded, EMPTY_STORE, trace);
            && (key, peer) in before.db.fields && before.db.fields[(key, peer)] == t
            && (key, peer) !in after.db.fields
  {
    var trace := LosingTrace(key, peer, t, cutoff);
    var s1 := Step(guarded, EMPTY_STORE, 0, trace[0].1);
    var s2 := Step(guarded, s1, 1, trace[1].1);
    var s3 := PeerListed(guarded, key, peer, cutoff);
    var s4 := Step(guarded, s3, 0, trace[3].1);
    FiveSteps(guarded, trace, [EMPTY_STORE, s1, s2, s3, s4, Step(guarded, s4, 1, HDelAll)]);
    PeerDeleted(guarded, key, peer, t, cutoff, s3);
  }

  lemma FiveSteps(guarded: bool, trace: Trace, ss: seq<State>)
    requires |trace| == 5 && |ss| == 6
    requires Steps(guarded, ss, trace, 0) && Steps(guarded, ss, trace, 1) && Steps(guarded, ss, trace, 2)
    requires Steps(guarded, ss, trace, 3) && Steps(guarded, ss, trace, 4)
    ensures ss[4] == Exec(guarded, ss[0], trace[..4]) && ss[5] == Exec(guarded, ss[0], trace)
  {
    RunIsExec(guarded, ss, trace, 4);
    RunIsExec(guarded, ss, trace, 5);
    assert trace[..5] == trace;
  }

  lemma PeerListed(guarded: bool, key: Key, peer: PeerID, cutoff: int) returns (s3: State)
    requires key.Peers?
    ensures var s1 := Step(guarded, EMPTY_STORE, 0, Put(key.infoHash, key.seeder, key.v6, peer, cutoff));
            s3 == Step(guarded, Step(guarded, s1, 1, StartGC(cutoff, [key])), 1, Fetch([peer]))
    ensures s3.procs == [Idle, At(cutoff, [], key, Expired([peer]))]
  {
    var s1 := Step(guarded, EMPTY_STORE, 0, Put(key.infoHash, key.seeder, key.v6, peer, cutoff));
    assert s1.db.index == {key} && s1.db.fields == map[(key, peer) := cutoff];
    var s2 := Step(guarded, s1, 1, StartGC(cutoff, [key]));
    assert s2 == State(s1.db, [Idle, NextKey(cutoff, [key])]);
    assert Lists([peer], s2.db, key, cutoff) && [key][1..] == [];
    s3 := Step(guarded, s2, 1, Fetch([peer]));
    assert s3.procs[1] == At(cutoff, [], key, Expired([peer]));
  }

  lemma PeerDeleted(guarded: bool, key: Key, peer: PeerID, t: int, cutoff: int, s3: State)
    requires key.Peers? && s3.procs == [Idle, At(cutoff, [], key, Expired([peer]))]
    ensures var s4 := Step(guarded, s3, 0, Put(key.infoHash, key.seeder, key.v6, peer, t));
            && (key, peer) in s4.db.fields && s4.db.fields[(key, peer)] == t
            && (key, peer) !in Step(guarded, s4, 1, HDelAll).db.fields
  {
    var s4 := Step(guarded, s3, 0, Put(key.infoHash, key.seeder, key.v6, peer, t));
    assert s4.procs == s3.procs;
    DeletedField(guarded, s4.db, s4.procs[1], HDelAll, (key, peer));
  }
}
