/**
 A gc pass that no other process interrupts: whatever order Redis lists keys and peers in, and
 whether or not it takes many fields in one HDEL, every pass that ends collects exactly what it
 should, and every pass can end.
 */
module RedisPass {
  import opened RedisKeys
  import opened RedisProtocol
  import opened RedisIndex
  import opened RedisRace

  predicate Busy(p: Proc) { p.NextKey? || (p.At? && p.key.Peers?) }

  /** The keys a pass has still to deal with. */
  function Rest(p: Proc): set<Key>
    requires Busy(p)
  {
    (set k | k in p.todo) + if p.At? then {p.key} else {}
  }

  /** Is the pass still deleting from this key? */
  predicate Deleting(p: Proc, key: Key) { p.At? && p.key == key && (p.phase.Expired? || p.phase.OneByOne?) }

  /**
   What has become of a field: never invented, never lost while fresh or before its turn, gone
   when its key is through.
   */
  predicate FieldAt(db0: Redis, done: set<Key>, db: Redis, p: Proc, f: (Key, PeerID))
    requires Busy(p)
  {
    && (f in db.fields ==> f in db0.fields && db.fields[f] == db0.fields[f])
    && (f in db0.fields && (db0.fields[f] > p.cutoff || !(f.0 in done || (p.At? && f.0 == p.key))) ==> f in db.fields)
    && (f in db.fields && (f.0 in done || (p.At? && f.0 == p.key)) && !Deleting(p, f.0) ==> db.fields[f] > p.cutoff)
  }

  /** A key leaves the index exactly when it is through and its hash is empty. */
  ghost predicate IndexAt(db0: Redis, done: set<Key>, db: Redis, k: Key) {
    k in db.index <==> k in db0.index && !(k in done && k.Peers? && EmptyHash(db, k))
  }

  ghost predicate PhaseHolds(db: Redis, p: Proc) {
    p.At? ==>
      match p.phase
      case Expired(dead) => Lists(dead, db, p.key, p.cutoff)
      case OneByOne(dead, _) => Lists(dead, db, p.key, p.cutoff)
      case Watching(v) => v == Version(db, p.key)
      case FoundEmpty(v) => v == Version(db, p.key) && EmptyHash(db, p.key)
      case _ => true
  }

  ghost predicate Passing(db0: Redis, done: set<Key>, db: Redis, p: Proc) {
    && Busy(p) && PhaseHolds(db, p) && (p.At? && Deleting(p, p.key) ==> p.key !in done)
    && (forall f :: FieldAt(db0, done, db, p, f))
    && (forall k :: IndexAt(db0, done, db, k))
  }

  /** The keys that are through after a step. */
  function NextDone(done: set<Key>, p: Proc, p': Proc): set<Key> {
    if p.At? && p'.NextKey? then done + {p.key}
    else if p.NextKey? && p'.NextKey? && p.todo != [] && p' != p then done + {p.todo[0]}
    else done
  }

  lemma FetchKeeps(guarded: bool, db0: Redis, done: set<Key>, db: Redis, p: Proc, a: Action)
    requires Passing(db0, done, db, p) && p.NextKey? && !a.Fail? && !a.Crash? && p.todo != []
    requires forall f :: f in db0.fields ==> f.0.Peers?
    ensures var (db', p') := StepProc(guarded, db, p, a);
            && Passing(db0, NextDone(done, p, p'), db', p') && p'.cutoff == p.cutoff
            && NextDone(done, p, p') + Rest(p') == done + Rest(p)
  {
    var (db', p') := StepProc(guarded, db, p, a);
    var done' := NextDone(done, p, p');
    assert p.todo == [p.todo[0]] + p.todo[1..];
    forall f: (Key, PeerID) ensures FieldAt(db0, done', db', p', f) { assert FieldAt(db0, done, db, p, f); }
    forall k: Key ensures IndexAt(db0, done', db', k) { assert IndexAt(db0, done, db, k); }
    if p'.At? && p'.phase.Expired? {
      var q := p'.phase.dead[0];
      assert q in p'.phase.dead && FieldAt(db0, done, db, p, (p'.key, q));
    }
  }

  ghost predicate Keeps(db0: Redis, done: set<Key>, p: Proc, next: (Redis, Proc)) {
    var done' := NextDone(done, p, next.1);
    && Passing(db0, done', next.0, next.1) && Busy(p) && next.1.cutoff == p.cutoff
    && done' + Rest(next.1) == done + Rest(p)
  }

  /** The expired peers go, all at once */
  lemma HDelAllKeeps(guarded: bool, db0: Redis, done: set<Key>, db: Redis, p: Proc)
    requires Passing(db0, done, db, p) && p.At? && p.phase.Expired?
    ensures Keeps(db0, done, p, StepGC(guarded, db, p, HDelAll))
  {
    var (db', p') := StepGC(guarded, db, p, HDelAll);
    HDelManyFields(db, p.key, p.phase.dead);
    OnlyKeyShrinks(db0, done, db, p, db', p');
  }

  /** or one by one. */
  lemma HDelOneKeeps(guarded: bool, db0: Redis, done: set<Key>, db: Redis, p: Proc)
    requires Passing(db0, done, db, p) && p.At? && p.phase.OneByOne? && p.phase.dead != []
    ensures Keeps(db0, done, p, StepGC(guarded, db, p, HDelOne))
  {
    var (db', p') := StepGC(guarded, db, p, HDelOne);
    var dead := p.phase.dead;
    assert dead == [dead[0]] + dead[1..];
    assert forall q :: q in dead[1..] <==> q in dead && q != dead[0];
    OnlyKeyShrinks(db0, done, db, p, db', p');
  }

  /** Deleting expired peers of the current key keeps the pass on its way. */
  lemma OnlyKeyShrinks(db0: Redis, done: set<Key>, db: Redis, p: Proc, db': Redis, p': Proc)
    requires Passing(db0, done, db, p) && p.At? && Deleting(p, p.key)
    requires p'.At? && p'.key == p.key && p'.todo == p.todo && p'.cutoff == p.cutoff && PhaseHolds(db', p')
    requires db'.index == db.index
    requires forall f :: f in db'.fields ==> f in db.fields && db'.fields[f] == db.fields[f]
    requires forall f :: f in db.fields && (f.0 != p.key || db.fields[f] > p.cutoff) ==> f in db'.fields
    requires !Deleting(p', p.key) ==> forall f :: f in db'.fields && f.0 == p.key ==> db'.fields[f] > p.cutoff
    ensures Keeps(db0, done, p, (db', p'))
  {
    forall f: (Key, PeerID) ensures FieldAt(db0, done, db', p', f) { assert FieldAt(db0, done, db, p, f); }
    forall k: Key ensures IndexAt(db0, done, db', k) {
      assert IndexAt(db0, done, db, k);
      if k in done {
        assert EmptyHash(db, k) <==> EmptyHash(db', k);
      }
    }
  }

  /** The steps after the deletions: nothing but the index changes, and that only when the hash is empty. */
  lemma CleanupKeeps(guarded: bool, db0: Redis, done: set<Key>, db: Redis, p: Proc, a: Action)
    requires Passing(db0, done, db, p) && p.At? && !Deleting(p, p.key)
    ensures Keeps(db0, done, p, StepGC(guarded, db, p, a))
  {
    var (db', p') := StepGC(guarded, db, p, a);
    var done' := NextDone(done, p, p');
    assert db'.fields == db.fields;
    forall f: (Key, PeerID) ensures FieldAt(db0, done', db', p', f) { assert FieldAt(db0, done, db, p, f); }
    forall k: Key ensures IndexAt(db0, done', db', k) {
      assert IndexAt(db0, done, db, k) && IndexAt(db0, done, db, p.key);
      assert EmptyHash(db, k) <==> EmptyHash(db', k);
    }
  }

  lemma StepKeeps(guarded: bool, db0: Redis, done: set<Key>, db: Redis, p: Proc, a: Action)
    requires Passing(db0, done, db, p) && !a.Fail? && !a.Crash? && (p.NextKey? ==> p.todo != [])
    requires forall f :: f in db0.fields ==> f.0.Peers?
    ensures Keeps(db0, done, p, StepProc(guarded, db, p, a))
  {
    if p.NextKey? {
      FetchKeeps(guarded, db0, done, db, p, a);
    } else if !Deleting(p, p.key) {
      CleanupKeeps(guarded, db0, done, db, p, a);
    } else if p.phase.Expired? && a.HDelAll? {
      HDelAllKeeps(guarded, db0, done, db, p);
    } else if p.phase.OneByOne? && a.HDelOne? && p.phase.dead != [] {
      HDelOneKeeps(guarded, db0, done, db, p);
    } else {
      RefusedKeeps(guarded, db0, done, db, p, a);
    }
  }

  /** An HDEL that is refused, or a step the pass is not ready for. */
  lemma RefusedKeeps(guarded: bool, db0: Redis, done: set<Key>, db: Redis, p: Proc, a: Action)
    requires Passing(db0, done, db, p) && p.At? && Deleting(p, p.key)
    requires !(p.phase.Expired? && a.HDelAll?) && !(p.phase.OneByOne? && a.HDelOne? && p.phase.dead != [])
    ensures Keeps(db0, done, p, StepGC(guarded, db, p, a))
  {
    var (db', p') := StepGC(guarded, db, p, a);
    OnlyKeyShrinks(db0, done, db, p, db', p');
  }

  // ------------------------------------------------------------------ whole passes

  /** A pass is over when it is idle again. */
  ghost function Pass(guarded: bool, db: Redis, p: Proc, actions: seq<Action>): (Redis, Proc)
    decreases actions
  {
    if actions == [] || p.Idle? then (db, p)
    else
      var (db', p') := StepProc(guarded, db, p, actions[0]);
      Pass(guarded, db', p', actions[1..])
  }

  predicate Undisturbed(actions: seq<Action>) {
    forall i :: 0 <= i < |actions| ==> !actions[i].Fail? && !actions[i].Crash?
  }

  /** The listed hashes hold exactly their fresh peers, each with its time, and the empty ones are unlisted. */
  ghost predicate Collected(db0: Redis, listed: set<Key>, cutoff: int, db: Redis) {
    && (forall f :: f in db.fields <==> f in db0.fields && !(f.0 in listed && db0.fields[f] <= cutoff))
    && (forall f :: f in db.fields ==> db.fields[f] == db0.fields[f])
    && (forall k :: k in db.index <==> k in db0.index && !(k in listed && k.Peers? && EmptyHash(db, k)))
  }

  lemma {:induction false} PassCollects(guarded: bool, db0: Redis, done: set<Key>, db: Redis, p: Proc,
                                        actions: seq<Action>)
    requires Passing(db0, done, db, p) && Undisturbed(actions)
    requires forall f :: f in db0.fields ==> f.0.Peers?
    ensures var (db', p') := Pass(guarded, db, p, actions);
            p'.Idle? ==> Collected(db0, done + Rest(p), p.cutoff, db')
    decreases actions
  {
    if actions != [] {
      var (db', p') := StepProc(guarded, db, p, actions[0]);
      if p.NextKey? && p.todo == [] {
        LastStep(guarded, db0, done, db, p, actions[0]);
        assert Undisturbed(actions[1..]);
        if !p'.Idle? {
          PassCollects(guarded, db0, done, db, p, actions[1..]);
        }
      } else {
        StepKeeps(guarded, db0, done, db, p, actions[0]);
        PassCollects(guarded, db0, NextDone(done, p, p'), db', p', actions[1..]);
      }
    }
  }

  lemma LastStep(guarded: bool, db0: Redis, done: set<Key>, db: Redis, p: Proc, a: Action)
    requires Passing(db0, done, db, p) && p.NextKey? && p.todo == [] && !a.Fail? && !a.Crash?
    ensures var (db', p') := StepProc(guarded, db, p, a);
            db' == db && (p'.Idle? || p' == p) && Collected(db0, done + Rest(p), p.cutoff, db)
  {
    assert done + Rest(p) == done;
    forall f: (Key, PeerID)
      ensures (f in db.fields <==> f in db0.fields && !(f.0 in done && db0.fields[f] <= p.cutoff))
              && (f in db.fields ==> db.fields[f] == db0.fields[f])
    {
      assert FieldAt(db0, done, db, p, f);
    }
    forall k: Key ensures k in db.index <==> k in db0.index && !(k in done && k.Peers? && EmptyHash(db, k)) {
      assert IndexAt(db0, done, db, k);
    }
  }

  /** A pass is what its process does on its own, */
  lemma {:induction false} PassIsSolo(guarded: bool, db: Redis, p: Proc, actions: seq<Action>)
    ensures exists n :: 0 <= n <= |actions| && Solo(guarded, db, p, actions[..n]) == Pass(guarded, db, p, actions)
    decreases actions
  {
    if actions == [] || p.Idle? {
      assert actions[..0] == [] && Solo(guarded, db, p, actions[..0]) == (db, p);
    } else {
      var (db', p') := StepProc(guarded, db, p, actions[0]);
      PassIsSolo(guarded, db', p', actions[1..]);
      var n :| 0 <= n <= |actions[1..]| && Solo(guarded, db', p', actions[1..][..n]) ==
          Pass(guarded, db', p', actions[1..]);
      assert actions[..n + 1][1..] == actions[1..][..n] && actions[..n + 1][0] == actions[0];
      assert Solo(guarded, db, p, actions[..n + 1]) == Solo(guarded, db', p', actions[1..][..n]);
    }
  }

  /** The trace of a pass: its start and the first n of its commands. */
  function PassTrace(pid: nat, cutoff: int, members: seq<Key>, actions: seq<Action>, n: nat): Trace
    requires n <= |actions|
  {
    TraceOf(pid, [StartGC(cutoff, members)] + actions[..n])
  }

  /** and so a run of the protocol in which no other process moves. */
  lemma PassIsExec(guarded: bool, s: State, pid: nat, cutoff: int, members: seq<Key>, actions: seq<Action>)
    requires pid < |s.procs| && s.procs[pid] == Idle && forall k :: k in members <==> k in s.db.index
    ensures var (db, p) := Pass(guarded, s.db, NextKey(cutoff, members), actions);
            exists n :: 0 <= n <= |actions|
                        && Exec(guarded, s, PassTrace(pid, cutoff, members, actions, n)) == State(db, s.procs[pid := p])
  {
    var start, p := StartGC(cutoff, members), NextKey(cutoff, members);
    PassIsSolo(guarded, s.db, p, actions);
    var n :| 0 <= n <= |actions| && Solo(guarded, s.db, p, actions[..n]) == Pass(guarded, s.db, p, actions);
    assert StepProc(guarded, s.db, Idle, start) == (s.db, p);
    SoloFirst(guarded, s.db, Idle, start, actions[..n]);
    SoloIsExec(guarded, s, pid, [start] + actions[..n]);
    var (db, p') := Pass(guarded, s.db, p, actions);
    assert Exec(guarded, s, PassTrace(pid, cutoff, members, actions, n)) == State(db, s.procs[pid := p']);
  }

  ghost function Fresh(db: Redis, cutoff: int): map<(Key, PeerID), int> {
    map f | f in db.fields && db.fields[f] > cutoff :: db.fields[f]
  }

  /**
   From a state whose index is complete, every pass that ends leaves exactly the peers later than
   the cutoff, each with its time, and exactly the non-empty hashes (and foreign records) in CHI_I.
   */
  lemma EveryPassCollects(guarded: bool, db: Redis, cutoff: int, members: seq<Key>, actions: seq<Action>)
    requires Listed(db) && KeyedByPeers(db) && Undisturbed(actions)
    requires forall k :: k in members <==> k in db.index
    ensures var (db', p') := Pass(guarded, db, NextKey(cutoff, members), actions);
            p'.Idle? ==> Cleaned(db, cutoff, db')
  {
    var p := NextKey(cutoff, members);
    StartsPassing(db, p);
    PassCollects(guarded, db, {}, db, p, actions);
    var (db', p') := Pass(guarded, db, p, actions);
    if p'.Idle? {
      assert {} + Rest(p) == db.index;
      CollectedAll(db, cutoff, db');
    }
  }

  ghost predicate Cleaned(db: Redis, cutoff: int, db': Redis) {
    && db'.fields == Fresh(db, cutoff) && Listed(db')
    && forall k :: k in db'.index <==> k in db.index && (k.Peers? ==> !EmptyHash(db', k))
  }

  lemma StartsPassing(db: Redis, p: Proc)
    requires p.NextKey?
    ensures Passing(db, {}, db, p)
  {
    assert forall f :: FieldAt(db, {}, db, p, f);
    assert forall k :: IndexAt(db, {}, db, k);
  }

  lemma CollectedAll(db: Redis, cutoff: int, db': Redis)
    requires Listed(db) && KeyedByPeers(db) && Collected(db, db.index, cutoff, db')
    ensures Cleaned(db, cutoff, db')
  {
    assert forall f :: f in db'.fields ==> f.0 in db.index && f.0.Peers?;
    assert db'.fields == Fresh(db, cutoff);
  }

  // ------------------------------------------------------------- reachable states

  /** Every field belongs to a swarm: nothing else is ever written. */
  ghost predicate KeyedByPeers(db: Redis) { forall f :: f in db.fields ==> f.0.Peers? }

  lemma StepKeyed(guarded: bool, db: Redis, p: Proc, a: Action)
    requires KeyedByPeers(db)
    ensures KeyedByPeers(StepProc(guarded, db, p, a).0)
  {
    if p.At? && p.key.Peers? && p.phase.Expired? && a.HDelAll? {
      HDelManyFields(db, p.key, p.phase.dead);
    }
  }

  lemma {:induction false} RunsKeyed(guarded: bool, s: State, trace: Trace)
    requires Initial(s)
    ensures KeyedByPeers(Exec(guarded, s, trace).db)
  {
    if trace != [] {
      var (pid, a) := trace[|trace| - 1];
      RunsKeyed(guarded, s, trace[..|trace| - 1]);
      var mid := Exec(guarded, s, trace[..|trace| - 1]);
      if pid < |mid.procs| { StepKeyed(guarded, mid.db, mid.procs[pid], a); }
    }
  }

  /**
   After every interleaved run of the guarded protocol, a gc pass of an idle process that nobody
   interrupts, continued as a run of the protocol, leaves exactly the fresh peers and a complete
   index when it ends.
   */
  lemma GuardedPassCollects(s: State, trace: Trace, pid: nat, cutoff: int, members: seq<Key>, actions: seq<Action>)
    requires Initial(s) && Undisturbed(actions)
    requires var mid := Exec(true, s, trace);
             pid < |mid.procs| && mid.procs[pid] == Idle && forall k :: k in members <==> k in mid.db.index
    ensures var mid := Exec(true, s, trace);
            var (db, p) := Pass(true, mid.db, NextKey(cutoff, members), actions);
            && (p.Idle? ==> Cleaned(mid.db, cutoff, db))
            && exists n :: 0 <= n <= |actions|
                           && Exec(true, s, trace + PassTrace(pid, cutoff, members, actions, n)) ==
                             State(db, mid.procs[pid := p])
  {
    GuardedRunsStayListed(s, trace);
    PassAfter(true, s, trace, pid, cutoff, members, actions);
  }

  /** As written, it does so after every run without a race. */
  lemma RaceFreePassCollects(s: State, trace: Trace, pid: nat, cutoff: int, members: seq<Key>, actions: seq<Action>)
    requires Initial(s) && RaceFree(s, trace) && Undisturbed(actions)
    requires var mid := Exec(false, s, trace);
             pid < |mid.procs| && mid.procs[pid] == Idle && forall k :: k in members <==> k in mid.db.index
    ensures var mid := Exec(false, s, trace);
            var (db, p) := Pass(false, mid.db, NextKey(cutoff, members), actions);
            && (p.Idle? ==> Cleaned(mid.db, cutoff, db))
            && exists n :: 0 <= n <= |actions|
                           && Exec(false, s, trace + PassTrace(pid, cutoff, members, actions, n)) ==
                             State(db, mid.procs[pid := p])
  {
    UnguardedRunsListedIffRaceFree(s, trace);
    PassAfter(false, s, trace, pid, cutoff, members, actions);
  }

  lemma PassAfter(guarded: bool, s: State, trace: Trace, pid: nat, cutoff: int, members: seq<Key>, actions: seq<Action>)
    requires Initial(s) && Undisturbed(actions)
    requires var mid := Exec(guarded, s, trace);
             Listed(mid.db) && pid < |mid.procs| && mid.procs[pid] == Idle && forall k :: k in members <==>
                 k in mid.db.index
    ensures var mid := Exec(guarded, s, trace);
            var (db, p) := Pass(guarded, mid.db, NextKey(cutoff, members), actions);
            && (p.Idle? ==> Cleaned(mid.db, cutoff, db))
            && exists n :: 0 <= n <= |actions|
                           && Exec(guarded, s, trace + PassTrace(pid, cutoff, members, actions, n)) ==
                             State(db, mid.procs[pid := p])
  {
    var mid := Exec(guarded, s, trace);
    RunsKeyed(guarded, s, trace);
    EveryPassCollects(guarded, mid.db, cutoff, members, actions);
    PassIsExec(guarded, mid, pid, cutoff, members, actions);
    var (db, p) := Pass(guarded, mid.db, NextKey(cutoff, members), actions);
    var n :| 0 <= n <= |actions| && Exec(guarded, mid, PassTrace(pid, cutoff, members, actions, n)) ==
        State(db, mid.procs[pid := p]);
    ExecAppend(guarded, s, trace, PassTrace(pid, cutoff, members, actions, n));
    assert Exec(guarded, s, trace + PassTrace(pid, cutoff, members, actions, n)) == State(db, mid.procs[pid := p]);
  }

  // ----------------------------------------------------------------------- ending

  /** How far a pass is from moving on to its next key. */
  function Distance(p: Proc): nat {
    if !p.At? then 0
    else
      match p.phase
      case Expired(_) => 6
      case OneByOne(dead, _) => 5
      case OwesDecrBy(_) => 4
      case Cleanup => 3
      case Watching(_) => 2
      case FoundEmpty(_) => 1
  }

  /** The next command of a pass; a list of expired peers is any list of them. */
  ghost predicate NextAction(db: Redis, p: Proc, a: Action) {
    match p
    case NextKey(cutoff, todo) => a.Fetch? && (todo != [] && todo[0].Peers? ==> Lists(a.dead, db, todo[0], cutoff))
    case At(_, _, _, phase) =>
      (match phase
       case Expired(_) => a == HDelAll
       case OneByOne(_, _) => a == HDelOne
       case OwesDecrBy(_) => a == DecrBy
       case Cleanup => a == Watch
       case Watching(_) => a == HLen
       case FoundEmpty(_) => a == SRem)
    case _ => false
  }

  /** A pass never gets stuck: it can end from wherever it stands. */
  lemma {:induction false} PassEnds(guarded: bool, db: Redis, p: Proc)
    requires Busy(p) && (p.At? && p.phase.OneByOne? ==> p.phase.dead != [])
    ensures exists actions :: Undisturbed(actions) && Pass(guarded, db, p, actions).1.Idle?
    decreases |p.todo|, if p.At? then 1 else 0, Distance(p), if p.At? && p.phase.OneByOne? then |p.phase.dead| else 0
  {
    NextActionExists(db, p);
    var a :| NextAction(db, p, a);
    var (db', p') := StepProc(guarded, db, p, a);
    if p'.Idle? {
      assert [a][1..] == [] && Pass(guarded, db, p, [a]) == Pass(guarded, db', p', []);
      assert Undisturbed([a]);
    } else {
      PassEnds(guarded, db', p');
      var rest :| Undisturbed(rest) && Pass(guarded, db', p', rest).1.Idle?;
      var actions := [a] + rest;
      assert actions[1..] == rest && Undisturbed(actions);
      assert Pass(guarded, db, p, actions) == Pass(guarded, db', p', rest);
    }
  }

  lemma ListExpired(db: Redis, key: Key, cutoff: int) returns (dead: seq<PeerID>)
    ensures Lists(dead, db, key, cutoff)
  {
    var rest := set f | f in db.fields && f.0 == key && db.fields[f] <= cutoff :: f.1;
    assert forall q :: q in rest ==> (key, q) in db.fields && db.fields[(key, q)] <= cutoff;
    dead := [];
    while rest != {}
      invariant forall i, j :: 0 <= i < j < |dead| ==> dead[i] != dead[j]
      invariant forall q :: q in rest ==> q !in dead
      invariant forall q :: q in rest || q in dead <==> (key, q) in db.fields && db.fields[(key, q)] <= cutoff
      decreases rest
    {
      var q :| q in rest;
      rest, dead := rest - {q}, dead + [q];
    }
  }

  lemma NextActionExists(db: Redis, p: Proc)
    requires Busy(p)
    ensures exists a :: NextAction(db, p, a)
  {
    match p {
      case NextKey(cutoff, todo) =>
        if todo != [] && todo[0].Peers? {
          var dead := ListExpired(db, todo[0], cutoff);
          assert NextAction(db, p, Fetch(dead));
        } else {
          assert NextAction(db, p, Fetch([]));
        }
      case At(_, _, _, phase) =>
        var a := match phase
          case Expired(_) => HDelAll
          case OneByOne(_, _) => HDelOne
          case OwesDecrBy(_) => DecrBy
          case Cleanup => Watch
          case Watching(_) => HLen
          case FoundEmpty(_) => SRem;
        assert NextAction(db, p, a);
    }
  }
}
