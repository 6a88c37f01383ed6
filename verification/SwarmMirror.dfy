/**
 BEP 52 mirroring: whatever a run leaves under a V2 hash is also found, in the same role
 and at least as fresh, under the truncated hash that V1 clients ask for.
 */
module SwarmMirror {
  import opened Bittorrent
  import opened FlatStore
  import opened MemoryTable
  import opened SwarmHook

  /** The entry for V1 clients. */
  function Mirror(e: Entry): Entry {
    e.(swarm := e.swarm.(hash := TruncateV1(e.swarm.hash)))
  }

  ghost predicate Mirrored(f: Flat) {
    forall e :: MirroredAt(f, e)
  }

  predicate MirroredAt(f: Flat, e: Entry) {
    e in f.times && IsV2(e.swarm.hash) ==> Mirror(e) in f.times && f.times[Mirror(e)] >= f.times[e]
  }

  /** What every run sees to by the time `now`, when only `known` V2 hashes were announced. */
  ghost predicate Sound(f: Flat, known: set<InfoHash>, now: int) {
    Consistent(f) && forall e :: Plausible(f, known, now, e)
  }

  predicate Plausible(f: Flat, known: set<InfoHash>, now: int, e: Entry) {
    e in f.times ==> f.times[e] <= now && (IsV2(e.swarm.hash) ==> e.swarm.hash in known)
  }

  /** Announces that take a peer out of a role. */
  predicate Destructive(req: AnnounceRequest) { req.event.Stopped? || req.event.Completed? }

  /**
   An entry that keeps its place under its own V2 hash while the announce takes its mirror: the
   announce is for the truncated hash, or for another V2 hash with the same first 20 bytes.
   */
  predicate Victim(f: Flat, req: AnnounceRequest, p: Peer, e: Entry) {
    && e in f.times && IsV2(e.swarm.hash) && e.swarm.hash != req.infoHash && e.peer == p
    && TruncateV1(e.swarm.hash) == TruncateV1(req.infoHash)
    && (req.event.Stopped? || (req.event.Completed? && e.role.Leecher?))
  }

  ghost predicate Calm(f: Flat, req: AnnounceRequest, p: Peer) {
    forall e :: !Victim(f, req, p, e)
  }

  /** One store call leaves this entry, with this time (None: it is gone). */
  predicate Leaves(f: Flat, f': Flat, e: Entry) {
    (e in f'.times <==> e in f.times) && (e in f.times ==> f'.times[e] == f.times[e])
  }

  /** What one store call does to every single entry. */
  lemma StoreOpEffect(f: Flat, req: AnnounceRequest, h: InfoHash, p: Peer, now: int, e: Entry)
    requires Consistent(f)
    ensures var f' := StoreOp(f, req, h, p, now);
            var k := SwarmOf(h, p);
            var role := if req.event.Completed? || req.left == 0 then Seeder else Leecher;
            && InFamily(f', e)
            && (!(e.swarm == k && e.peer == p) ==> Leaves(f, f', e))
            && (e.swarm == k && e.peer == p && req.event.Stopped? ==> e !in f'.times)
            && (e.swarm == k && e.peer == p && !req.event.Stopped? && e.role == role ==>
              e in f'.times && f'.times[e] == now)
            && (e.swarm == k && e.peer == p && req.event.Completed? && e.role == Leecher ==> e !in f'.times)
            && (e.swarm == k && e.peer == p && !Destructive(req) && e.role != role ==> Leaves(f, f', e))
  {
    assert InFamily(f, e);
    match e.role
    case Seeder => assert e == Entry(Seeder, e.swarm, e.peer);
    case Leecher => assert e == Entry(Leecher, e.swarm, e.peer);
  }

  lemma StoreOpConsistent(f: Flat, req: AnnounceRequest, h: InfoHash, p: Peer, now: int)
    requires Consistent(f)
    ensures Consistent(StoreOp(f, req, h, p, now))
  {
    forall e: Entry ensures InFamily(StoreOp(f, req, h, p, now), e) { StoreOpEffect(f, req, h, p, now, e); }
  }

  lemma PeerOpSound(f: Flat, req: AnnounceRequest, p: Peer, now: int, later: int, known: set<InfoHash>, last: int)
    requires Sound(f, known, last) && last <= now <= later && (IsV2(req.infoHash) ==> req.infoHash in known)
    ensures Sound(PeerOp(f, req, p, now, later), known, later)
  {
    var h, t := req.infoHash, TruncateV1(req.infoHash);
    var f1, f2 := StoreOp(f, req, h, p, now), PeerOp(f, req, p, now, later);
    StoreOpConsistent(f, req, h, p, now);
    forall e: Entry ensures InFamily(f2, e) && Plausible(f2, known, later, e) {
      assert Plausible(f, known, last, e);
      StoreOpEffect(f, req, h, p, now, e);
      if IsV2(h) { StoreOpEffect(f1, req, t, p, later, e); }
    }
  }

  /** What one peer of an announce does to an entry and to its mirror. */
  lemma MirrorEffect(f: Flat, req: AnnounceRequest, p: Peer, now: int, later: int, known: set<InfoHash>, last: int,
                     e: Entry)
    requires Sound(f, known, last) && MirroredAt(f, e) && last <= now <= later
    ensures MirroredAt(PeerOp(f, req, p, now, later), e) <==> !Victim(f, req, p, e)
  {
    var h, t := req.infoHash, TruncateV1(req.infoHash);
    var f1 := StoreOp(f, req, h, p, now);
    StoreOpConsistent(f, req, h, p, now);
    assert InFamily(f, e) && Plausible(f, known, last, e) && Plausible(f, known, last, Mirror(e));
    StoreOpEffect(f, req, h, p, now, e);
    StoreOpEffect(f, req, h, p, now, Mirror(e));
    if IsV2(h) {
      StoreOpEffect(f1, req, t, p, later, e);
      StoreOpEffect(f1, req, t, p, later, Mirror(e));
    }
  }

  /** One peer of an announce keeps every V2 entry mirrored exactly when it has no victim. */
  lemma PeerOpMirrorsIff(f: Flat, req: AnnounceRequest, p: Peer, now: int, later: int, known: set<InfoHash>, last: int)
    requires Sound(f, known, last) && Mirrored(f) && last <= now <= later
    ensures Mirrored(PeerOp(f, req, p, now, later)) <==> Calm(f, req, p)
  {
    var f' := PeerOp(f, req, p, now, later);
    forall e: Entry ensures MirroredAt(f', e) <==> !Victim(f, req, p, e) {
      assert MirroredAt(f, e);
      MirrorEffect(f, req, p, now, later, known, last, e);
    }
  }

  /** gc removes a mirror only together with what it mirrors. */
  lemma CollectMirrors(f: Flat, known: set<InfoHash>, now: int, cutoff: int)
    requires Sound(f, known, now)
    ensures Sound(Collect(f, cutoff), known, now)
    ensures Mirrored(f) ==> Mirrored(Collect(f, cutoff))
  {
    var f' := Collect(f, cutoff);
    forall e: Entry ensures InFamily(f', e) && Plausible(f', known, now, e) &&
        (MirroredAt(f, e) ==> MirroredAt(f', e)) {
      assert InFamily(f, e) && Plausible(f, known, now, e);
    }
  }

  // -------------------------------------------------------------------- runs

  ghost function KnownV2(run: seq<Step>): set<InfoHash> {
    set i | 0 <= i < |run| && run[i].Announce? && IsV2(run[i].req.infoHash) :: run[i].req.infoHash
  }

  /** The clock never goes back: marks[i] is its reading before step i. */
  ghost predicate OnClock(run: seq<Step>, marks: seq<int>) {
    && |marks| == |run| + 1
    && forall i :: 0 <= i < |run| ==>
         marks[i] <= marks[i + 1] && (run[i].Announce? ==> Within(run[i].clock, marks[i], marks[i + 1]))
  }

  predicate Within(clock: Clock, lo: int, hi: int) {
    && (forall i :: 0 <= i < |clock| ==> lo <= clock[i] <= hi)
    && (forall i, j :: 0 <= i < j < |clock| ==> clock[i] <= clock[j])
  }

  /** The last reading of the clock after i peers of an announce. */
  function Reading(clock: Clock, lo: int, i: nat): int
    requires 2 * i <= |clock|
  {
    if i == 0 then lo else clock[2 * i - 1]
  }

  lemma {:induction false} AnnounceSound(f: Flat, req: AnnounceRequest, clock: Clock, i: nat, known: set<InfoHash>,
                                         lo: int, hi: int)
    requires i <= |req.addresses| && ClockFor(req, clock) && Within(clock, lo, hi)
    requires Sound(f, known, lo) && (IsV2(req.infoHash) ==> req.infoHash in known)
    ensures Sound(Announced(f, req, clock, i), known, Reading(clock, lo, i))
  {
    if i > 0 {
      AnnounceSound(f, req, clock, i - 1, known, lo, hi);
      PeerOpSound(Announced(f, req, clock, i - 1), req, req.Peers()[i - 1], clock[2 * i - 2], clock[2 * i - 1], known,
          Reading(clock, lo, i - 1));
    }
  }

  lemma Later(f: Flat, known: set<InfoHash>, now: int, later: int)
    requires Sound(f, known, now) && now <= later
    ensures Sound(f, known, later)
  {
    forall e: Entry ensures Plausible(f, known, later, e) { assert Plausible(f, known, now, e); }
  }

  lemma {:induction false} RunSound(run: seq<Step>, marks: seq<int>, n: nat)
    requires OnClock(run, marks) && n <= |run|
    ensures Sound(Exec(EMPTY, run[..n]), KnownV2(run), marks[n])
  {
    if n > 0 {
      RunSound(run, marks, n - 1);
      assert run[..n][..n - 1] == run[..n - 1];
      var f, known := Exec(EMPTY, run[..n - 1]), KnownV2(run);
      match run[n - 1]
      case Announce(req, clock) =>
        AnnounceSound(f, req, clock, |req.addresses|, known, marks[n - 1], marks[n]);
        Later(Announced(f, req, clock, |req.addresses|), known, Reading(clock, marks[n - 1], |req.addresses|),
            marks[n]);
      case GC(cutoff) =>
        CollectMirrors(f, known, marks[n - 1], cutoff);
        Later(Collect(f, cutoff), known, marks[n - 1], marks[n]);
    }
  }

  /** Is (n, i) a peer of an announce of the run? */
  predicate Point(run: seq<Step>, n: int, i: int) {
    0 <= n < |run| && run[n].Announce? && 0 <= i < |run[n].req.addresses|
  }

  /** The store before this peer. */
  ghost function Before(run: seq<Step>, n: int, i: int): Flat
    requires Point(run, n, i)
  {
    Announced(Exec(EMPTY, run[..n]), run[n].req, run[n].clock, i)
  }

  /** The store after this peer. */
  ghost function After(run: seq<Step>, n: int, i: int): Flat
    requires Point(run, n, i)
  {
    Announced(Exec(EMPTY, run[..n]), run[n].req, run[n].clock, i + 1)
  }

  ghost predicate CalmAt(run: seq<Step>, n: int, i: int)
    requires Point(run, n, i)
  {
    Calm(Before(run, n, i), run[n].req, run[n].req.Peers()[i])
  }

  /** No peer of any announce has a victim when its turn comes. */
  ghost predicate CalmRun(run: seq<Step>) {
    forall n, i :: Point(run, n, i) ==> CalmAt(run, n, i)
  }

  /** Mirrored after every step, and after every peer within a step. */
  ghost predicate MirroredThroughout(run: seq<Step>) {
    && (forall n :: 0 <= n <= |run| ==> Mirrored(Exec(EMPTY, run[..n])))
    && (forall n, i :: Point(run, n, i) ==> Mirrored(After(run, n, i)))
  }

  lemma StepMirrorsIff(run: seq<Step>, marks: seq<int>, n: int, i: int)
    requires OnClock(run, marks) && Point(run, n, i) && Mirrored(Before(run, n, i))
    ensures Mirrored(After(run, n, i)) <==> CalmAt(run, n, i)
  {
    var req, clock, f, known := run[n].req, run[n].clock, Exec(EMPTY, run[..n]), KnownV2(run);
    RunSound(run, marks, n);
    AnnounceSound(f, req, clock, i, known, marks[n], marks[n + 1]);
    AnnouncedNext(f, req, clock, i);
    PeerOpMirrorsIff(Before(run, n, i), req, req.Peers()[i], clock[2 * i], clock[2 * i + 1], known,
        Reading(clock, marks[n], i));
  }

  lemma {:induction false} CalmAnnounceMirrors(run: seq<Step>, marks: seq<int>, n: int, i: int)
    requires OnClock(run, marks) && CalmRun(run) && 0 <= n < |run| && run[n].Announce? &&
             0 <= i <= |run[n].req.addresses|
    requires Mirrored(Exec(EMPTY, run[..n]))
    ensures Mirrored(Announced(Exec(EMPTY, run[..n]), run[n].req, run[n].clock, i))
    decreases i
  {
    if i > 0 {
      CalmAnnounceMirrors(run, marks, n, i - 1);
      assert Point(run, n, i - 1) && CalmAt(run, n, i - 1);
      StepMirrorsIff(run, marks, n, i - 1);
    }
  }

  lemma {:induction false} CalmPrefixMirrors(run: seq<Step>, marks: seq<int>, n: nat)
    requires OnClock(run, marks) && CalmRun(run) && n <= |run|
    ensures Mirrored(Exec(EMPTY, run[..n]))
  {
    if n > 0 {
      CalmPrefixMirrors(run, marks, n - 1);
      assert run[..n][..n - 1] == run[..n - 1];
      match run[n - 1]
      case Announce(req, clock) => CalmAnnounceMirrors(run, marks, n - 1, |req.addresses|);
      case GC(cutoff) =>
        RunSound(run, marks, n - 1);
        CollectMirrors(Exec(EMPTY, run[..n - 1]), KnownV2(run), marks[n - 1], cutoff);
    }
  }

  /**
   A run of announces and gc passes keeps every V2 entry mirrored all along exactly when no
   announce takes the mirror of an entry that it leaves.
   */
  lemma RunsMirroredIff(run: seq<Step>, marks: seq<int>)
    requires OnClock(run, marks)
    ensures MirroredThroughout(run) <==> CalmRun(run)
  {
    if CalmRun(run) {
      forall n | 0 <= n <= |run| ensures Mirrored(Exec(EMPTY, run[..n])) { CalmPrefixMirrors(run, marks, n); }
      forall n, i | Point(run, n, i) ensures Mirrored(After(run, n, i)) {
        CalmAnnounceMirrors(run, marks, n, i + 1);
      }
    }
    if MirroredThroughout(run) {
      forall n, i | Point(run, n, i) ensures CalmAt(run, n, i) {
        assert i > 0 ==> Point(run, n, i - 1) && After(run, n, i - 1) == Before(run, n, i);
        assert i == 0 ==> Before(run, n, i) == Exec(EMPTY, run[..n]);
        StepMirrorsIff(run, marks, n, i);
      }
    }
  }

  // ------------------------------------------------------- reading it off the run

  /** Announces that take a peer out of a role meet no other announced V2 hash with their prefix. */
  ghost predicate Compatible(run: seq<Step>) {
    forall i :: 0 <= i < |run| && run[i].Announce? && Destructive(run[i].req) ==>
        Unambiguous(run[i].req.infoHash, KnownV2(run))
  }

  predicate Unambiguous(h: InfoHash, known: set<InfoHash>) {
    forall g :: g in known && IsV2(g) && TruncateV1(g) == TruncateV1(h) ==> g == h
  }

  /** In particular runs of V2 hashes whose prefixes are pairwise different, whoever announces what and when. */
  lemma DistinctPrefixesMirror(run: seq<Step>, marks: seq<int>)
    requires OnClock(run, marks) && Compatible(run)
    ensures MirroredThroughout(run)
  {
    forall n, i | Point(run, n, i) ensures CalmAt(run, n, i) {
      RunSound(run, marks, n);
      AnnounceSound(Exec(EMPTY, run[..n]), run[n].req, run[n].clock, i, KnownV2(run), marks[n], marks[n + 1]);
      forall e: Entry ensures !Victim(Before(run, n, i), run[n].req, run[n].req.Peers()[i], e) {
        assert Plausible(Before(run, n, i), KnownV2(run), Reading(run[n].clock, marks[n], i), e);
      }
    }
    RunsMirroredIff(run, marks);
  }

  /** One announce by one peer. */
  function One(h: InfoHash, p: Peer, event: Event, left: nat, t: int): Step {
    Announce(AnnounceRequest(event, true, h, 50, true, left, 0, 0, p.id, p.port, [RequestAddress(p.ip, true)]), [t, t])
  }

  /**
   The runs that fail, for every peer and V2 hash: the peer leeches under it and then stops or
   completes under the truncated hash, or under another V2 hash with the same prefix.
   */
  lemma MirrorLost(h: InfoHash, g: InfoHash, p: Peer, event: Event, left: nat, t: int, u: int)
    requires IsV2(h) && g != h && TruncateV1(g) == TruncateV1(h) && (event.Stopped? || event.Completed?)
    ensures !Mirrored(Exec(EMPTY, [One(h, p, Started, 1, t), One(g, p, event, left, u)]))
  {
    var first, second := One(h, p, Started, 1, t), One(g, p, event, left, u);
    var f := Exec(EMPTY, [first]);
    ExecLast(EMPTY, [], first);
    ExecLast(EMPTY, [first], second);
    assert [] + [first] == [first] && [first] + [second] == [first, second];
    OnePeer(EMPTY, first.req, first.clock, p);
    OnePeer(f, second.req, second.clock, p);
    LeechThenLeave(f, first.req, second.req, p, t, u, Entry(Leecher, SwarmOf(h, p), p));
  }

  lemma ExecLast(f: Flat, run: seq<Step>, s: Step)
    requires s.Announce?
    ensures Exec(f, run + [s]) == Announced(Exec(f, run), s.req, s.clock, |s.req.addresses|)
  {
    assert (run + [s])[..|run + [s]| - 1] == run;
  }

  lemma OnePeer(f: Flat, req: AnnounceRequest, clock: Clock, p: Peer)
    requires |req.addresses| == 1 && ClockFor(req, clock) && p == Peer(req.id, req.addresses[0].addr, req.port)
    ensures Announced(f, req, clock, 1) == PeerOp(f, req, p, clock[0], clock[1])
  {
    AnnouncedNext(f, req, clock, 0);
  }

  lemma LeechThenLeave(f: Flat, first: AnnounceRequest, second: AnnounceRequest, p: Peer, t: int, u: int, e: Entry)
    requires f == PeerOp(EMPTY, first, p, t, t) && first.event.Started? && first.left == 1 && IsV2(first.infoHash)
    requires e == Entry(Leecher, SwarmOf(first.infoHash, p), p)
    requires Destructive(second) && second.infoHash != first.infoHash &&
             TruncateV1(second.infoHash) == TruncateV1(first.infoHash)
    ensures !MirroredAt(PeerOp(f, second, p, u, u), e)
  {
    var known := {first.infoHash};
    PeerOpSound(EMPTY, first, p, t, t, known, t);
    MirrorEffect(EMPTY, first, p, t, t, known, t, e);
    StoreOpEffect(EMPTY, first, first.infoHash, p, t, e);
    StoreOpConsistent(EMPTY, first, first.infoHash, p, t);
    StoreOpEffect(StoreOp(EMPTY, first, first.infoHash, p, t), first, TruncateV1(first.infoHash), p, t, e);
    StoreLeave(f, second, p, u, known, t, e);
  }

  /** The clock plays no part in losing a mirror. */
  lemma StoreLeave(f: Flat, req: AnnounceRequest, p: Peer, u: int, known: set<InfoHash>, last: int, e: Entry)
    requires Sound(f, known, last) && Victim(f, req, p, e)
    ensures !MirroredAt(PeerOp(f, req, p, u, u), e)
  {
    var h, t := req.infoHash, TruncateV1(req.infoHash);
    StoreOpConsistent(f, req, h, p, u);
    assert InFamily(f, e);
    StoreOpEffect(f, req, h, p, u, e);
    StoreOpEffect(f, req, h, p, u, Mirror(e));
    if IsV2(h) {
      StoreOpEffect(StoreOp(f, req, h, p, u), req, t, p, u, e);
      StoreOpEffect(StoreOp(f, req, h, p, u), req, t, p, u, Mirror(e));
    }
  }

  /** The mirror is kept in the same shard. */
  lemma MirrorSameShard(e: Entry, n: int)
    requires 2 <= n && n % 2 == 0
    ensures ShardIndex(n)(e.swarm) == ShardIndex(n)(Mirror(e).swarm)
  {
    assert e.swarm.hash[..4] == TruncateV1(e.swarm.hash)[..4];
  }
}
