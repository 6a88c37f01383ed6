/**
 The hook that turns an announce into store calls. Every call for a V2 hash is repeated
 for its truncated V1 form (BEP 52).
 */
module SwarmHook {
  import opened Bittorrent
  import opened FlatStore
  import opened MemoryStore

  /** The readings of the clock, two for every peer: one for each of its store calls. */
  type Clock = seq<int>

  predicate ClockFor(req: AnnounceRequest, clock: Clock) { |clock| == 2 * |req.addresses| }

  predicate IsV2(h: InfoHash) { |h| == INFO_HASH_V2_LEN }

  /** The store call an announce asks for, on the flat store. */
  function StoreOp(f: Flat, req: AnnounceRequest, h: InfoHash, p: Peer, now: int): Flat {
    var k := SwarmOf(h, p);
    if req.event.Stopped? then Delete(Delete(f, Seeder, k, p), Leecher, k, p)
    else if req.event.Completed? then Graduate(f, k, p, now)
    else Put(f, if req.left == 0 then Seeder else Leecher, k, p, now)
  }

  /** One peer of an announce: its hash, and the truncated hash after it. */
  function PeerOp(f: Flat, req: AnnounceRequest, p: Peer, now: int, later: int): Flat {
    var f' := StoreOp(f, req, req.infoHash, p, now);
    if IsV2(req.infoHash) then StoreOp(f', req, TruncateV1(req.infoHash), p, later) else f'
  }

  /** The first n peers of an announce. */
  function Announced(f: Flat, req: AnnounceRequest, clock: Clock, n: nat): Flat
    requires n <= |req.addresses| && ClockFor(req, clock)
  {
    if n == 0 then f
    else PeerOp(Announced(f, req, clock, n - 1), req, req.Peers()[n - 1], clock[2 * n - 2], clock[2 * n - 1])
  }

  lemma AnnouncedNext(f: Flat, req: AnnounceRequest, clock: Clock, n: nat)
    requires n < |req.addresses| && ClockFor(req, clock)
    ensures Announced(f, req, clock, n + 1) ==
            PeerOp(Announced(f, req, clock, n), req, req.Peers()[n], clock[2 * n], clock[2 * n + 1])
  {
    assert 2 * (n + 1) - 2 == 2 * n && 2 * (n + 1) - 1 == 2 * n + 1;
  }

  method CallStore(store: PeerStore, req: AnnounceRequest, h: InfoHash, p: Peer, now: int)
    requires store.Valid() && !store.closed
    modifies store`flat, store.shards
    ensures store.Valid() && store.flat == StoreOp(old(store.flat), req, h, p, now)
  {
    if req.event.Stopped? {
      // a swarm that is not there is no error for the announce
      var _ := store.Delete(Seeder, h, p);
      var _ := store.Delete(Leecher, h, p);
    } else if req.event.Completed? {
      store.GraduateLeecher(h, p, now);
    } else if req.left == 0 {
      store.Put(Seeder, h, p, now);
    } else {
      store.Put(Leecher, h, p, now);
    }
  }

  method CallStoreForPeer(store: PeerStore, req: AnnounceRequest, p: Peer, now: int, later: int)
    requires store.Valid() && !store.closed
    modifies store`flat, store.shards
    ensures store.Valid() && store.flat == PeerOp(old(store.flat), req, p, now, later)
  {
    CallStore(store, req, req.infoHash, p, now);
    if IsV2(req.infoHash) {
      CallStore(store, req, TruncateV1(req.infoHash), p, later);
    }
  }

  /** swarmInteractionHook.HandleAnnounce over the memory store, which never fails it. */
  method HandleAnnounce(store: PeerStore, req: AnnounceRequest, skip: bool, clock: Clock)
    requires store.Valid() && !store.closed && ClockFor(req, clock)
    modifies store`flat, store.shards
    ensures store.Valid()
    ensures store.flat == if skip then old(store.flat) else Announced(old(store.flat), req, clock, |req.addresses|)
  {
    if skip {
      return;
    }
    ghost var start := store.flat;
    ghost var fs := Stages(start, req, clock);
    assert StageAt(fs, start, req, clock, 0) && StageAt(fs, start, req, clock, |req.addresses|);
    for i := 0 to |req.addresses|
      invariant store.Valid() && store.flat == fs[i]
    {
      HandlePeer(store, req, clock, i, start, fs);
    }
  }

  /** The flat store before each peer of an announce, and after the last. */
  ghost function Stages(start: Flat, req: AnnounceRequest, clock: Clock): (fs: seq<Flat>)
    requires ClockFor(req, clock)
    ensures |fs| == |req.addresses| + 1 && forall i :: 0 <= i < |fs| ==> StageAt(fs, start, req, clock, i)
  {
    seq(|req.addresses| + 1, i requires 0 <= i <= |req.addresses| => Announced(start, req, clock, i))
  }

  ghost predicate StageAt(fs: seq<Flat>, start: Flat, req: AnnounceRequest, clock: Clock, i: int)
    requires ClockFor(req, clock) && 0 <= i < |fs| && i <= |req.addresses|
  {
    fs[i] == Announced(start, req, clock, i)
  }

  method HandlePeer(store: PeerStore, req: AnnounceRequest, clock: Clock, i: nat, ghost start: Flat,
                    ghost fs: seq<Flat>)
    requires store.Valid() && !store.closed && ClockFor(req, clock) && i < |req.addresses|
    requires |fs| == |req.addresses| + 1 && StageAt(fs, start, req, clock, i) && StageAt(fs, start, req, clock, i + 1)
    requires store.flat == fs[i]
    modifies store`flat, store.shards
    ensures store.Valid() && store.flat == fs[i + 1]
  {
    AnnouncedNext(start, req, clock, i);
    CallStoreForPeer(store, req, req.Peers()[i], clock[2 * i], clock[2 * i + 1]);
  }

  // -------------------------------------------------------------------- runs

  datatype StepData = Announce(req: AnnounceRequest, clock: Clock) | GC(cutoff: int)

  type Step = s: StepData | s.Announce? ==> ClockFor(s.req, s.clock) witness GC(0)

  ghost function Exec(f: Flat, run: seq<Step>): Flat {
    if run == [] then f
    else
      var f := Exec(f, run[..|run| - 1]);
      match run[|run| - 1]
      case Announce(req, clock) => Announced(f, req, clock, |req.addresses|)
      case GC(cutoff) => Collect(f, cutoff)
  }

  /** The memory store follows the flat store through every run. */
  method Serve(store: PeerStore, run: seq<Step>)
    requires store.Valid() && !store.closed
    modifies store`flat, store.shards
    ensures store.Valid() && store.flat == Exec(old(store.flat), run)
  {
    for n := 0 to |run|
      invariant store.Valid() && store.flat == Exec(old(store.flat), run[..n])
    {
      assert run[..n + 1][..n] == run[..n];
      match run[n]
      case Announce(req, clock) => HandleAnnounce(store, req, false, clock);
      case GC(cutoff) => store.GC(cutoff);
    }
    assert run[..|run|] == run;
  }
}
