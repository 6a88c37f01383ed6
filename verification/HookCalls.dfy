/**
 The hook that turns an announce into store calls, over any store: which calls it makes, and where
 it stops when one of them fails.
 */
module HookCalls {
  import opened Bittorrent
  import opened FlatStore
  import opened SwarmHook

  datatype Op = DeleteSeeder | DeleteLeecher | GraduateLeecher | PutSeeder | PutLeecher

  datatype Call = Call(op: Op, hash: InfoHash, peer: Peer)

  /** What a store call returns: no error, ErrResourceDoesNotExist, or any other error. */
  datatype Result = Success | NotExist | Failure

  /** The answer to the n-th call. */
  type Answers = nat -> Result

  /** The calls for one hash and one peer. */
  function CallsFor(req: AnnounceRequest, h: InfoHash, p: Peer): seq<Call> {
    if req.event.Stopped? then [Call(DeleteSeeder, h, p), Call(DeleteLeecher, h, p)]
    else if req.event.Completed? then [Call(GraduateLeecher, h, p)]
    else if req.left == 0 then [Call(PutSeeder, h, p)]
    else [Call(PutLeecher, h, p)]
  }

  /** The calls for one peer: a V2 hash is followed by its truncated form. */
  function PeerCalls(req: AnnounceRequest, p: Peer): seq<Call> {
    CallsFor(req, req.infoHash, p) + if IsV2(req.infoHash) then CallsFor(req, TruncateV1(req.infoHash), p) else []
  }

  /** The calls for the first n peers. */
  function AllCalls(req: AnnounceRequest, n: nat): seq<Call>
    requires n <= |req.addresses|
  {
    if n == 0 then [] else AllCalls(req, n - 1) + PeerCalls(req, req.Peers()[n - 1])
  }

  /** A swarm that is not there is an error for every announce but Stopped. */
  predicate Aborts(req: AnnounceRequest, r: Result) { r.Failure? || (r.NotExist? && !req.event.Stopped?) }

  /** All of these calls were made and none of them aborts. */
  predicate Through(req: AnnounceRequest, answers: Answers, made: seq<Call>, calls: seq<Call>) {
    made == calls && forall k :: 0 <= k < |made| ==> !Aborts(req, answers(k))
  }

  /** Calls were made up to the first that aborts, and its error is the result. */
  predicate Stopped(req: AnnounceRequest, answers: Answers, made: seq<Call>, calls: seq<Call>, err: Result) {
    && made != [] && made <= calls && err == answers(|made| - 1) && Aborts(req, err)
    && forall k :: 0 <= k < |made| - 1 ==> !Aborts(req, answers(k))
  }

  predicate Ran(req: AnnounceRequest, answers: Answers, made: seq<Call>, calls: seq<Call>, err: Result) {
    if err.Success? then Through(req, answers, made, calls) else Stopped(req, answers, made, calls, err)
  }

  /** storeFn behind the calls already made. */
  method StoreFn(req: AnnounceRequest, h: InfoHash, p: Peer, answers: Answers, before: seq<Call>)
    returns (made: seq<Call>, err: Result)
    requires Through(req, answers, before, before)
    ensures Ran(req, answers, made, before + CallsFor(req, h, p), err)
  {
    if req.event.Stopped? {
      made := before + [Call(DeleteSeeder, h, p)];
      err := answers(|before|);
      if !err.Success? && !err.NotExist? {
        return made, err;
      }
      made := made + [Call(DeleteLeecher, h, p)];
      assert made == before + CallsFor(req, h, p);
      err := answers(|made| - 1);
      if !err.Success? && !err.NotExist? {
        return made, err;
      }
      err := Success;
    } else {
      var op := if req.event.Completed? then GraduateLeecher else if req.left == 0 then PutSeeder else PutLeecher;
      made := before + [Call(op, h, p)];
      err := answers(|before|);
    }
  }

  lemma StoppedEarlier(req: AnnounceRequest, answers: Answers, made: seq<Call>, calls: seq<Call>, more: seq<Call>,
                       err: Result)
    requires Stopped(req, answers, made, calls, err)
    ensures Stopped(req, answers, made, calls + more, err)
  {
  }

  method PeerStep(req: AnnounceRequest, p: Peer, answers: Answers, before: seq<Call>) returns (made: seq<Call>,
                  err: Result)
    requires Through(req, answers, before, before)
    ensures Ran(req, answers, made, before + PeerCalls(req, p), err)
  {
    made, err := StoreFn(req, req.infoHash, p, answers, before);
    ghost var first, second := CallsFor(req, req.infoHash, p), CallsFor(req, TruncateV1(req.infoHash), p);
    assert before + (first + second) == (before + first) + second && before + (first + []) == before + first;
    if err.Success? && IsV2(req.infoHash) {
      made, err := StoreFn(req, TruncateV1(req.infoHash), p, answers, made);
    } else if !err.Success? {
      StoppedEarlier(req, answers, made, before + first, second, err);
    }
  }

  /** swarmInteractionHook.HandleAnnounce over any store: every call in order, up to the first that aborts. */
  method HandleAnnounce(req: AnnounceRequest, skip: bool, answers: Answers) returns (made: seq<Call>, err: Result)
    ensures skip ==> made == [] && err == Success
    ensures !skip ==> Ran(req, answers, made, AllCalls(req, |req.addresses|), err)
  {
    made, err := [], Success;
    if skip {
      return;
    }
    var peers := req.Peers();
    for i := 0 to |peers|
      invariant err == Success && Through(req, answers, made, AllCalls(req, i))
    {
      made, err := PeerStep(req, peers[i], answers, made);
      if !err.Success? {
        StoppedWithin(req, answers, made, i + 1, err);
        break;
      }
    }
  }

  lemma {:induction false} StoppedWithin(req: AnnounceRequest, answers: Answers, made: seq<Call>, i: nat, err: Result)
    requires i <= |req.addresses| && Stopped(req, answers, made, AllCalls(req, i), err)
    ensures Stopped(req, answers, made, AllCalls(req, |req.addresses|), err)
    decreases |req.addresses| - i
  {
    if i < |req.addresses| {
      StoppedEarlier(req, answers, made, AllCalls(req, i), PeerCalls(req, req.Peers()[i]), err);
      StoppedWithin(req, answers, made, i + 1, err);
    }
  }

  // ------------------------------------------------- what the calls mean for a flat store

  function Apply(f: Flat, c: Call, now: int): Flat {
    var k := SwarmOf(c.hash, c.peer);
    match c.op
    case DeleteSeeder => Delete(f, Seeder, k, c.peer)
    case DeleteLeecher => Delete(f, Leecher, k, c.peer)
    case GraduateLeecher => Graduate(f, k, c.peer, now)
    case PutSeeder => Put(f, Seeder, k, c.peer, now)
    case PutLeecher => Put(f, Leecher, k, c.peer, now)
  }

  function ApplyAll(f: Flat, calls: seq<Call>, now: int): Flat {
    if calls == [] then f else Apply(ApplyAll(f, calls[..|calls| - 1], now), calls[|calls| - 1], now)
  }

  /** They are the store operation that the memory store is proved to follow. */
  lemma CallsAreStoreOp(f: Flat, req: AnnounceRequest, h: InfoHash, p: Peer, now: int)
    ensures ApplyAll(f, CallsFor(req, h, p), now) == StoreOp(f, req, h, p, now)
  {
    var calls := CallsFor(req, h, p);
    if req.event.Stopped? {
      assert calls[..1] == [calls[0]] && [calls[0]][..0] == [];
      assert ApplyAll(f, [calls[0]], now) == Apply(f, calls[0], now);
    } else {
      assert calls[..0] == [];
    }
  }
}
