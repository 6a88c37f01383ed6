/**
 Replies out of the in-memory store. The store reads its maps in any order, so one announce sees
 some function from queries to answers; every such function answers from the flat store.
 */
module MemoryReply {
  import opened Bittorrent
  import opened FlatStore
  import opened MemoryStore
  import opened ResponseHook
  import opened ResponseProperties
  import opened Words

  // ------------------------------------------------------ stores that read a flat store

  lemma {:induction false} Drawing(s: set<Peer>, n: nat)
    requires n <= |s|
    ensures exists r: seq<Peer> :: |r| == n && NoDuplicates(r) && forall p :: p in r ==> p in s
  {
    if n == 0 {
      var r: seq<Peer> := [];
      assert |r| == n && NoDuplicates(r);
    } else {
      var p :| p in s;
      Drawing(s - {p}, n - 1);
      var r: seq<Peer> :| |r| == n - 1 && NoDuplicates(r) && forall q :: q in r ==> q in s - {p};
      var r' := r + [p];
      assert |r'| == n && NoDuplicates(r') && forall q :: q in r' ==> q in s;
    }
  }

  lemma SelectionExists(seeders: set<Peer>, leechers: set<Peer>, seeding: bool, n: int)
    requires n > 0
    ensures exists r :: Selects(seeders, leechers, seeding, n, r)
  {
    var first := if seeding then {} else seeders;
    var m := Min(n, |first|);
    Drawing(first, m);
    var r: seq<Peer> :| |r| == m && NoDuplicates(r) && forall p :: p in r ==> p in first;
    Drawing(leechers, Min(n - m, |leechers|));
    var l: seq<Peer> :| |l| == Min(n - m, |leechers|) && NoDuplicates(l) && forall p :: p in l ==> p in leechers;
    assert (r + l)[..m] == r && (r + l)[m..] == l;
    assert Selects(seeders, leechers, seeding, n, r + l);
  }

  ghost function Chosen(f: Flat, k: SwarmKey, seeding: bool, n: int): (r: seq<Peer>)
    requires n > 0
    ensures IsSelection(f, k, seeding, n, r)
  {
    SelectionExists(PeersOf(f, Seeder, k), PeersOf(f, Leecher, k), seeding, n);
    var r :| Selects(PeersOf(f, Seeder, k), PeersOf(f, Leecher, k), seeding, n, r);
    r
  }

  ghost function StoreOf(f: Flat): Store {
    (h: InfoHash, seeding: bool, n: int, v6: bool) =>
        if n > 0 then Peers(Chosen(f, SwarmKey(h, v6), seeding, n)) else Unknown
  }

  /** Every flat store can be read, */
  lemma StoreReads(f: Flat)
    ensures Reads(StoreOf(f), f)
  {
  }

  /** and who reads one keeps to the budget. */
  lemma ReadsRespects(store: Store, f: Flat)
    requires Reads(store, f)
    ensures Respects(store)
  {
    forall h: InfoHash, seeding: bool, n: int, v6: bool | n > 0 ensures |PeersIn(store(h, seeding, n, v6))| <= n {
      var a := store(h, seeding, n, v6);
      assert IsSelection(f, SwarmKey(h, v6), seeding, n, a.peers);
    }
  }

  // ------------------------------------------------------------ the hook over the store

  /** The same store but for one answer. */
  ghost function Answering(store: Store, a: FetchArgs, seeding: bool, n: int, r: seq<Peer>): Store {
    (h: InfoHash, s: bool, m: int, v6: bool) =>
      if h == a.hash && v6 == a.v6 && s == seeding && m == n then Peers(r) else store(h, s, m, v6)
  }

  lemma AnsweringReads(store: Store, f: Flat, a: FetchArgs, seeding: bool, n: int, r: seq<Peer>)
    requires Reads(store, f) && IsSelection(f, SwarmKey(a.hash, a.v6), seeding, n, r)
    ensures Reads(Answering(store, a, seeding, n, r), f)
  {
  }

  /** An answer to a later query changes nothing about the earlier ones. */
  lemma {:induction false} GatherSame(start: seq<Peer>, numWant: int, seeding: bool, args: seq<FetchArgs>, store: Store,
                                      i: nat, n: nat, m: int, r: seq<Peer>)
    requires NoDuplicates(args) && n <= i < |args|
    ensures Gather(start, numWant, seeding, args, Answering(store, args[i], seeding, m, r), n)
         == Gather(start, numWant, seeding, args, store, n)
    decreases n
  {
    if n > 0 {
      GatherSame(start, numWant, seeding, args, store, i, n - 1, m, r);
      assert args[n - 1] != args[i];
    }
  }

  /** The first i fetches were answered from the flat store: some reader of it gives the same. */
  ghost predicate Fetched(f: Flat, start: seq<Peer>, numWant: int, seeding: bool, args: seq<FetchArgs>, i: nat,
                          peers: seq<Peer>, budget: int)
    requires i <= |args|
  {
    exists store: Store :: Reads(store, f) && Gather(start, numWant, seeding, args, store, i) == Gathered(peers, budget)
  }

  lemma FetchedNone(f: Flat, start: seq<Peer>, numWant: int, seeding: bool, args: seq<FetchArgs>)
    ensures Fetched(f, start, numWant, seeding, args, 0, start, numWant - |start|)
  {
    StoreReads(f);
    assert Gather(start, numWant, seeding, args, StoreOf(f), 0) == Gathered(start, numWant - |start|);
  }

  lemma FetchedNext(f: Flat, start: seq<Peer>, numWant: int, seeding: bool, args: seq<FetchArgs>, i: nat,
                    peers: seq<Peer>, budget: int, r: seq<Peer>)
    requires NoDuplicates(args) && i < |args| && budget > 0 &&
             Fetched(f, start, numWant, seeding, args, i, peers, budget)
    requires IsSelection(f, SwarmKey(args[i].hash, args[i].v6), seeding, budget, r)
    ensures Fetched(f, start, numWant, seeding, args, i + 1, peers + r, budget - |r|)
  {
    var store: Store :| Reads(store, f) && Gather(start, numWant, seeding, args, store, i) == Gathered(peers, budget);
    var next := Answering(store, args[i], seeding, budget, r);
    AnsweringReads(store, f, args[i], seeding, budget, r);
    GatherSame(start, numWant, seeding, args, store, i, i, budget, r);
    assert next(args[i].hash, seeding, budget, args[i].v6) == Peers(r);
    assert Gather(start, numWant, seeding, args, next, i + 1) == Gathered(peers + r, budget - |r|);
  }

  lemma FetchedAll(f: Flat, start: seq<Peer>, numWant: int, seeding: bool, args: seq<FetchArgs>, i: nat,
                   peers: seq<Peer>, budget: int)
    requires i <= |args| && budget <= 0 && Fetched(f, start, numWant, seeding, args, i, peers, budget)
    ensures Fetched(f, start, numWant, seeding, args, |args|, peers, budget)
  {
    var store: Store :| Reads(store, f) && Gather(start, numWant, seeding, args, store, i) == Gathered(peers, budget);
    GatherExhausted(start, numWant, seeding, args, store, i, |args|);
  }

  /** A query of the loop, the budget it was made with and its answer. */
  datatype Query = Query(a: FetchArgs, budget: int, r: seq<Peer>)

  ghost predicate Honest(f: Flat, seeding: bool, q: Query) {
    q.budget > 0 && IsSelection(f, SwarmKey(q.a.hash, q.a.v6), seeding, q.budget, q.r)
  }

  /** The queries so far add up to these peers and this budget. */
  ghost predicate Logged(f: Flat, start: seq<Peer>, numWant: int, seeding: bool, args: seq<FetchArgs>,
                         log: seq<Query>, peers: seq<Peer>, left: int) {
    if log == [] then peers == start && left == numWant - |start|
    else
      var n := |log| - 1;
      var q := log[n];
      && n < |args| && q.a == args[n] && Honest(f, seeding, q)
      && left == q.budget - |q.r| && |peers| >= |q.r|
      && var before := peers[..|peers| - |q.r|];
         peers == before + q.r && Logged(f, start, numWant, seeding, args, log[..n], before, q.budget)
  }

  lemma LoggedNext(f: Flat, start: seq<Peer>, numWant: int, seeding: bool, args: seq<FetchArgs>, log: seq<Query>,
                   peers: seq<Peer>, left: int, r: seq<Peer>)
    requires Logged(f, start, numWant, seeding, args, log, peers, left) && |log| < |args|
    requires Honest(f, seeding, Query(args[|log|], left, r))
    ensures Logged(f, start, numWant, seeding, args, log + [Query(args[|log|], left, r)], peers + r, left - |r|)
  {
    var all := log + [Query(args[|log|], left, r)];
    assert all[..|all| - 1] == log && (peers + r)[..|peers|] == peers;
  }

  lemma {:induction false} LoggedFetched(f: Flat, start: seq<Peer>, numWant: int, seeding: bool,
                                         args: seq<FetchArgs>, log: seq<Query>,
                                         peers: seq<Peer>, left: int)
    requires Logged(f, start, numWant, seeding, args, log, peers, left) && NoDuplicates(args) && |log| <= |args|
    ensures Fetched(f, start, numWant, seeding, args, |log|, peers, left)
    decreases log
  {
    if log == [] {
      FetchedNone(f, start, numWant, seeding, args);
    } else {
      var n := |log| - 1;
      var q := log[n];
      LoggedFetched(f, start, numWant, seeding, args, log[..n], peers[..|peers| - |q.r|], q.budget);
      FetchedNext(f, start, numWant, seeding, args, n, peers[..|peers| - |q.r|], q.budget, q.r);
    }
  }

  lemma LoggedAll(f: Flat, start: seq<Peer>, numWant: int, seeding: bool, args: seq<FetchArgs>, log: seq<Query>,
                  peers: seq<Peer>, left: int)
    requires Logged(f, start, numWant, seeding, args, log, peers, left) && NoDuplicates(args) && |log| <= |args|
    requires |log| == |args| || left <= 0
    ensures Fetched(f, start, numWant, seeding, args, |args|, peers, left)
  {
    LoggedFetched(f, start, numWant, seeding, args, log, peers, left);
    if |log| < |args| {
      FetchedAll(f, start, numWant, seeding, args, |log|, peers, left);
    }
  }

  /** The fetch loop over the store itself: every answer is a selection of what it holds. */
  method FetchFromMemory(start: seq<Peer>, numWant: int, seeding: bool, args: seq<FetchArgs>, store: PeerStore)
    returns (peers: seq<Peer>, maxPeers: int, log: seq<Query>)
    requires store.Valid() && !store.closed
    ensures Logged(store.flat, start, numWant, seeding, args, log, peers, maxPeers)
    ensures |log| <= |args| && (|log| == |args| || maxPeers <= 0)
  {
    peers, maxPeers, log := start, numWant - |start|, [];
    while |log| < |args| && maxPeers > 0
      invariant Logged(store.flat, start, numWant, seeding, args, log, peers, maxPeers) && |log| <= |args|
      decreases |args| - |log|
    {
      var a := args[|log|];
      var storePeers := store.AnnouncePeers(a.hash, seeding, maxPeers, a.v6);
      assert Honest(store.flat, seeding, Query(a, maxPeers, storePeers));
      LoggedNext(store.flat, start, numWant, seeding, args, log, peers, maxPeers, storePeers);
      peers, maxPeers, log := peers + storePeers, maxPeers - |storePeers|, log + [Query(a, maxPeers, storePeers)];
    }
  }

  lemma FetchOrderDistinct(req: AnnounceRequest)
    ensures NoDuplicates(FetchOrder(req))
  {
  }

  /** What an announcer finds in the list of one family: everybody it wants to hear of. */
  ghost predicate InFull(kept: seq<Peer>, f: Flat, req: AnnounceRequest, v6: bool) {
    forall p :: p in kept <==> p in WantedIn(f, req, v6) && p.Addr().IsValid()
  }

  /** Peers of one family, none twice. */
  ghost predicate Clean(kept: seq<Peer>, v6: bool) { NoDuplicates(kept) && forall p :: p in kept ==> InFamilyOf(p, v6) }

  ghost predicate NobodyWanted(f: Flat, req: AnnounceRequest) { WantedIn(f, req, false) == {} && WantedIn(f, req,
                               true) == {} }

  /** A reply of the announcer's own addresses, in which it has been counted. */
  ghost predicate AloneIn(req: AnnounceRequest, v4: seq<Peer>, v6: seq<Peer>) {
    OwnAddresses(v4, req, false) && OwnAddresses(v6, req, true)
  }

  /**
   appendPeers over the memory store: always clean lists within NumWant, or the announcer's own
   addresses, in which case it is counted once. When nobody filled the reply before, this is so exactly when
   nobody wanted is stored or NumWant is 0, and the reply is the whole swarm when NumWant covers it.
   */
  method AppendFromMemory(req: AnnounceRequest, resp: AnnounceResponse, store: PeerStore) returns (alone: bool)
    requires store.Valid() && !store.closed
    modifies resp`complete, resp`incomplete, resp`ipv4Peers, resp`ipv6Peers
    ensures Clean(resp.ipv4Peers, false) && Clean(resp.ipv6Peers, true)
    ensures if alone then AloneIn(req, resp.ipv4Peers, resp.ipv6Peers)
            else |resp.ipv4Peers| + |resp.ipv6Peers| <= req.numWant
    ensures resp.complete == if alone && req.left == 0 then Add32(old(resp.complete), 1) else old(resp.complete)
    ensures resp.incomplete == if alone && req.left != 0 then Add32(old(resp.incomplete), 1) else old(resp.incomplete)
    ensures old(resp.ipv4Peers) == old(resp.ipv6Peers) == [] ==>
              && (alone <==> req.numWant == 0 || NobodyWanted(store.flat, req))
              && (!alone && Covers(req, store.flat) ==>
                    InFull(resp.ipv4Peers, store.flat, req, false) && InFull(resp.ipv6Peers, store.flat, req, true))
  {
    var peers := Prefill(req, resp);
    ghost var v4, v6 := resp.ipv4Peers, resp.ipv6Peers;
    FetchOrderDistinct(req);
    ghost var start := peers;
    var budget, log;
    peers, budget, log := FetchFromMemory(peers, req.numWant, req.left == 0, FetchOrder(req), store);
    LoggedAll(store.flat, start, req.numWant, req.left == 0, FetchOrder(req), log, peers, budget);
    Fill(req, resp, peers);
    alone := |peers| == 0;
    FilledFromMemory(store.flat, req, v4, v6, peers, budget);
  }

  /** A reply that is filled with what was fetched. */
  lemma FilledFromMemory(f: Flat, req: AnnounceRequest, v4: seq<Peer>, v6: seq<Peer>, gathered: seq<Peer>, budget: int)
    requires Consistent(f)
    requires Fetched(f, Prefilled(req, v4, v6), req.numWant, req.left == 0, FetchOrder(req), |FetchOrder(req)|,
             gathered, budget)
    ensures var peers := if gathered == [] then req.Peers() else gathered;
            var k4, k6 := Kept(peers, false), Kept(peers, true);
            && Clean(k4, false) && Clean(k6, true)
            && (if gathered == [] then AloneIn(req, k4, k6) else |k4| + |k6| <= req.numWant)
            && (v4 == v6 == [] ==>
                  && (gathered == [] <==> req.numWant == 0 || NobodyWanted(f, req))
                  && (gathered != [] && Covers(req, f) ==> InFull(k4, f, req, false) && InFull(k6, f, req, true)))
  {
    var args := FetchOrder(req);
    var store: Store :| Reads(store, f)
                     && Gather(Prefilled(req, v4, v6), req.numWant, req.left == 0, args, store, |args|) ==
                       Gathered(gathered, budget);
    ReadsRespects(store, f);
    ReplyIsSound(req, v4, v6, store);
    if v4 == v6 == [] {
      AloneIff(req, store, f);
      if Covers(req, f) {
        FullReply(req, store, f, false);
        FullReply(req, store, f, true);
      }
    }
  }
}
