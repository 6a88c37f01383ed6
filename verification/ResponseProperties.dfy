/**
 What an announcer may rely on in a reply: for any store that keeps to the budget it is
 given, and in full for one that answers from a flat store.
 */
module ResponseProperties {
  import opened Bittorrent
  import opened FlatStore
  import opened ResponseHook

  // ---------------------------------------------------- splitting and order

  /** Where a peer occurs first. */
  function FirstAt(peers: seq<Peer>, p: Peer): (i: nat)
    requires p in peers
    ensures i < |peers| && peers[i] == p && forall j :: 0 <= j < i ==> peers[j] != p
  {
    if peers[0] == p then 0 else FirstAt(peers[1..], p) + 1
  }

  lemma FirstAtIs(peers: seq<Peer>, p: Peer, i: nat)
    requires i < |peers| && peers[i] == p && forall j :: 0 <= j < i ==> peers[j] != p
    ensures FirstAt(peers, p) == i
  {
    var j := FirstAt(peers, p);
  }

  /** Exactly the gathered peers of the family, once each, in the order of their first occurrence. */
  ghost predicate SplitOf(kept: seq<Peer>, peers: seq<Peer>, v6: bool) {
    && NoDuplicates(kept)
    && (forall p :: p in kept <==> p in peers && InFamilyOf(p, v6))
    && InOrder(kept, peers)
  }

  lemma FirstAtAppend(rest: seq<Peer>, p: Peer, q: Peer)
    requires q in rest + [p]
    ensures FirstAt(rest + [p], q) == if q in rest then FirstAt(rest, q) else |rest|
  {
    FirstAtIs(rest + [p], q, if q in rest then FirstAt(rest, q) else |rest|);
  }

  predicate InOrder(kept: seq<Peer>, peers: seq<Peer>) {
    && (forall i :: 0 <= i < |kept| ==> kept[i] in peers)
    && forall i, j :: 0 <= i < j < |kept| ==> FirstAt(peers, kept[i]) < FirstAt(peers, kept[j])
  }

  lemma InOrderAppend(kept: seq<Peer>, rest: seq<Peer>, p: Peer)
    requires InOrder(kept, rest)
    ensures InOrder(kept, rest + [p])
    ensures p !in rest ==> InOrder(kept + [p], rest + [p])
  {
    forall i | 0 <= i < |kept| ensures kept[i] in rest + [p] &&
        FirstAt(rest + [p], kept[i]) == FirstAt(rest, kept[i]) < |rest| {
      FirstAtAppend(rest, p, kept[i]);
    }
    if p !in rest { FirstAtAppend(rest, p, p); }
  }

  lemma {:induction false} KeptSplits(peers: seq<Peer>, v6: bool)
    ensures SplitOf(Kept(peers, v6), peers, v6)
  {
    if peers != [] {
      var n := |peers| - 1;
      var rest, p := peers[..n], peers[n];
      KeptSplits(rest, v6);
      assert peers == rest + [p];
      InOrderAppend(Kept(rest, v6), rest, p);
    }
  }

  /** No peer is in both lists, so together they are no longer than what was gathered. */
  lemma {:induction false} KeptLength(peers: seq<Peer>)
    ensures |Kept(peers, false)| + |Kept(peers, true)| <= |peers|
  {
    if peers != [] { KeptLength(peers[..|peers| - 1]); }
  }

  // ------------------------------------------------------------------- budget

  /** PeerStorage.AnnouncePeers: as many as asked for, without going over. */
  ghost predicate Respects(store: Store) {
    forall h, seeding, n, v6 :: n > 0 ==> |PeersIn(store(h, seeding, n, v6))| <= n
  }

  lemma {:induction false} GatherWithinBudget(start: seq<Peer>, numWant: int, seeding: bool, args: seq<FetchArgs>,
                                              store: Store, n: nat)
    requires Respects(store) && |start| <= numWant && n <= |args|
    ensures var g := Gather(start, numWant, seeding, args, store, n);
            g.Gathered? ==> g.budget >= 0 && |g.peers| + g.budget == numWant
  {
    if n > 0 { GatherWithinBudget(start, numWant, seeding, args, store, n - 1); }
  }

  /** The peers a reply is made of: what was gathered, or the announcer itself. */
  function Basis(req: AnnounceRequest, g: Gathering): seq<Peer>
    requires g.Gathered?
  {
    if g.peers == [] then req.Peers() else g.peers
  }

  /**
   Every reply, whatever it was pre-filled with: two duplicate-free lists, IPv4 in one and
   IPv6 in the other, in the order of what was gathered, within NumWant; when nothing was
   found, the announcer's own addresses.
   */
  lemma ReplyIsSound(req: AnnounceRequest, ipv4: seq<Peer>, ipv6: seq<Peer>, store: Store)
    requires Respects(store)
    ensures var g := GatherAll(req, ipv4, ipv6, store);
            g.Gathered? ==>
              var peers := Basis(req, g);
              && SplitOf(Kept(peers, false), peers, false) && SplitOf(Kept(peers, true), peers, true)
              && (g.peers != [] ==> |Kept(peers, false)| + |Kept(peers, true)| <= req.numWant)
              && (g.peers == [] ==>
                    OwnAddresses(Kept(peers, false), req, false) && OwnAddresses(Kept(peers, true), req, true))
  {
    var g := GatherAll(req, ipv4, ipv6, store);
    if g.Gathered? {
      var args := FetchOrder(req);
      GatherWithinBudget(Prefilled(req, ipv4, ipv6), req.numWant, req.left == 0, args, store, |args|);
      KeptSplits(Basis(req, g), false);
      KeptSplits(Basis(req, g), true);
      OwnAddressesKept(req, false);
      OwnAddressesKept(req, true);
      KeptLength(g.peers);
    }
  }

  /** The announcer under one of its addresses. */
  predicate IsOwn(p: Peer, req: AnnounceRequest) {
    exists i :: 0 <= i < |req.addresses| && p == Peer(req.id, req.addresses[i].addr, req.port)
  }

  /** Exactly the announcer under each of its addresses of one family. */
  ghost predicate OwnAddresses(kept: seq<Peer>, req: AnnounceRequest, v6: bool) {
    forall p :: p in kept <==>
                InFamilyOf(p, v6) && IsOwn(p, req)
  }

  lemma OwnAddressesKept(req: AnnounceRequest, v6: bool)
    ensures OwnAddresses(Kept(req.Peers(), v6), req, v6)
  {
    KeptSplits(req.Peers(), v6);
    forall p: Peer
      ensures p in req.Peers() <==> IsOwn(p, req)
    {
      if i :| 0 <= i < |req.addresses| && p == Peer(req.id, req.addresses[i].addr, req.port) {
        assert req.Peers()[i] == p;
      }
    }
  }

  // ------------------------------------------------------------ the whole swarm

  /** The store of some moment, answering as AnnouncePeers of the memory store does. */
  ghost predicate Reads(store: Store, f: Flat) {
    forall h, seeding, n, v6 :: n > 0 ==>
      var a := store(h, seeding, n, v6);
      a.Peers? && IsSelection(f, SwarmKey(h, v6), seeding, n, a.peers)
  }

  /** Whom an announcer wants to hear of: leechers, and seeders unless it is one. */
  ghost function Wanted(f: Flat, k: SwarmKey, seeding: bool): set<Peer> {
    (if seeding then {} else PeersOf(f, Seeder, k)) + PeersOf(f, Leecher, k)
  }

  /** How many entries that is; a peer stored in both roles is two. */
  ghost function Available(f: Flat, k: SwarmKey, seeding: bool): nat {
    (if seeding then 0 else |PeersOf(f, Seeder, k)|) + |PeersOf(f, Leecher, k)|
  }

  lemma {:induction false} DistinctCovers(r: seq<Peer>, s: set<Peer>)
    requires NoDuplicates(r) && (forall p :: p in r ==> p in s) && |r| == |s|
    ensures forall p :: p in s ==> p in r
  {
    if r != [] {
      var n := |r| - 1;
      assert r[n] in r && r == r[..n] + [r[n]];
      DistinctCovers(r[..n], s - {r[n]});
    }
  }

  /** A selection that is not cut short is everybody, once per entry. */
  lemma SelectionComplete(f: Flat, k: SwarmKey, seeding: bool, n: int, r: seq<Peer>)
    requires IsSelection(f, k, seeding, n, r) && n > 0
    ensures |r| == Min(n, Available(f, k, seeding))
    ensures n >= Available(f, k, seeding) ==> forall p :: p in r <==> p in Wanted(f, k, seeding)
  {
    var first := if seeding then {} else PeersOf(f, Seeder, k);
    var leechers := PeersOf(f, Leecher, k);
    if n >= Available(f, k, seeding) {
      var m := |first|;
      DistinctCovers(r[..m], first);
      DistinctCovers(r[m..], leechers);
      assert r == r[..m] + r[m..];
    }
  }

  /** One fetch with a budget that covers the swarm adds exactly the swarm. */
  lemma FetchComplete(budget: int, a: FetchArgs, seeding: bool, store: Store, f: Flat)
    returns (r: seq<Peer>)
    requires Reads(store, f) && budget >= Available(f, SwarmKey(a.hash, a.v6), seeding)
    ensures r == if budget <= 0 then [] else PeersIn(store(a.hash, seeding, budget, a.v6))
    ensures budget > 0 ==> !store(a.hash, seeding, budget, a.v6).Failed?
    ensures |r| == Available(f, SwarmKey(a.hash, a.v6), seeding)
    ensures forall p :: p in r <==> p in Wanted(f, SwarmKey(a.hash, a.v6), seeding)
  {
    var k := SwarmKey(a.hash, a.v6);
    if budget <= 0 {
      r := [];
      assert PeersOf(f, Leecher, k) == {} && (seeding || PeersOf(f, Seeder, k) == {});
    } else {
      r := PeersIn(store(a.hash, seeding, budget, a.v6));
      SelectionComplete(f, k, seeding, budget, r);
    }
  }

  ghost function KeyOf(a: FetchArgs): SwarmKey { SwarmKey(a.hash, a.v6) }

  /** How many entries the first n fetches may give. */
  ghost function AvailableTo(f: Flat, seeding: bool, args: seq<FetchArgs>, n: nat): nat
    requires n <= |args|
  {
    if n == 0 then 0 else AvailableTo(f, seeding, args, n - 1) + Available(f, KeyOf(args[n - 1]), seeding)
  }

  /** Is the peer wanted by one of the first n fetches? */
  ghost predicate WantedBy(f: Flat, seeding: bool, args: seq<FetchArgs>, n: nat, p: Peer)
    requires n <= |args|
  {
    exists i :: 0 <= i < n && p in Wanted(f, KeyOf(args[i]), seeding)
  }

  /** NumWant covers all that the announce may be answered with; for a V2 hash the copies count too. */
  ghost predicate Covers(req: AnnounceRequest, f: Flat) {
    req.numWant >= AvailableTo(f, req.left == 0, FetchOrder(req), |FetchOrder(req)|)
  }

  /** Fetches with a budget that covers them gather exactly what each of them wants. */
  lemma {:induction false} FullGather(numWant: int, seeding: bool, args: seq<FetchArgs>, store: Store, f: Flat, n: nat)
    requires n <= |args| && Reads(store, f) && numWant >= AvailableTo(f, seeding, args, n)
    ensures var g := Gather([], numWant, seeding, args, store, n);
            && g.Gathered? && g.budget == numWant - AvailableTo(f, seeding, args, n)
            && forall p :: p in g.peers <==> WantedBy(f, seeding, args, n, p)
  {
    if n > 0 {
      FullGather(numWant, seeding, args, store, f, n - 1);
      var g := Gather([], numWant, seeding, args, store, n - 1);
      var r := FetchComplete(g.budget, args[n - 1], seeding, store, f);
      assert Gather([], numWant, seeding, args, store, n) ==
          Gathered(g.peers + r, g.budget - |r|) by { assert g.peers + [] == g.peers; }
      forall p: Peer ensures p in g.peers + r <==> WantedBy(f, seeding, args, n, p) {
        WantedByOneMore(f, seeding, args, n, p);
      }
    }
  }

  lemma WantedByOneMore(f: Flat, seeding: bool, args: seq<FetchArgs>, n: nat, p: Peer)
    requires 0 < n <= |args|
    ensures WantedBy(f, seeding, args, n, p) <==>
              WantedBy(f, seeding, args, n - 1, p) || p in Wanted(f, KeyOf(args[n - 1]), seeding)
  {
  }

  /** Whom an announcer wants to hear of in one family: under its hash, and under the truncated one of a V2 hash. */
  ghost function WantedIn(f: Flat, req: AnnounceRequest, v6: bool): set<Peer> {
    Wanted(f, SwarmKey(req.infoHash, v6), req.left == 0) + Wanted(f, SwarmKey(TruncateV1(req.infoHash), v6),
        req.left == 0)
  }

  lemma WantedByOrder(f: Flat, req: AnnounceRequest, p: Peer)
    ensures WantedBy(f, req.left == 0, FetchOrder(req), |FetchOrder(req)|, p) <==>
            p in WantedIn(f, req, false) || p in WantedIn(f, req, true)
  {
    var args, h, t, v6 := FetchOrder(req), req.infoHash, TruncateV1(req.infoHash), req.GetFirst().Is6();
    assert args[0] == FetchArgs(h, v6) && args[1] == FetchArgs(h, !v6);
    if |h| == INFO_HASH_V2_LEN {
      assert args[2] == FetchArgs(t, v6) && args[3] == FetchArgs(t, !v6);
    }
    assert forall i :: 0 <= i < |args| ==> args[i].hash == h || args[i].hash == t;
  }

  lemma WantedFamily(f: Flat, h: InfoHash, seeding: bool, v6: bool, p: Peer)
    requires Consistent(f) && p in Wanted(f, SwarmKey(h, v6), seeding)
    ensures IsV6(p) == v6
  {
    assert InFamily(f, Entry(Seeder, SwarmKey(h, v6), p)) && InFamily(f, Entry(Leecher, SwarmKey(h, v6), p));
  }

  lemma WantedInFamily(f: Flat, req: AnnounceRequest, v6: bool, p: Peer)
    requires Consistent(f) && p in WantedIn(f, req, v6)
    ensures IsV6(p) == v6
  {
    if p in Wanted(f, SwarmKey(req.infoHash, v6), req.left == 0) {
      WantedFamily(f, req.infoHash, req.left == 0, v6, p);
    } else {
      WantedFamily(f, TruncateV1(req.infoHash), req.left == 0, v6, p);
    }
  }

  /** Splitting all wanted peers gives back the wanted peers of each family. */
  lemma WantedSplits(peers: seq<Peer>, f: Flat, req: AnnounceRequest, v6: bool, p: Peer)
    requires Consistent(f)
    requires p in peers <==> p in WantedIn(f, req, false) || p in WantedIn(f, req, true)
    ensures p in Kept(peers, v6) <==> p in WantedIn(f, req, v6) && p.Addr().IsValid()
  {
    KeptSplits(peers, v6);
    assert p in Kept(peers, v6) <==> p in peers && InFamilyOf(p, v6);
    if p in WantedIn(f, req, false) { WantedInFamily(f, req, false, p); }
    if p in WantedIn(f, req, true) { WantedInFamily(f, req, true, p); }
  }

  /** An announce with a NumWant that covers it gets exactly the stored peers it wants, of both families. */
  lemma FullReply(req: AnnounceRequest, store: Store, f: Flat, v6: bool)
    requires Reads(store, f) && Consistent(f) && Covers(req, f)
    ensures var g := GatherAll(req, [], [], store);
            g.Gathered? && forall p :: p in Kept(g.peers, v6) <==> p in WantedIn(f, req, v6) && p.Addr().IsValid()
  {
    var args := FetchOrder(req);
    assert Prefilled(req, [], []) == [];
    FullGather(req.numWant, req.left == 0, args, store, f, |args|);
    var peers := GatherAll(req, [], [], store).peers;
    forall p: Peer ensures p in Kept(peers, v6) <==> p in WantedIn(f, req, v6) && p.Addr().IsValid() {
      WantedByOrder(f, req, p);
      WantedSplits(peers, f, req, v6, p);
    }
  }

  // ----------------------------------------------------------- the announcer alone

  ghost predicate NobodyIn(f: Flat, seeding: bool, args: seq<FetchArgs>, n: nat)
    requires n <= |args|
  {
    forall i :: 0 <= i < n ==> Wanted(f, KeyOf(args[i]), seeding) == {}
  }

  lemma NobodyAvailable(f: Flat, k: SwarmKey, seeding: bool)
    ensures Available(f, k, seeding) == 0 <==> Wanted(f, k, seeding) == {}
  {
    var seeders, leechers := PeersOf(f, Seeder, k), PeersOf(f, Leecher, k);
    if Wanted(f, k, seeding) == {} {
      assert leechers <= Wanted(f, k, seeding) && (seeding || seeders <= Wanted(f, k, seeding));
    }
  }

  /** One more fetch adds as many peers as the budget and the swarm allow. */
  lemma GatherSize(numWant: int, seeding: bool, args: seq<FetchArgs>, store: Store, f: Flat, n: nat,
                   peers: seq<Peer>, budget: int)
    requires 0 < n <= |args| && Reads(store, f) && budget > 0
    requires Gather([], numWant, seeding, args, store, n - 1) == Gathered(peers, budget)
    ensures var g, k := Gather([], numWant, seeding, args, store, n),
            Min(budget, Available(f, KeyOf(args[n - 1]), seeding));
            g.Gathered? && g.budget == budget - k && |g.peers| == |peers| + k
  {
    var a := args[n - 1];
    SelectionComplete(f, KeyOf(a), seeding, budget, store(a.hash, seeding, budget, a.v6).peers);
  }

  lemma {:induction false} NothingGathered(numWant: int, seeding: bool, args: seq<FetchArgs>, store: Store, f: Flat,
                                           n: nat)
    requires n <= |args| && Reads(store, f) && numWant > 0
    ensures var g := Gather([], numWant, seeding, args, store, n);
            && g.Gathered? && (|g.peers| == 0 <==> AvailableTo(f, seeding, args, n) == 0) &&
              g.budget == numWant - |g.peers|
  {
    if n > 0 {
      NothingGathered(numWant, seeding, args, store, f, n - 1);
      var g := Gather([], numWant, seeding, args, store, n - 1);
      if g.budget > 0 {
        GatherSize(numWant, seeding, args, store, f, n, g.peers, g.budget);
      }
    }
  }

  lemma {:induction false} NobodyAvailableTo(f: Flat, seeding: bool, args: seq<FetchArgs>, n: nat)
    requires n <= |args|
    ensures AvailableTo(f, seeding, args, n) == 0 <==> NobodyIn(f, seeding, args, n)
  {
    if n > 0 {
      NobodyAvailableTo(f, seeding, args, n - 1);
      NobodyAvailable(f, KeyOf(args[n - 1]), seeding);
    }
  }

  /**
   The announcer gets itself instead, and is counted, exactly when nobody is stored whom it wants or
   it wants no peers at all: with a NumWant of 0 also in a swarm of others.
   */
  lemma AloneIff(req: AnnounceRequest, store: Store, f: Flat)
    requires Reads(store, f)
    ensures var g := GatherAll(req, [], [], store);
            && g.Gathered?
            && (g.peers == [] <==> req.numWant == 0 || (WantedIn(f, req, false) == {} && WantedIn(f, req, true) == {}))
  {
    var args, seeding := FetchOrder(req), req.left == 0;
    assert Prefilled(req, [], []) == [];
    if req.numWant == 0 {
      assert Gather([], 0, seeding, args, store, 0) == Gathered([], 0);
      GatherExhausted([], 0, seeding, args, store, 0, |args|);
    } else {
      NothingGathered(req.numWant, seeding, args, store, f, |args|);
      NobodyAvailableTo(f, seeding, args, |args|);
      NobodyInOrder(f, req);
    }
  }

  lemma NobodyInOrder(f: Flat, req: AnnounceRequest)
    ensures NobodyIn(f, req.left == 0, FetchOrder(req), |FetchOrder(req)|) <==>
            WantedIn(f, req, false) == {} && WantedIn(f, req, true) == {}
  {
    var args, seeding := FetchOrder(req), req.left == 0;
    if NobodyIn(f, seeding, args, |args|) {
      forall p: Peer ensures p !in WantedIn(f, req, false) && p !in WantedIn(f, req, true) { WantedByOrder(f, req, p); }
    }
    if WantedIn(f, req, false) == {} && WantedIn(f, req, true) == {} {
      forall i | 0 <= i < |args| ensures Wanted(f, KeyOf(args[i]), seeding) == {} {
        forall p: Peer ensures p !in Wanted(f, KeyOf(args[i]), seeding) { WantedByOrder(f, req, p); }
      }
    }
  }
}
