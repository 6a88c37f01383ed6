/**
 The hook that answers announces and scrapes: it gathers peers from the reply so far and
 from the store within the budget of the request, drops duplicates and splits them by
 address family.
 */
module ResponseHook {
  import opened Bittorrent
  import opened FlatStore
  import opened Words

  /** What PeerStorage.AnnouncePeers answers: peers, that it knows no such swarm, or a failure. */
  datatype Answer = Peers(peers: seq<Peer>) | Unknown | Failed

  /** (info hash, for a seeder, budget, IPv6) to an answer. */
  type Store = (InfoHash, bool, int, bool) -> Answer

  datatype FetchArgs = FetchArgs(hash: InfoHash, v6: bool)

  class AnnounceResponse {
    var complete: nat
    var incomplete: nat
    var interval: int
    var minInterval: int
    var ipv4Peers: seq<Peer>
    var ipv6Peers: seq<Peer>

    constructor ()
      ensures complete == incomplete == 0 && interval == minInterval == 0 && ipv4Peers == ipv6Peers == []
    {
      complete, incomplete, interval, minInterval := 0, 0, 0, 0;
      ipv4Peers, ipv6Peers := [], [];
    }
  }

  // ------------------------------------------------------------ specification

  /** The family of the announcer first; for a V2 hash the truncated hash after it. */
  function FetchOrder(req: AnnounceRequest): seq<FetchArgs> {
    var h, v6First := req.infoHash, req.GetFirst().Is6();
    var own := [FetchArgs(h, v6First), FetchArgs(h, !v6First)];
    if |h| == INFO_HASH_V2_LEN then
      own + [FetchArgs(TruncateV1(h), v6First), FetchArgs(TruncateV1(h), !v6First)]
    else own
  }

  function Prefilled(req: AnnounceRequest, ipv4: seq<Peer>, ipv6: seq<Peer>): (r: seq<Peer>)
    ensures |r| == Min(req.numWant, |ipv4| + |ipv6|)
  {
    var all := if req.GetFirst().Is6() then ipv6 + ipv4 else ipv4 + ipv6;
    if |all| > req.numWant then all[..req.numWant] else all
  }

  function PeersIn(a: Answer): seq<Peer> {
    if a.Peers? then a.peers else []
  }

  datatype Gathering = Gathered(peers: seq<Peer>, budget: int) | Broken

  /** The first n fetches, each made only while the budget lasts. */
  function Gather(start: seq<Peer>, numWant: int, seeding: bool, args: seq<FetchArgs>, store: Store, n: nat): Gathering
    requires n <= |args|
  {
    if n == 0 then Gathered(start, numWant - |start|)
    else
      match Gather(start, numWant, seeding, args, store, n - 1)
      case Broken => Broken
      case Gathered(peers, budget) =>
        if budget <= 0 then Gathered(peers, budget)
        else
          var a := store(args[n - 1].hash, seeding, budget, args[n - 1].v6);
          if a.Failed? then Broken else Gathered(peers + PeersIn(a), budget - |PeersIn(a)|)
  }

  function GatherAll(req: AnnounceRequest, ipv4: seq<Peer>, ipv6: seq<Peer>, store: Store): Gathering {
    var args := FetchOrder(req);
    Gather(Prefilled(req, ipv4, ipv6), req.numWant, req.left == 0, args, store, |args|)
  }

  predicate InFamilyOf(p: Peer, v6: bool) {
    if v6 then p.Addr().Is6() else p.Addr().Is4()
  }

  /** The peers of one family, each at its first occurrence. */
  function Kept(peers: seq<Peer>, v6: bool): seq<Peer> {
    if peers == [] then []
    else
      var rest, p := peers[..|peers| - 1], peers[|peers| - 1];
      if p !in rest && InFamilyOf(p, v6) then Kept(rest, v6) + [p] else Kept(rest, v6)
  }

  // ------------------------------------------------------------------- methods

  /** The loop over the fetches. */
  method FetchPeers(start: seq<Peer>, numWant: int, seeding: bool, args: seq<FetchArgs>, store: Store)
    returns (err: bool, peers: seq<Peer>)
    ensures var g := Gather(start, numWant, seeding, args, store, |args|);
            (err <==> g.Broken?) && (!err ==> peers == g.peers)
  {
    peers, err := start, false;
    var maxPeers := numWant - |start|;
    for i := 0 to |args|
      invariant Gather(start, numWant, seeding, args, store, i) == Gathered(peers, maxPeers)
    {
      if maxPeers <= 0 {
        GatherExhausted(start, numWant, seeding, args, store, i, |args|);
        break;
      }
      var storePeers := store(args[i].hash, seeding, maxPeers, args[i].v6);
      if storePeers.Failed? {
        GatherBroken(start, numWant, seeding, args, store, i + 1, |args|);
        return true, peers;
      }
      peers := peers + PeersIn(storePeers);
      maxPeers := maxPeers - |PeersIn(storePeers)|;
    }
  }

  lemma {:induction false} GatherExhausted(start: seq<Peer>, numWant: int, seeding: bool, args: seq<FetchArgs>,
                                           store: Store,
                                           i: nat, n: nat)
    requires i <= n <= |args|
    requires var g := Gather(start, numWant, seeding, args, store, i); g.Gathered? && g.budget <= 0
    ensures Gather(start, numWant, seeding, args, store, n) == Gather(start, numWant, seeding, args, store, i)
    decreases n
  {
    if i < n { GatherExhausted(start, numWant, seeding, args, store, i, n - 1); }
  }

  lemma {:induction false} GatherBroken(start: seq<Peer>, numWant: int, seeding: bool, args: seq<FetchArgs>,
                                        store: Store,
                                           i: nat, n: nat)
    requires i <= n <= |args|
    requires Gather(start, numWant, seeding, args, store, i).Broken?
    ensures Gather(start, numWant, seeding, args, store, n).Broken?
    decreases n
  {
    if i < n { GatherBroken(start, numWant, seeding, args, store, i, n - 1); }
  }

  /** The loop that drops duplicates and splits the families. */
  method SplitUnique(peers: seq<Peer>, resp: AnnounceResponse)
    modifies resp`ipv4Peers, resp`ipv6Peers
    ensures resp.ipv4Peers == Kept(peers, false) && resp.ipv6Peers == Kept(peers, true)
  {
    var uniquePeers: set<Peer> := {};
    resp.ipv4Peers, resp.ipv6Peers := [], [];
    for i := 0 to |peers|
      invariant resp.ipv4Peers == Kept(peers[..i], false) && resp.ipv6Peers == Kept(peers[..i], true)
      invariant forall p :: p in uniquePeers <==> p in peers[..i] && p.Addr().IsValid()
    {
      var p := peers[i];
      assert peers[..i + 1] == peers[..i] + [p] && peers[..i + 1][..i] == peers[..i];
      if p !in uniquePeers {
        if p.Addr().Is6() {
          resp.ipv6Peers := resp.ipv6Peers + [p];
          uniquePeers := uniquePeers + {p};
        } else if p.Addr().Is4() {
          resp.ipv4Peers := resp.ipv4Peers + [p];
          uniquePeers := uniquePeers + {p};
        }
      }
    }
    assert peers[..|peers|] == peers;
  }

  /** What goes into a reply: the announcer alone when nothing was gathered, counted once. */
  method Fill(req: AnnounceRequest, resp: AnnounceResponse, gathered: seq<Peer>)
    modifies resp`complete, resp`incomplete, resp`ipv4Peers, resp`ipv6Peers
    ensures var alone := gathered == [];
            var peers := if alone then req.Peers() else gathered;
            && resp.ipv4Peers == Kept(peers, false) && resp.ipv6Peers == Kept(peers, true)
            && resp.complete == (if alone && req.left == 0 then Add32(old(resp.complete), 1) else old(resp.complete))
            && resp.incomplete == (if alone && req.left != 0 then Add32(old(resp.incomplete),
              1) else old(resp.incomplete))
  {
    var peers := gathered;
    if |peers| == 0 {
      if req.left == 0 {
        resp.complete := Add32(resp.complete, 1);
      } else {
        resp.incomplete := Add32(resp.incomplete, 1);
      }
      peers := peers + req.Peers();
      assert peers == req.Peers();
    }
    SplitUnique(peers, resp);
  }

  /** The peers that are in the reply already, up to NumWant. */
  method Prefill(req: AnnounceRequest, resp: AnnounceResponse) returns (peers: seq<Peer>)
    ensures peers == Prefilled(req, resp.ipv4Peers, resp.ipv6Peers)
  {
    var v6First := req.GetFirst().Is6();
    peers := if v6First then resp.ipv6Peers + resp.ipv4Peers else resp.ipv4Peers + resp.ipv6Peers;
    if |peers| > req.numWant {
      peers := peers[..req.numWant];
    }
  }

  /** responseHook.appendPeers */
  method AppendPeers(req: AnnounceRequest, resp: AnnounceResponse, store: Store) returns (err: bool)
    modifies resp`complete, resp`incomplete, resp`ipv4Peers, resp`ipv6Peers
    ensures var g := GatherAll(req, old(resp.ipv4Peers), old(resp.ipv6Peers), store);
            && (err <==> g.Broken?)
            && (err ==> unchanged(resp))
            && (!err ==>
                  var alone := g.peers == [];
                  var peers := if alone then req.Peers() else g.peers;
                  && resp.ipv4Peers == Kept(peers, false) && resp.ipv6Peers == Kept(peers, true)
                  && resp.complete == (if alone &&
                    req.left == 0 then Add32(old(resp.complete), 1) else old(resp.complete))
                  && resp.incomplete == (if alone &&
                    req.left != 0 then Add32(old(resp.incomplete), 1) else old(resp.incomplete)))
  {
    var peers := Prefill(req, resp);
    err, peers := FetchPeers(peers, req.numWant, req.left == 0, FetchOrder(req), store);
    if !err {
      Fill(req, resp, peers);
    }
  }

  // ------------------------------------------------------------------- scrapes

  datatype Counts = Counts(leechers: nat, seeders: nat, snatched: nat)

  datatype ScrapeAnswer = Counted(counts: Counts) | ScrapeFailed

  /** PeerStorage.ScrapeSwarm */
  type Counter = InfoHash -> ScrapeAnswer

  datatype Scrape = Scrape(infoHash: InfoHash, snatches: nat, complete: nat, incomplete: nat)

  /** responseHook.scrape: a V2 hash is counted together with its truncated form. */
  function ScrapeHash(h: InfoHash, counter: Counter): ScrapeAnswer {
    match counter(h)
    case ScrapeFailed => ScrapeFailed
    case Counted(c) =>
      if |h| != INFO_HASH_V2_LEN then Counted(c)
      else
        match counter(TruncateV1(h))
        case ScrapeFailed => ScrapeFailed
        case Counted(d) =>
          Counted(Counts(Add32(c.leechers, d.leechers), Add32(c.seeders, d.seeders), Add32(c.snatched, d.snatched)))
  }

  /** The n-th entry answers the n-th hash. */
  predicate Answers(data: seq<Scrape>, hashes: seq<InfoHash>, counter: Counter) {
    && |data| == |hashes|
    && forall i :: 0 <= i < |data| ==>
         && ScrapeHash(hashes[i], counter).Counted?
         && var c := ScrapeHash(hashes[i], counter).counts;
            data[i] == Scrape(hashes[i], c.snatched, c.seeders, c.leechers)
  }

  class ScrapeResponse {
    var data: seq<Scrape>

    constructor (data: seq<Scrape>)
      ensures this.data == data
    {
      this.data := data;
    }
  }

  /** responseHook.HandleScrape: one answer per hash behind what is there, up to the first count that fails. */
  method HandleScrape(hashes: seq<InfoHash>, resp: ScrapeResponse, skip: bool, counter: Counter) returns (err: bool)
    modifies resp
    ensures skip ==> !err && unchanged(resp)
    ensures !skip ==> (err <==> exists i :: 0 <= i < |hashes| && ScrapeHash(hashes[i], counter).ScrapeFailed?)
    ensures !skip ==>
              var n := |resp.data| - |old(resp.data)|;
              && 0 <= n <= |hashes| && resp.data[..|old(resp.data)|] == old(resp.data)
              && Answers(resp.data[|old(resp.data)|..], hashes[..n], counter)
              && (if err then n < |hashes| && ScrapeHash(hashes[n], counter).ScrapeFailed? else n == |hashes|)
  {
    if skip {
      return false;
    }
    ghost var start := resp.data;
    ghost var added: seq<Scrape> := [];
    for i := 0 to |hashes|
      invariant resp.data == start + added && Answers(added, hashes[..i], counter)
    {
      match ScrapeHash(hashes[i], counter) {
        case ScrapeFailed => return true;
        case Counted(c) =>
          resp.data := resp.data + [Scrape(hashes[i], c.snatched, c.seeders, c.leechers)];
          added := added + [Scrape(hashes[i], c.snatched, c.seeders, c.leechers)];
      }
    }
    err := false;
  }

  /** responseHook.HandleAnnounce: the counts of the swarm, then its peers. */
  method HandleAnnounce(req: AnnounceRequest, resp: AnnounceResponse, skip: bool, counter: Counter, store: Store)
    returns (err: bool)
    modifies resp`complete, resp`incomplete, resp`ipv4Peers, resp`ipv6Peers
    ensures skip ==> !err && unchanged(resp)
    ensures !skip ==>
              (err <==> || ScrapeHash(req.infoHash, counter).ScrapeFailed?
                        || GatherAll(req, old(resp.ipv4Peers), old(resp.ipv6Peers), store).Broken?)
    ensures !skip && !err ==>
              var c := ScrapeHash(req.infoHash, counter).counts;
              var g := GatherAll(req, old(resp.ipv4Peers), old(resp.ipv6Peers), store);
              && g.Gathered?
              && var alone := g.peers == [];
                 var peers := if alone then req.Peers() else g.peers;
                 && resp.ipv4Peers == Kept(peers, false) && resp.ipv6Peers == Kept(peers, true)
                 && resp.complete == (if alone && req.left == 0 then Add32(c.seeders, 1) else c.seeders)
                 && resp.incomplete == (if alone && req.left != 0 then Add32(c.leechers, 1) else c.leechers)
  {
    if skip {
      return false;
    }
    match ScrapeHash(req.infoHash, counter) {
      case ScrapeFailed => return true;
      case Counted(c) =>
        resp.incomplete, resp.complete := c.leechers, c.seeders;
    }
    err := AppendPeers(req, resp, store);
  }
}
