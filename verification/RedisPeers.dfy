/**
 Peers as fields of a Redis hash, and the query for the peers of a swarm.
 */
module RedisPeers {
  import opened ByteStrings
  import opened Bittorrent
  import RedisKeys
  import FlatStore

  const PEER_MINIMUM_LEN := 26

  /** PackPeer: the ID, the port and the address, 26 or 38 bytes. */
  function PackPeer(p: Peer): Bytes { p.id + BigEndian(p.port, 2) + p.Addr().AsSlice() }

  datatype Unpacked = Unpacked(peer: Peer) | InvalidSize | InvalidIP

  /** UnpackPeer */
  function UnpackPeer(data: Bytes): Unpacked {
    if |data| < PEER_MINIMUM_LEN then InvalidSize
    else
      var addr := AddrFromSlice(data[22..]);
      if addr.IsValid() then PortInRange(data[20..22]); Unpacked(Peer(data[..20], addr.Unmap(), Value(data[20..22])))
      else InvalidIP
  }

  lemma PortInRange(b: Bytes)
    requires |b| == 2
    ensures Value(b) < 0x1_0000
  {
    assert Pow256(1) == 256 && Pow256(2) == 256 * Pow256(1);
  }

  /** The address that is left of a peer: unmapped, without a zone. */
  function Bare(a: Addr): Addr { AddrFromSlice(a.Unmap().AsSlice()) }

  lemma BareUnmapped(a: Addr)
    ensures Bare(a).IsValid() <==> a.IsValid()
    ensures Bare(a).Unmap() == Bare(a)
    ensures Bare(a) == a <==> a.Unmap() == a && (a.V6? ==> a.zone == [])
  {
  }

  /** A packed peer comes back without the zone of its address, and not at all when it has no address. */
  lemma UnpackPacked(p: Peer)
    ensures UnpackPeer(PackPeer(p)) == if p.ip.IsValid() then Unpacked(Peer(p.id, Bare(p.ip), p.port)) else InvalidSize
  {
    var port, a := BigEndian(p.port, 2), p.Addr().AsSlice();
    Parts3(p.id, port, a);
    PortRoundTrip(p.port);
    BareUnmapped(p.ip);
  }

  /** It comes back as it was exactly when the address is valid, not mapped and has no zone. */
  lemma RoundTripIff(p: Peer)
    ensures UnpackPeer(PackPeer(p)) == Unpacked(p) <==> Bare(p.ip) == p.ip && p.ip.IsValid()
  {
    UnpackPacked(p);
  }

  /** Two peers share a field exactly when ID, port and bare address agree: no other peers are merged. */
  lemma PackInjective(p: Peer, q: Peer)
    ensures PackPeer(p) == PackPeer(q) <==> p.id == q.id && p.port == q.port && Bare(p.ip) == Bare(q.ip)
  {
    Parts3(p.id, BigEndian(p.port, 2), p.Addr().AsSlice());
    Parts3(q.id, BigEndian(q.port, 2), q.Addr().AsSlice());
    PortRoundTrip(p.port);
    PortRoundTrip(q.port);
    BareSlice(p.ip, q.ip);
  }

  lemma BareSlice(a: Addr, b: Addr)
    ensures Bare(a) == Bare(b) <==> a.Unmap().AsSlice() == b.Unmap().AsSlice()
  {
  }

  // --------------------------------------------------------------------- queries

  function DecodedWith(records: seq<Bytes>, unpack: Bytes -> Unpacked): seq<Peer> {
    if records == [] then []
    else
      var n := |records| - 1;
      DecodedWith(records[..n], unpack) + (match unpack(records[n]) case Unpacked(p) => [p] case _ => [])
  }

  /** The peers of the records that decode, in order. */
  function Decoded(records: seq<Bytes>): seq<Peer> { DecodedWith(records, UnpackPeer) }

  datatype Members = Records(records: seq<Bytes>) | Unavailable

  /** What the store answers for a key and a count. */
  type MembersFn = (Bytes, int) -> Members

  datatype Outcome = Found | NotExist | Failed

  function QueryKeys(h: InfoHash, forSeeder: bool, v6: bool): seq<Bytes> {
    if forSeeder then [RedisKeys.InfoHashKey(h, false, v6)]
    else [RedisKeys.InfoHashKey(h, true, v6), RedisKeys.InfoHashKey(h, false, v6)]
  }

  datatype Gathered = Gathered(peers: seq<Peer>, failed: bool)

  /** Key by key, asking for what is still missing. */
  function Gather(keys: seq<Bytes>, maxCount: int, members: MembersFn): Gathered {
    if keys == [] then Gathered([], false)
    else
      match members(keys[0], maxCount)
      case Unavailable => Gathered([], true)
      case Records(records) =>
        var peers := Decoded(records);
        if maxCount - |peers| <= 0 then Gathered(peers, false)
        else
          var rest := Gather(keys[1..], maxCount - |peers|, members);
          Gathered(peers + rest.peers, rest.failed)
  }

  /** parsePeersList */
  method ParsePeersList(result: Members) returns (peers: seq<Peer>, err: bool)
    ensures err == result.Unavailable?
    ensures peers == if result.Records? then Decoded(result.records) else []
  {
    peers, err := [], result.Unavailable?;
    if result.Records? {
      for i := 0 to |result.records|
        invariant peers == Decoded(result.records[..i])
      {
        assert result.records[..i + 1][..i] == result.records[..i];
        var u := UnpackPeer(result.records[i]);
        if u.Unpacked? {
          peers := peers + [u.peer];
        }
      }
      assert result.records[..|result.records|] == result.records;
    }
  }

  /** GetPeers: an error is reported only when there is nothing to return. */
  method GetPeers(h: InfoHash, forSeeder: bool, maxCount: int, v6: bool, members: MembersFn) returns (out: seq<Peer>,
                  err: Outcome)
    ensures var g := Gather(QueryKeys(h, forSeeder, v6), maxCount, members);
            out == g.peers && err == if out != [] then Found else if g.failed then Failed else NotExist
  {
    var keys := [RedisKeys.InfoHashKey(h, false, v6)];
    if !forSeeder {
      keys := [RedisKeys.InfoHashKey(h, true, v6)];
      keys := keys + [RedisKeys.InfoHashKey(h, false, v6)];
    }
    var failed;
    out, failed := GetAll(keys, maxCount, members);
    err := if out != [] then Found else if failed then Failed else NotExist;
  }

  method GetAll(keys: seq<Bytes>, maxCount: int, members: MembersFn) returns (out: seq<Peer>, failed: bool)
    ensures Gathered(out, failed) == Gather(keys, maxCount, members)
  {
    out, failed := [], false;
    var budget, i := maxCount, 0;
    while i < |keys|
      invariant 0 <= i <= |keys| && !failed
      invariant var rest := Gather(keys[i..], budget, members);
                Gather(keys, maxCount, members) == Gathered(out + rest.peers, rest.failed)
    {
      var peers, err := ParsePeersList(members(keys[i], budget));
      GatherStep(keys, i, budget, members, out);
      budget := budget - |peers|;
      out := out + peers;
      if err || budget <= 0 {
        failed := err;
        return;
      }
      i := i + 1;
    }
  }

  /** One key further on, with the peers so far in front. */
  lemma GatherStep(keys: seq<Bytes>, i: nat, budget: int, members: MembersFn, out: seq<Peer>)
    requires i < |keys|
    ensures var g, m := Gather(keys[i..], budget, members), members(keys[i], budget);
            if m.Unavailable? then g == Gathered([], true)
            else
              var peers := Decoded(m.records);
              if budget - |peers| <= 0 then g == Gathered(peers, false)
              else
                var rest := Gather(keys[i + 1..], budget - |peers|, members);
                out + g.peers == (out + peers) + rest.peers && g.failed == rest.failed
  {
    assert keys[i..][0] == keys[i] && keys[i..][1..] == keys[i + 1..];
  }

  /** A store that keeps to a positive count. */
  ghost predicate Bounded(members: MembersFn) {
    forall key, count :: count >= 1 && members(key, count).Records? ==> |members(key, count).records| <= count
  }

  lemma {:induction false} DecodedLength(records: seq<Bytes>, unpack: Bytes -> Unpacked)
    ensures |DecodedWith(records, unpack)| <= |records|
  {
    if records != [] {
      DecodedLength(records[..|records| - 1], unpack);
    }
  }

  /** However many keys are asked, no more peers come back than were wanted. */
  lemma {:induction false} GatherWithin(keys: seq<Bytes>, maxCount: int, members: MembersFn)
    requires maxCount >= 1 && Bounded(members)
    ensures |Gather(keys, maxCount, members).peers| <= maxCount
  {
    if keys != [] && members(keys[0], maxCount).Records? {
      var records := members(keys[0], maxCount).records;
      DecodedLength(records, UnpackPeer);
      if maxCount - |Decoded(records)| > 0 {
        GatherWithin(keys[1..], maxCount - |Decoded(records)|, members);
      }
    }
  }

  // ------------------------------------------------------ agreement with a flat store

  /** A peer as the frontends deliver it: its address unmapped and without a zone. */
  predicate Plain(p: Peer) { p.ip.IsValid() && Bare(p.ip) == p.ip }

  /** The fields of the hash that holds these peers. */
  function Fields(peers: set<Peer>): set<Bytes> { set p | p in peers :: PackPeer(p) }

  /** HRANDFIELD with a positive count: distinct fields of the hash, as many as there are up to the count. */
  predicate Draws(records: seq<Bytes>, peers: set<Peer>, count: int) {
    && |records| == FlatStore.Min(count, |peers|)
    && FlatStore.NoDuplicates(records)
    && forall i :: 0 <= i < |records| ==> records[i] in Fields(peers)
  }

  ghost predicate Serves(members: MembersFn, key: Bytes, peers: set<Peer>) {
    && (forall p :: p in peers ==> Plain(p))
    && forall count {:trigger Answered(members(key, count), peers, count)} :: count >= 1 ==>
      Answered(members(key, count), peers, count)
  }

  predicate Answered(m: Members, peers: set<Peer>, count: int) { m.Records? && Draws(m.records, peers, count) }

  predicate FieldFor(r: Bytes, peers: set<Peer>) {
    var u := UnpackPeer(r);
    u.Unpacked? && u.peer in peers && PackPeer(u.peer) == r
  }

  lemma FieldsUnpack(r: Bytes, peers: set<Peer>)
    requires r in Fields(peers) && forall p :: p in peers ==> Plain(p)
    ensures FieldFor(r, peers)
  {
    var p :| p in peers && PackPeer(p) == r;
    UnpackPacked(p);
  }

  /** Records that unpack to different peers of a set. */
  predicate AllUnpack(records: seq<Bytes>, unpack: Bytes -> Unpacked, peers: set<Peer>) {
    && (forall i :: 0 <= i < |records| ==> unpack(records[i]).Unpacked? && unpack(records[i]).peer in peers)
    && (forall i, j :: 0 <= i < j < |records| ==> unpack(records[i]) != unpack(records[j]))
  }

  /** They are decoded one by one. */
  lemma {:induction false} AllDecoded(records: seq<Bytes>, unpack: Bytes -> Unpacked, peers: set<Peer>)
    requires AllUnpack(records, unpack, peers)
    ensures var d := DecodedWith(records, unpack);
            |d| == |records| && forall i :: 0 <= i < |d| ==> unpack(records[i]) == Unpacked(d[i])
  {
    if records != [] {
      AllDecoded(records[..|records| - 1], unpack, peers);
    }
  }

  /** Distinct peers of a set, as many as there are up to the count. */
  ghost predicate Drawn(d: seq<Peer>, peers: set<Peer>, count: int) {
    |d| == FlatStore.Min(count, |peers|) && FlatStore.NoDuplicates(d) && forall p :: p in d ==> p in peers
  }

  lemma AnsweredPeers(m: Members, peers: set<Peer>, count: int)
    requires Answered(m, peers, count) && forall p :: p in peers ==> Plain(p)
    ensures Drawn(Decoded(m.records), peers, count)
  {
    DrawnUnpack(m.records, peers);
    AllDecoded(m.records, UnpackPeer, peers);
  }

  lemma DrawnUnpack(records: seq<Bytes>, peers: set<Peer>)
    requires FlatStore.NoDuplicates(records) && forall p :: p in peers ==> Plain(p)
    requires forall i :: 0 <= i < |records| ==> records[i] in Fields(peers)
    ensures AllUnpack(records, UnpackPeer, peers)
  {
    forall i | 0 <= i < |records| ensures FieldFor(records[i], peers) {
      FieldsUnpack(records[i], peers);
    }
    forall i, j | 0 <= i < j < |records| ensures UnpackPeer(records[i]) != UnpackPeer(records[j]) {
      assert FieldFor(records[i], peers) && FieldFor(records[j], peers);
    }
  }

  /**
   The Redis store answers a request for at least one peer as the flat store, and so the memory
   store, may: seeders first, leechers up to what is missing, none twice, as many as there are.
   */
  lemma QuerySelects(h: InfoHash, forSeeder: bool, numWant: int, v6: bool, members: MembersFn, seeders: set<Peer>,
                     leechers: set<Peer>)
    requires numWant >= 1
    requires Serves(members, RedisKeys.InfoHashKey(h, true, v6), seeders)
    requires Serves(members, RedisKeys.InfoHashKey(h, false, v6), leechers)
    ensures var g := Gather(QueryKeys(h, forSeeder, v6), numWant, members);
            !g.failed && FlatStore.Selects(seeders, leechers, forSeeder, numWant, g.peers)
  {
    var lk := RedisKeys.InfoHashKey(h, false, v6);
    if forSeeder {
      LastQuery(lk, numWant, members, leechers);
      var r := Gather([lk], numWant, members).peers;
      assert r[0..] == r && r[..0] == [];
    } else {
      BothQueries(RedisKeys.InfoHashKey(h, true, v6), lk, numWant, members, seeders, leechers);
    }
  }

  lemma BothQueries(sk: Bytes, lk: Bytes, numWant: int, members: MembersFn, seeders: set<Peer>, leechers: set<Peer>)
    requires numWant >= 1 && Serves(members, sk, seeders) && Serves(members, lk, leechers)
    ensures var g := Gather([sk, lk], numWant, members);
            !g.failed && FlatStore.Selects(seeders, leechers, false, numWant, g.peers)
  {
    FirstQuery(sk, numWant, members, seeders);
    var d := Decoded(members(sk, numWant).records);
    if numWant > |d| {
      LastQuery(lk, numWant - |d|, members, leechers);
    }
    BothDrawn(sk, lk, numWant, members, seeders, leechers, d);
  }

  lemma BothDrawn(sk: Bytes, lk: Bytes, numWant: int, members: MembersFn, seeders: set<Peer>, leechers: set<Peer>,
                  d: seq<Peer>)
    requires numWant >= 1 && members(sk, numWant).Records? && d == Decoded(members(sk, numWant).records)
    requires Drawn(d, seeders, numWant)
    requires numWant > |d| ==>
               var g := Gather([lk], numWant - |d|, members);
               !g.failed && Drawn(g.peers, leechers, numWant - |d|)
    ensures var g := Gather([sk, lk], numWant, members);
            !g.failed && FlatStore.Selects(seeders, leechers, false, numWant, g.peers)
  {
    TwoKeys(sk, lk, numWant, members, d);
    Joined(seeders, leechers, numWant, d, if numWant > |d| then Gather([lk], numWant - |d|, members).peers else []);
  }

  lemma FirstQuery(key: Bytes, count: int, members: MembersFn, peers: set<Peer>)
    requires count >= 1 && Serves(members, key, peers)
    ensures members(key, count).Records? && Drawn(Decoded(members(key, count).records), peers, count)
  {
    assert Answered(members(key, count), peers, count);
    AnsweredPeers(members(key, count), peers, count);
  }

  lemma TwoKeys(sk: Bytes, lk: Bytes, numWant: int, members: MembersFn, d: seq<Peer>)
    requires members(sk, numWant).Records? && d == Decoded(members(sk, numWant).records)
    ensures Gather([sk, lk], numWant, members) ==
              if numWant <= |d| then Gathered(d + [], false)
              else var rest := Gather([lk], numWant - |d|, members); Gathered(d + rest.peers, rest.failed)
  {
    assert [sk, lk][1..] == [lk] && d + [] == d;
  }

  lemma Joined(seeders: set<Peer>, leechers: set<Peer>, numWant: int, s: seq<Peer>, l: seq<Peer>)
    requires numWant >= 1 && Drawn(s, seeders, numWant) && Drawn(l, leechers, numWant - |s|)
    ensures FlatStore.Selects(seeders, leechers, false, numWant, s + l)
  {
    assert (s + l)[..|s|] == s && (s + l)[|s|..] == l;
  }

  lemma LastQuery(key: Bytes, count: int, members: MembersFn, peers: set<Peer>)
    requires count >= 1 && Serves(members, key, peers)
    ensures var g := Gather([key], count, members); !g.failed && Drawn(g.peers, peers, count)
  {
    FirstQuery(key, count, members, peers);
    OneKey(key, count, members);
  }

  lemma OneKey(key: Bytes, count: int, members: MembersFn)
    requires members(key, count).Records?
    ensures Gather([key], count, members) == Gathered(Decoded(members(key, count).records), false)
  {
    var d := Decoded(members(key, count).records);
    assert [key][1..] == [] && d + [] == d;
  }
}
