/**
 The replies of BEP 15 that the UDP frontend writes, and a client that reads them.
 */
module UdpWriter {
  import opened ByteStrings
  import opened Bittorrent
  import opened Words
  import opened ResponseHook
  import opened Blocks
  import ResponseProperties

  const ANNOUNCE: nat := 1
  const SCRAPE: nat := 2
  const ANNOUNCE_V6: nat := 4
  /** time.Second in nanoseconds. */
  const SECOND: int := 1_000_000_000

  /** Go's division of a duration by a second. */
  function WholeSeconds(d: int): int { if d >= 0 then d / SECOND else -(-d / SECOND) }

  /** Its conversion to uint32. */
  function Seconds(d: int): (n: nat)
    ensures n < MOD32
  {
    WholeSeconds(d) % MOD32
  }

  function Header(action: nat, txID: Bytes): Bytes { BigEndian(action, 4) + txID }

  function PeerBytes(p: Peer): Bytes { p.Addr().AsSlice() + BigEndian(p.port, 2) }

  /** One block for every peer. */
  function PeerBlocks(peers: seq<Peer>): (bs: seq<Bytes>)
    ensures |bs| == |peers| && forall i :: 0 <= i < |bs| ==> bs[i] == PeerBytes(peers[i])
  {
    seq(|peers|, i requires 0 <= i < |peers| => PeerBytes(peers[i]))
  }

  function PeersBytes(peers: seq<Peer>): Bytes { Concat(PeerBlocks(peers)) }

  function AnnounceHead(txID: Bytes, interval: int, incomplete: nat, complete: nat, v6Action: bool): Bytes {
    Header(if v6Action then ANNOUNCE_V6 else ANNOUNCE, txID)
    + BigEndian(Seconds(interval), 4) + BigEndian(incomplete, 4) + BigEndian(complete, 4)
  }

  /** writeAnnounceResponse */
  method WriteAnnounceResponse(txID: Bytes, resp: AnnounceResponse, v6Action: bool, v6Peers: bool) returns (buf: Bytes)
    ensures buf == AnnounceHead(txID, resp.interval, resp.incomplete, resp.complete, v6Action)
                   + PeersBytes(if v6Peers then resp.ipv6Peers else resp.ipv4Peers)
  {
    buf := Header(if v6Action then ANNOUNCE_V6 else ANNOUNCE, txID);
    buf := buf + BigEndian(Seconds(resp.interval), 4);
    buf := buf + BigEndian(resp.incomplete, 4);
    buf := buf + BigEndian(resp.complete, 4);
    buf := WritePeers(buf, if v6Peers then resp.ipv6Peers else resp.ipv4Peers);
  }

  method WritePeers(head: Bytes, peers: seq<Peer>) returns (buf: Bytes)
    ensures buf == head + PeersBytes(peers)
  {
    buf := head;
    ghost var bs := PeerBlocks(peers);
    for i := 0 to |peers|
      invariant buf == head + Concat(bs[..i])
    {
      var addr, port := peers[i].Addr().AsSlice(), BigEndian(peers[i].port, 2);
      NextBlock(head, bs, i);
      ConcatAssociative(buf, addr, port);
      buf := buf + addr;
      buf := buf + port;
    }
    assert bs[..|bs|] == bs;
  }

  lemma NextBlock(head: Bytes, bs: seq<Bytes>, i: nat)
    requires i < |bs|
    ensures head + Concat(bs[..i + 1]) == head + Concat(bs[..i]) + bs[i]
  {
    assert bs[..i + 1] == bs[..i] + [bs[i]];
    ConcatAppend(bs[..i], bs[i]);
    ConcatAssociative(head, Concat(bs[..i]), bs[i]);
  }

  function Triple(s: Scrape): (b: Bytes)
    ensures |b| == 12
  {
    BigEndian(s.complete, 4) + BigEndian(s.snatches, 4) + BigEndian(s.incomplete, 4)
  }

  function Triples(data: seq<Scrape>): (bs: seq<Bytes>)
    ensures |bs| == |data| && forall i :: 0 <= i < |bs| ==> bs[i] == Triple(data[i])
  {
    seq(|data|, i requires 0 <= i < |data| => Triple(data[i]))
  }

  /** writeScrapeResponse */
  method WriteScrapeResponse(txID: Bytes, data: seq<Scrape>) returns (buf: Bytes)
    ensures buf == Header(SCRAPE, txID) + Concat(Triples(data))
  {
    buf := Header(SCRAPE, txID);
    ghost var bs := Triples(data);
    for i := 0 to |data|
      invariant buf == Header(SCRAPE, txID) + Concat(bs[..i])
    {
      var complete, snatches, incomplete :=
        BigEndian(data[i].complete, 4), BigEndian(data[i].snatches, 4), BigEndian(data[i].incomplete, 4);
      NextBlock(Header(SCRAPE, txID), bs, i);
      ConcatAssociative(buf, complete, snatches);
      ConcatAssociative(buf, complete + snatches, incomplete);
      buf := buf + complete;
      buf := buf + snatches;
      buf := buf + incomplete;
    }
    assert bs[..|bs|] == bs;
  }

  // -------------------------------------------------------------- the client

  function Width(v6: bool): nat { if v6 then 16 else 4 }

  /** The i-th (address, port) of an announce reply, behind its first 20 bytes. */
  function ReadPeer(block: Bytes): (Addr, nat)
    requires |block| >= 2
  {
    (AddrFromSlice(block[..|block| - 2]), Value(block[|block| - 2..]))
  }

  /** The address and port of a peer, as far as they fit on the wire: without a zone. */
  function Contact(p: Peer): (Addr, nat) { (AddrFromSlice(p.Addr().AsSlice()), p.port) }

  predicate OneFamily(peers: seq<Peer>, v6: bool) {
    forall i :: 0 <= i < |peers| ==> InFamilyOf(peers[i], v6)
  }

  /** The lists the response hook leaves are of one family each. */
  lemma KeptOneFamily(peers: seq<Peer>, v6: bool)
    ensures OneFamily(Kept(peers, v6), v6)
  {
    ResponseProperties.KeptSplits(peers, v6);
  }

  lemma PeerRoundTrip(p: Peer, v6: bool)
    requires InFamilyOf(p, v6)
    ensures |PeerBytes(p)| == Width(v6) + 2 && ReadPeer(PeerBytes(p)) == Contact(p)
  {
    PortRoundTrip(p.port);
    var a, port := p.Addr().AsSlice(), BigEndian(p.port, 2);
    assert (a + port)[..|a|] == a && (a + port)[|a|..] == port;
  }

  /** A list of one family is cut back into one block per peer, each with its contact. */
  lemma PeersRoundTrip(peers: seq<Peer>, v6: bool)
    requires OneFamily(peers, v6)
    ensures |PeersBytes(peers)| == (Width(v6) + 2) * |peers|
    ensures var bs := Chunks(PeersBytes(peers), Width(v6) + 2);
            |bs| == |peers| && forall i :: 0 <= i < |peers| ==> ReadPeer(bs[i]) == Contact(peers[i])
  {
    var bs := PeerBlocks(peers);
    forall i | 0 <= i < |bs| ensures |bs[i]| == Width(v6) + 2 && ReadPeer(bs[i]) == Contact(peers[i]) {
      PeerRoundTrip(peers[i], v6);
    }
    ConcatLength(bs, Width(v6) + 2);
    ChunksOfConcat(bs, Width(v6) + 2);
  }

  lemma Word32(n: nat)
    requires n < MOD32
    ensures Value(BigEndian(n, 4)) == n
  {
    assert Pow256(1) == 256 && Pow256(2) == 256 * Pow256(1) && Pow256(3) == 256 * Pow256(2);
    assert Pow256(4) == 256 * Pow256(3);
    ValueOfBigEndian(n, 4);
  }

  /** An announce reply decodes to what was written: 20 bytes, then 6 or 18 for every peer. */
  lemma AnnounceReplyRoundTrip(txID: Bytes, interval: int, incomplete: nat, complete: nat, v6Action: bool,
                               peers: seq<Peer>, v6: bool)
    requires |txID| == 4 && incomplete < MOD32 && complete < MOD32 && OneFamily(peers, v6)
    ensures var b := AnnounceHead(txID, interval, incomplete, complete, v6Action) + PeersBytes(peers);
            && |b| == 20 + (Width(v6) + 2) * |peers|
            && Value(b[..4]) == (if v6Action then ANNOUNCE_V6 else ANNOUNCE) && b[4..8] == txID
            && Value(b[8..12]) == Seconds(interval) && Value(b[12..16]) == incomplete && Value(b[16..20]) == complete
            && var bs := Chunks(b[20..], Width(v6) + 2);
               |bs| == |peers| && forall i :: 0 <= i < |peers| ==> ReadPeer(bs[i]) == Contact(peers[i])
  {
    PeersRoundTrip(peers, v6);
    HeadPositions(txID, interval, incomplete, complete, v6Action, PeersBytes(peers));
    Word32(if v6Action then ANNOUNCE_V6 else ANNOUNCE);
    Word32(Seconds(interval));
    Word32(incomplete);
    Word32(complete);
  }

  lemma HeadPositions(txID: Bytes, interval: int, incomplete: nat, complete: nat, v6Action: bool, tail: Bytes)
    requires |txID| == 4
    ensures var b := AnnounceHead(txID, interval, incomplete, complete, v6Action) + tail;
            && b[..4] == BigEndian(if v6Action then ANNOUNCE_V6 else ANNOUNCE, 4) && b[4..8] == txID
            && b[8..12] == BigEndian(Seconds(interval), 4) && b[12..16] == BigEndian(incomplete, 4)
            && b[16..20] == BigEndian(complete, 4) && b[20..] == tail
  {
  }

  /** What a client reads in one triple of a scrape reply: seeders, snatches, leechers. */
  predicate Carries(t: Bytes, seeders: nat, snatches: nat, leechers: nat) {
    |t| == 12 && Value(t[..4]) == seeders && Value(t[4..8]) == snatches && Value(t[8..]) == leechers
  }

  lemma TripleFields(s: Scrape)
    requires s.complete < MOD32 && s.snatches < MOD32 && s.incomplete < MOD32
    ensures Carries(Triple(s), s.complete, s.snatches, s.incomplete)
  {
    Parts3(BigEndian(s.complete, 4), BigEndian(s.snatches, 4), BigEndian(s.incomplete, 4));
    Word32(s.complete);
    Word32(s.snatches);
    Word32(s.incomplete);
  }

  lemma TripleAt(txID: Bytes, data: seq<Scrape>, i: nat)
    requires |txID| == 4 && i < |data|
    ensures var b := Header(SCRAPE, txID) + Concat(Triples(data));
            |b| == 8 + 12 * |data| && b[8 + 12 * i..20 + 12 * i] == Triple(data[i])
  {
    TwelveAt(Header(SCRAPE, txID), Triples(data), i);
  }

  /** The i-th triple of a scrape reply answers the i-th hash that was asked for. */
  lemma ScrapeReplyInOrder(txID: Bytes, data: seq<Scrape>, hashes: seq<InfoHash>, counter: Counter, i: nat)
    requires |txID| == 4 && Answers(data, hashes, counter) && i < |hashes|
    requires var c := ScrapeHash(hashes[i], counter).counts;
             c.leechers < MOD32 && c.seeders < MOD32 && c.snatched < MOD32
    ensures var b, c := Header(SCRAPE, txID) + Concat(Triples(data)), ScrapeHash(hashes[i], counter).counts;
            |b| == 8 + 12 * |hashes| && Carries(b[8 + 12 * i..20 + 12 * i], c.seeders, c.snatched, c.leechers)
  {
    TripleAt(txID, data, i);
    TripleFields(data[i]);
  }
}
