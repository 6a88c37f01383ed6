/**
 The announces that the HTTP frontend answers, in compact form (BEP 23).
 */
module HttpWriter {
  import opened ByteStrings
  import opened Blocks
  import opened Bittorrent
  import opened Bencode
  import opened ResponseHook
  import UdpWriter

  const COMPLETE: Bytes := "complete"
  const DOWNLOADED: Bytes := "downloaded"
  const INCOMPLETE: Bytes := "incomplete"
  const INTERVAL: Bytes := "interval"
  const MIN_INTERVAL: Bytes := "min interval"
  const PEERS: Bytes := "peers"
  const PEERS6: Bytes := "peers6"

  // The same keys as they are written, with their length.
  const COMPLETE_TEXT: Bytes := "8:complete"
  const DOWNLOADED_TEXT: Bytes := "10:downloaded"
  const INCOMPLETE_TEXT: Bytes := "10:incomplete"
  const INTERVAL_TEXT: Bytes := "8:interval"
  const MIN_INTERVAL_TEXT: Bytes := "12:min interval"
  const PEERS_TEXT: Bytes := "5:peers"
  const PEERS6_TEXT: Bytes := "6:peers6"

  // ------------------------------------------------------------------- intervals

  /** The interval that is written and kept in the response. */
  function IntervalOf(interval: int): int { if interval > 0 then UdpWriter.WholeSeconds(interval) else interval }

  /** The minimal interval is looked at only when the interval came to a second or more. */
  function MinIntervalOf(interval: int, minInterval: int): int {
    if IntervalOf(interval) > 0 then UdpWriter.WholeSeconds(minInterval) else minInterval
  }

  /** Both are written in seconds exactly when the interval is a second or more, or there was nothing to convert. */
  lemma WrittenInSeconds(interval: int, minInterval: int)
    requires interval >= 0 && minInterval >= 0
    ensures IntervalOf(interval) == UdpWriter.WholeSeconds(interval)
    ensures MinIntervalOf(interval, minInterval) == UdpWriter.WholeSeconds(minInterval) <==>
            interval >= UdpWriter.SECOND || minInterval == 0
  {
    assert interval / UdpWriter.SECOND > 0 <==> interval >= UdpWriter.SECOND;
    assert minInterval > 0 ==> minInterval / UdpWriter.SECOND < minInterval;
  }

  /** Otherwise it is written in nanoseconds: half a second and a minimum of one give "min interval" 1000000000. */
  lemma WrittenInNanoseconds()
    ensures IntervalOf(500_000_000) == 0 && MinIntervalOf(500_000_000, UdpWriter.SECOND) == UdpWriter.SECOND
    ensures UdpWriter.WholeSeconds(UdpWriter.SECOND) == 1
  {
  }

  // ------------------------------------------------------------------- announces

  function PeersKey(v6: bool): Bytes { if v6 then PEERS6 else PEERS }

  /** What is written for one family: nothing for no peers, else the length they ought to have and their bytes. */
  function Compact(peers: seq<Peer>, v6: bool): Bytes {
    if peers == [] then []
    else EncodeStr(PeersKey(v6)) + (Decimal((UdpWriter.Width(v6) + 2) * |peers|) + ":" + UdpWriter.PeersBytes(peers))
  }

  function Numbers(complete: nat, incomplete: nat, interval: nat, minInterval: nat): seq<Pair> {
    [(COMPLETE, Int(complete)), (INCOMPLETE, Int(incomplete)), (INTERVAL, Int(interval)),
        (MIN_INTERVAL, Int(minInterval))]
  }

  function AnnounceBody(numbers: seq<Pair>, v4: seq<Peer>, v6: seq<Peer>): Bytes {
    "d" + EncodeEntries(FromSeq(numbers)) + Compact(v4, false) + Compact(v6, true) + "e"
  }

  lemma TwoDigits(n: nat)
    requires 10 <= n < 20
    ensures Decimal(n) == ['1', (n + 38) as char]
  {
    assert Decimal(1) == "1";
  }

  lemma Labels8()
    ensures EncodeStr(COMPLETE) == COMPLETE_TEXT && EncodeStr(INTERVAL) == INTERVAL_TEXT
  {
    assert Decimal(8) == ['8'];
  }

  lemma Labels10()
    ensures EncodeStr(INCOMPLETE) == INCOMPLETE_TEXT && EncodeStr(DOWNLOADED) == DOWNLOADED_TEXT
  {
    TwoDigits(10);
  }

  lemma Labels12()
    ensures EncodeStr(MIN_INTERVAL) == MIN_INTERVAL_TEXT
  {
    TwoDigits(12);
  }

  lemma PeerLabels()
    ensures EncodeStr(PEERS) == PEERS_TEXT && EncodeStr(PEERS6) == PEERS6_TEXT
  {
    assert Decimal(5) == ['5'] && Decimal(6) == ['6'];
  }

  /** writeAnnounceResponse in compact mode; a negative number makes it panic, with the intervals overwritten. */
  method WriteAnnounceResponse(resp: AnnounceResponse) returns (panics: bool, buf: Bytes)
    modifies resp
    ensures resp.interval == IntervalOf(old(resp.interval))
    ensures resp.minInterval == MinIntervalOf(old(resp.interval), old(resp.minInterval))
    ensures resp.complete == old(resp.complete) && resp.incomplete == old(resp.incomplete)
    ensures resp.ipv4Peers == old(resp.ipv4Peers) && resp.ipv6Peers == old(resp.ipv6Peers)
    ensures panics <==> resp.interval < 0 || resp.minInterval < 0
    ensures !panics ==>
              buf == AnnounceBody(Numbers(resp.complete, resp.incomplete, resp.interval, resp.minInterval),
                  resp.ipv4Peers, resp.ipv6Peers)
  {
    if resp.interval > 0 {
      resp.interval := UdpWriter.WholeSeconds(resp.interval);
    }
    if resp.interval > 0 {
      resp.minInterval := UdpWriter.WholeSeconds(resp.minInterval);
    }
    if resp.interval < 0 || resp.minInterval < 0 {
      return true, [];
    }
    panics := false;
    buf := WriteNumbers(resp.complete, resp.incomplete, resp.interval, resp.minInterval);
    buf := CompactAddresses(buf, resp.ipv4Peers, false);
    buf := CompactAddresses(buf, resp.ipv6Peers, true);
    buf := buf + "e";
  }

  method WriteNumbers(complete: nat, incomplete: nat, interval: nat, minInterval: nat) returns (buf: Bytes)
    ensures buf == "d" + EncodeEntries(FromSeq(Numbers(complete, incomplete, interval, minInterval)))
  {
    buf := "d";
    Labels8();
    Labels10();
    Labels12();
    ghost var all := Numbers(complete, incomplete, interval, minInterval);
    assert all[..0] == [] && all[..1] == all[..0] + [all[0]] && all[..2] == all[..1] + [all[1]];
    assert all[..3] == all[..2] + [all[2]] && all == all[..3] + [all[3]];
    buf := WriteInt(buf, COMPLETE_TEXT, complete, all[..0], COMPLETE);
    buf := WriteInt(buf, INCOMPLETE_TEXT, incomplete, all[..1], INCOMPLETE);
    buf := WriteInt(buf, INTERVAL_TEXT, interval, all[..2], INTERVAL);
    buf := WriteInt(buf, MIN_INTERVAL_TEXT, minInterval, all[..3], MIN_INTERVAL);
  }

  /** One more number at the end of the dictionary that is being written. */
  method WriteInt(head: Bytes, text: Bytes, n: nat, ghost ps: seq<Pair>, ghost key: Bytes) returns (buf: Bytes)
    requires head == "d" + EncodeEntries(FromSeq(ps)) && text == EncodeStr(key)
    ensures buf == "d" + EncodeEntries(FromSeq(ps + [(key, Int(n))]))
  {
    buf := head + (text + ("i" + Decimal(n) + "e"));
    EncodeAppend(ps, key, Int(n));
    ConcatAssociative("d", EncodeEntries(FromSeq(ps)), EncodeStr(key) + Encode(Int(n)));
  }

  /** compactAddresses */
  method CompactAddresses(head: Bytes, peers: seq<Peer>, v6: bool) returns (buf: Bytes)
    ensures buf == head + Compact(peers, v6)
  {
    buf := head;
    if |peers| > 0 {
      var text, width := PEERS_TEXT, 4;
      if v6 {
        text, width := PEERS6_TEXT, 16;
      }
      buf := buf + (text + (Decimal((width + 2) * |peers|) + ":"));
      buf := UdpWriter.WritePeers(buf, peers);
      PeerLabels();
      ghost var size := Decimal((width + 2) * |peers|) + ":";
      ConcatAssociative(head, text + size, UdpWriter.PeersBytes(peers));
      ConcatAssociative(text, size, UdpWriter.PeersBytes(peers));
    }
  }

  /** The length that is written is the length of what follows exactly when the bytes of the peers add up to it. */
  lemma CompactIff(peers: seq<Peer>, v6: bool)
    requires peers != []
    ensures Compact(peers, v6) == EncodeStr(PeersKey(v6)) + Encode(Str(UdpWriter.PeersBytes(peers)))
       <==> |UdpWriter.PeersBytes(peers)| == (UdpWriter.Width(v6) + 2) * |peers|
  {
    var key, b, n := EncodeStr(PeersKey(v6)), UdpWriter.PeersBytes(peers), (UdpWriter.Width(v6) + 2) * |peers|;
    if key + (Decimal(n) + ":" + b) == key + (Decimal(|b|) + ":" + b) {
      SameTail(key, Decimal(n) + ":" + b, Decimal(|b|) + ":" + b);
      SameHead(Decimal(n), Decimal(|b|), b);
      NumberOfDecimal(n);
      NumberOfDecimal(|b|);
    }
  }

  lemma SameTail(k: Bytes, a: Bytes, b: Bytes)
    requires k + a == k + b
    ensures a == b
  {
    assert a == (k + a)[|k|..] && b == (k + b)[|k|..];
  }

  lemma SameHead(a: Bytes, b: Bytes, t: Bytes)
    requires a + ":" + t == b + ":" + t
    ensures a == b
  {
    var s := a + ":" + t;
    assert |a| == |b|;
    assert a == s[..|a|] && b == s[..|a|];
  }

  function PeersPair(peers: seq<Peer>, v6: bool): seq<Pair> {
    if peers == [] then [] else [(PeersKey(v6), Str(UdpWriter.PeersBytes(peers)))]
  }

  lemma CompactAppends(ps: seq<Pair>, peers: seq<Peer>, v6: bool)
    requires UdpWriter.OneFamily(peers, v6)
    ensures "d" + EncodeEntries(FromSeq(ps)) + Compact(peers, v6) ==
            "d" + EncodeEntries(FromSeq(ps + PeersPair(peers, v6)))
  {
    if peers == [] {
      var b := "d" + EncodeEntries(FromSeq(ps));
      assert b + [] == b && ps + [] == ps;
    } else {
      UdpWriter.PeersRoundTrip(peers, v6);
      CompactIff(peers, v6);
      EncodeAppend(ps, PeersKey(v6), Str(UdpWriter.PeersBytes(peers)));
      ConcatAssociative("d", EncodeEntries(FromSeq(ps)), Compact(peers, v6));
    }
  }

  function AnnouncePairs(numbers: seq<Pair>, v4: seq<Peer>, v6: seq<Peer>): seq<Pair> {
    numbers + PeersPair(v4, false) + PeersPair(v6, true)
  }

  lemma InBelow()
    ensures Less(INCOMPLETE, INTERVAL)
  {
    assert INCOMPLETE == "in" + COMPLETE && INTERVAL == "in" + "terval";
    LessPrefix("in", COMPLETE, "terval");
  }

  lemma NumbersIncreasing(complete: nat, incomplete: nat, interval: nat, minInterval: nat)
    ensures Increasing(Numbers(complete, incomplete, interval, minInterval))
  {
    InBelow();
    assert Less(COMPLETE, INCOMPLETE) && Less(INTERVAL, MIN_INTERVAL);
  }

  lemma PeerKeysAbove()
    ensures Less(MIN_INTERVAL, PEERS) && Less(MIN_INTERVAL, PEERS6) && Less(PEERS, PEERS6)
  {
    assert PEERS + [] == PEERS && PEERS + ['6'] == PEERS6;
    LessPrefix(PEERS, [], ['6']);
  }

  lemma AnnounceIncreasing(numbers: seq<Pair>, v4: seq<Peer>, v6: seq<Peer>)
    requires Increasing(numbers) && |numbers| == 4 && numbers[3].0 == MIN_INTERVAL
    ensures Increasing(AnnouncePairs(numbers, v4, v6))
  {
    PeerKeysAbove();
    var ps := AnnouncePairs(numbers, v4, v6);
    forall i | 1 <= i < |ps| ensures Above(ps, i) {
      if i < 4 {
        assert Above(numbers, i);
      }
    }
  }

  lemma ParsesTo(numbers: seq<Pair>, v4: seq<Peer>, v6: seq<Peer>)
    requires UdpWriter.OneFamily(v4, false) && UdpWriter.OneFamily(v6, true)
    ensures Parse(AnnounceBody(numbers, v4, v6)) == Good(Dict(FromSeq(AnnouncePairs(numbers, v4, v6))), [])
  {
    CompactAppends(numbers, v4, false);
    CompactAppends(numbers + PeersPair(v4, false), v6, true);
    var all := Dict(FromSeq(AnnouncePairs(numbers, v4, v6)));
    assert Encode(all) + [] == Encode(all);
    RoundTrip(all, []);
  }

  /** A client finds the peers of a family under their key, every one at its place, or no key when there are none. */
  predicate Delivers(es: Entries, peers: seq<Peer>, v6: bool) {
    match Find(es, PeersKey(v6))
    case Missing => peers == []
    case Here(item) =>
      && item.Str? && peers != []
      && var bs := Chunks(item.s, UdpWriter.Width(v6) + 2);
         |bs| == |peers| && forall i :: 0 <= i < |peers| ==> UdpWriter.ReadPeer(bs[i]) == UdpWriter.Contact(peers[i])
  }

  lemma AnnounceReadsBack(numbers: seq<Pair>, v4: seq<Peer>, v6: seq<Peer>)
    requires Increasing(numbers) && |numbers| == 4 && numbers[3].0 == MIN_INTERVAL
    requires UdpWriter.OneFamily(v4, false) && UdpWriter.OneFamily(v6, true)
    ensures var es := FromSeq(AnnouncePairs(numbers, v4, v6));
            && (forall i :: 0 <= i < 4 ==> Find(es, numbers[i].0) == Here(numbers[i].1))
            && Delivers(es, v4, false) && Delivers(es, v6, true)
  {
    AnnounceIncreasing(numbers, v4, v6);
    forall i | 0 <= i < 4 ensures Find(FromSeq(AnnouncePairs(numbers, v4, v6)), numbers[i].0) == Here(numbers[i].1) {
      FindIncreasing(AnnouncePairs(numbers, v4, v6), i);
    }
    FindPeers(AnnouncePairs(numbers, v4, v6), numbers, v4, v6);
    UdpWriter.PeersRoundTrip(v4, false);
    UdpWriter.PeersRoundTrip(v6, true);
  }

  /**
   A compact announce reply of family-split lists is well-formed bencode with its keys in order,
   and a client that parses it reads the four numbers and both lists of peers.
   */
  lemma AnnounceRoundTrip(complete: nat, incomplete: nat, interval: nat, minInterval: nat, v4: seq<Peer>, v6: seq<Peer>)
    requires UdpWriter.OneFamily(v4, false) && UdpWriter.OneFamily(v6, true)
    ensures var r := Parse(AnnounceBody(Numbers(complete, incomplete, interval, minInterval), v4, v6));
            && r.Good? && r.rest == [] && r.value.Dict? && Ordered(r.value)
            && var es := r.value.entries;
               && Find(es, COMPLETE) == Here(Int(complete)) && Find(es, INCOMPLETE) == Here(Int(incomplete))
               && Find(es, INTERVAL) == Here(Int(interval)) && Find(es, MIN_INTERVAL) == Here(Int(minInterval))
               && Delivers(es, v4, false) && Delivers(es, v6, true)
  {
    var numbers := Numbers(complete, incomplete, interval, minInterval);
    NumbersIncreasing(complete, incomplete, interval, minInterval);
    ParsesTo(numbers, v4, v6);
    AnnounceIncreasing(numbers, v4, v6);
    OrderedIff(AnnouncePairs(numbers, v4, v6));
    AnnounceReadsBack(numbers, v4, v6);
    assert numbers[0].0 == COMPLETE && numbers[1].0 == INCOMPLETE && numbers[2].0 == INTERVAL;
  }

  lemma FindPeers(ps: seq<Pair>, numbers: seq<Pair>, v4: seq<Peer>, v6: seq<Peer>)
    requires Increasing(numbers) && |numbers| == 4 && numbers[3].0 == MIN_INTERVAL
    requires ps == AnnouncePairs(numbers, v4, v6) && Increasing(ps)
    ensures Find(FromSeq(ps), PEERS) == if v4 == [] then Missing else Here(Str(UdpWriter.PeersBytes(v4)))
    ensures Find(FromSeq(ps), PEERS6) == if v6 == [] then Missing else Here(Str(UdpWriter.PeersBytes(v6)))
  {
    forall i | 0 <= i < 4 ensures numbers[i].0 != PEERS && numbers[i].0 != PEERS6 {
      BelowPeers(numbers, i);
    }
    if v4 == [] {
      FindNone(ps, PEERS);
    } else {
      FindIncreasing(ps, 4);
    }
    if v6 == [] {
      FindNone(ps, PEERS6);
    } else {
      FindIncreasing(ps, |ps| - 1);
    }
  }

  lemma BelowPeers(numbers: seq<Pair>, i: nat)
    requires Increasing(numbers) && |numbers| == 4 && numbers[3].0 == MIN_INTERVAL && i < 4
    ensures numbers[i].0 != PEERS && numbers[i].0 != PEERS6
  {
    PeerKeysAbove();
    LessTotal(MIN_INTERVAL, PEERS);
    LessTotal(MIN_INTERVAL, PEERS6);
    if i < 3 {
      IncreasingApart(numbers, i, 3);
    }
  }
}
