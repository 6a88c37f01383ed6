/**
 The packets of BEP 15 that the UDP frontend reads: announces, in both address widths,
 and scrapes.
 */
module UdpParser {
  import opened ByteStrings
  import opened Bittorrent
  import opened FlatStore
  import opened Sanitize
  import opened UdpQuery
  import opened UdpOptions
  import opened Words

  datatype ParseOptions = ParseOptions(
    allowIPSpoofing: bool,
    filterPrivateIPs: bool,
    maxNumWant: nat,
    defaultNumWant: nat,
    maxScrapeInfoHashes: nat
  )

  datatype ParseError = TooShort | UnknownEvent | BadOptions(outcome: Outcome) | BadRequest(verdict: Verdict)

  datatype ParsedAnnounce = Announce(req: AnnounceRequest, params: Params) | Rejected(error: ParseError)

  const EVENTS: seq<Event> := [NoEvent, Completed, Started, Stopped]

  function IPEnd(v6Action: bool): nat { if v6Action then 100 else 88 }

  /** The address of the datagram, and the one in the packet if clients may name theirs. */
  function Addresses(ip: Addr, field: Bytes, allowIPSpoofing: bool): seq<RequestAddress> {
    var own := Add([], RequestAddress(ip, false));
    var spoofed := AddrFromSlice(field);
    if allowIPSpoofing && spoofed.IsValid() then Add(own, RequestAddress(spoofed, true)) else own
  }

  /** What the bytes of an announce say, before it is sanitised. */
  function Fields(b: Bytes, ip: Addr, v6Action: bool, allowIPSpoofing: bool): AnnounceRequest
    requires |b| >= IPEnd(v6Action) + 10 && b[83] as int < 4
  {
    var ipEnd := IPEnd(v6Action);
    AnnounceRequest(
      event := EVENTS[b[83] as int], eventProvided := true, infoHash := b[16..36],
      numWant := Value(b[ipEnd + 4..ipEnd + 8]), numWantProvided := true,
      left := Value(b[64..72]), downloaded := Value(b[56..64]), uploaded := Value(b[72..80]),
      id := b[36..56], port := PortOf(b[ipEnd + 8..ipEnd + 10]),
          addresses := Addresses(ip, b[84..ipEnd], allowIPSpoofing))
  }

  function PortOf(b: Bytes): Port
    requires |b| == 2
  {
    assert Pow256(2) == 0x1_0000 by { assert Pow256(1) == 256; }
    Value(b)
  }

  /** parseAnnounce */
  method ParseAnnounce(packet: Bytes, ip: Addr, v6Action: bool, opts: ParseOptions,
                       lower: Lower) returns (r: ParsedAnnounce)
    ensures |packet| < IPEnd(v6Action) + 10 ==> r == Rejected(TooShort)
    ensures |packet| >= IPEnd(v6Action) + 10 && packet[83] as int >= 4 ==> r == Rejected(UnknownEvent)
    ensures |packet| >= IPEnd(v6Action) + 10 && (packet[83] as int) < 4 ==>
              var read := Fields(packet, ip, v6Action, opts.allowIPSpoofing);
              var o := Options(packet[IPEnd(v6Action) + 10..], lower);
              if !o.Parsed? then r == Rejected(BadOptions(o))
              else if read.port == 0 then r == Rejected(BadRequest(InvalidPort))
              else if forall i :: 0 <= i < |read.addresses| ==>
                  !Admissible(read.addresses[i], opts.filterPrivateIPs) then
                r == Rejected(BadRequest(InvalidIP))
              else
                && r.Announce? && r.params == o.params
                && Cleans(r.req.addresses, read.addresses, opts.filterPrivateIPs) && r.req.addresses != []
                && r.req == read.(addresses := r.req.addresses, numWant := Min(read.numWant, opts.maxNumWant))
  {
    var ipEnd := IPEnd(v6Action);
    if |packet| < ipEnd + 10 {
      return Rejected(TooShort);
    }
    if packet[83] as int >= |EVENTS| {
      return Rejected(UnknownEvent);
    }
    var request := Fields(packet, ip, v6Action, opts.allowIPSpoofing);
    var params := HandleOptionalParameters(packet[ipEnd + 10..], lower);
    if !params.Parsed? {
      return Rejected(BadOptions(params));
    }
    var v := SanitizeAnnounce(request, opts.maxNumWant, opts.defaultNumWant, opts.filterPrivateIPs);
    r := if v.Accepted? then Announce(v.req, params.params) else Rejected(BadRequest(v));
  }

  // ----------------------------------------------------------------- announces

  /** What a client puts into an announce. */
  datatype Sent = Sent(
    header: Bytes,
    infoHash: Bytes,
    id: Bytes,
    downloaded: nat,
    left: nat,
    uploaded: nat,
    event: nat,
    ip: Bytes,
    key: Bytes,
    numWant: nat,
    port: nat,
    options: Bytes
  )
  {
    predicate Valid(v6Action: bool) {
      && |header| == 16 && |infoHash| == 20 && |id| == 20
      && downloaded < MOD64 && left < MOD64 && uploaded < MOD64 && event < 4
      && |ip| == (if v6Action then 16 else 4) && |key| == 4 && numWant < MOD32 && port < 0x1_0000
    }

    function Names(): Bytes { header + infoHash + id }

    function Numbers(): Bytes {
      BigEndian(downloaded, 8) + BigEndian(left, 8) + BigEndian(uploaded, 8) + BigEndian(event, 4)
    }

    /** The fixed part up to the event. */
    function Head(): Bytes { Names() + Numbers() }

    /** From the address on. */
    function Tail(): Bytes { ip + key + BigEndian(numWant, 4) + BigEndian(port, 2) + options }

    function Encode(): Bytes {
      Head() + Tail()
    }
  }

  lemma Powers()
    ensures Pow256(2) == 0x1_0000 && Pow256(4) == MOD32 && Pow256(8) == MOD64
  {
    assert Pow256(1) == 256 && Pow256(2) == 256 * Pow256(1) && Pow256(3) == 256 * Pow256(2);
    assert Pow256(4) == 256 * Pow256(3) && Pow256(5) == 256 * Pow256(4) && Pow256(6) == 256 * Pow256(5);
    assert Pow256(7) == 256 * Pow256(6) && Pow256(8) == 256 * Pow256(7);
  }

  lemma NumberFields(s: Sent)
    ensures var b := s.Numbers();
            && |b| == 28 && b[0..8] == BigEndian(s.downloaded, 8) && b[8..16] == BigEndian(s.left, 8)
            && b[16..24] == BigEndian(s.uploaded, 8) && b[24..28] == BigEndian(s.event, 4)
  {
  }

  lemma NameFields(s: Sent)
    requires |s.header| == 16 && |s.infoHash| == 20 && |s.id| == 20
    ensures |s.Names()| == 56 && s.Names()[16..36] == s.infoHash && s.Names()[36..56] == s.id
  {
  }

  /** A field of one part is found at the same place when parts come before and after. */
  lemma Shifted(before: Bytes, part: Bytes, after: Bytes, i: nat, j: nat)
    requires i <= j <= |part|
    ensures (before + part + after)[|before| + i..|before| + j] == part[i..j]
  {
  }

  lemma HeadFields(s: Sent, rest: Bytes)
    requires |s.header| == 16 && |s.infoHash| == 20 && |s.id| == 20
    ensures var b := s.Head() + rest;
            && |s.Head()| == 84 && b[84..] == rest
            && b[16..36] == s.infoHash && b[36..56] == s.id
            && b[56..64] == BigEndian(s.downloaded, 8) && b[64..72] == BigEndian(s.left, 8)
            && b[72..80] == BigEndian(s.uploaded, 8) && b[80..84] == BigEndian(s.event, 4)
  {
    NameFields(s);
    NumberFields(s);
    var b, n, m := s.Head() + rest, s.Names(), s.Numbers();
    assert b[16..36] == n[16..36] && b[36..56] == n[36..56];
    Shifted(n, m, rest, 0, 8);
    Shifted(n, m, rest, 8, 16);
    Shifted(n, m, rest, 16, 24);
    Shifted(n, m, rest, 24, 28);
  }

  lemma TailFields(ip: Bytes, key: Bytes, want: Bytes, port: Bytes, options: Bytes, n: nat)
    requires |ip| == n && |key| == 4 && |want| == 4 && |port| == 2
    ensures var b := ip + key + want + port + options;
            && |b| >= n + 10 && b[..n] == ip && b[n + 4..n + 8] == want
            && b[n + 8..n + 10] == port && b[n + 10..] == options
  {
  }

  lemma TailPositions(head: Bytes, tail: Bytes, n: nat)
    requires |head| == 84 && |tail| >= n + 10
    ensures var b := head + tail;
            && b[84..84 + n] == tail[..n] && b[84 + n + 4..84 + n + 8] == tail[n + 4..n + 8]
            && b[84 + n + 8..84 + n + 10] == tail[n + 8..n + 10] && b[84 + n + 10..] == tail[n + 10..]
  {
    SliceRight(head, tail, 0, n);
    SliceRight(head, tail, n + 4, n + 8);
    SliceRight(head, tail, n + 8, n + 10);
    SliceRight(head, tail, n + 10, |tail|);
  }

  lemma EventByte(event: nat)
    requires event < 256
    ensures BigEndian(event, 4)[3] as int == event
  {
    assert event % 256 == event;
  }

  /** Reading an encoded announce recovers every field, in both address widths. */
  lemma AnnounceRoundTrip(s: Sent, v6Action: bool, ip: Addr, allowIPSpoofing: bool)
    requires s.Valid(v6Action)
    ensures var b, n := s.Encode(), IPEnd(v6Action);
            && |b| >= n + 10 && b[83] as int == s.event && b[n + 10..] == s.options
            && Fields(b, ip, v6Action, allowIPSpoofing) == AnnounceRequest(
                 event := EVENTS[s.event], eventProvided := true, infoHash := s.infoHash,
                 numWant := s.numWant, numWantProvided := true,
                 left := s.left, downloaded := s.downloaded, uploaded := s.uploaded,
                 id := s.id, port := s.port, addresses := Addresses(ip, s.ip, allowIPSpoofing))
  {
    AnnouncePositions(s, v6Action);
    Powers();
    EventByte(s.event);
    assert s.Encode()[83] == s.Encode()[80..84][3];
    ValueOfBigEndian(s.downloaded, 8);
    ValueOfBigEndian(s.left, 8);
    ValueOfBigEndian(s.uploaded, 8);
    ValueOfBigEndian(s.numWant, 4);
    ValueOfBigEndian(s.port, 2);
  }

  /** Where every field of an encoded announce is. */
  lemma AnnouncePositions(s: Sent, v6Action: bool)
    requires s.Valid(v6Action)
    ensures var b, n := s.Encode(), IPEnd(v6Action);
            && |b| >= n + 10 && b[16..36] == s.infoHash && b[36..56] == s.id
            && b[56..64] == BigEndian(s.downloaded, 8) && b[64..72] == BigEndian(s.left, 8)
            && b[72..80] == BigEndian(s.uploaded, 8) && b[80..84] == BigEndian(s.event, 4)
            && b[84..n] == s.ip && b[n + 4..n + 8] == BigEndian(s.numWant, 4)
            && b[n + 8..n + 10] == BigEndian(s.port, 2) && b[n + 10..] == s.options
  {
    HeadFields(s, s.Tail());
    TailOf(s, IPEnd(v6Action) - 84);
    TailPositions(s.Head(), s.Tail(), IPEnd(v6Action) - 84);
  }

  lemma TailOf(s: Sent, n: nat)
    requires |s.ip| == n && |s.key| == 4
    ensures var b := s.Tail();
            && |b| >= n + 10 && b[..n] == s.ip && b[n + 4..n + 8] == BigEndian(s.numWant, 4)
            && b[n + 8..n + 10] == BigEndian(s.port, 2) && b[n + 10..] == s.options
  {
    TailFields(s.ip, s.key, BigEndian(s.numWant, 4), BigEndian(s.port, 2), s.options, n);
  }

  // ------------------------------------------------------------------- scrapes

  /** The 20-byte hashes of a scrape. */
  function Hashes(b: Bytes): (r: seq<InfoHash>) {
    if |b| < 20 then [] else [b[..20]] + Hashes(b[20..])
  }

  lemma {:induction false} HashesAt(b: Bytes, i: nat)
    ensures |Hashes(b)| == |b| / 20
    ensures i < |b| / 20 ==> Hashes(b)[i] == b[20 * i..20 * i + 20]
    decreases |b|
  {
    if |b| >= 20 {
      HashesAt(b[20..], if i == 0 then 0 else i - 1);
      if 0 < i < |b| / 20 {
        assert b[20..][20 * (i - 1)..20 * (i - 1) + 20] == b[20 * i..20 * i + 20];
      }
    }
  }

  datatype ParsedScrape = Scrape(hashes: seq<InfoHash>, addresses: seq<RequestAddress>) | BadScrape(error: ParseError)

  /** parseScrape with SanitizeScrape: the first hashes of the packet, in order, up to the maximum. */
  method ParseScrape(packet: Bytes, ip: Addr, opts: ParseOptions) returns (r: ParsedScrape)
    ensures |packet| < 36 || (|packet| - 16) % 20 != 0 ==> r == BadScrape(TooShort)
    ensures |packet| >= 36 && (|packet| - 16) % 20 == 0 ==>
              if Admissible(RequestAddress(ip, false), opts.filterPrivateIPs) then
                && r.Scrape?
                && |r.hashes| == Min((|packet| - 16) / 20, opts.maxScrapeInfoHashes)
                && (forall i :: 0 <= i < |r.hashes| ==> r.hashes[i] == packet[16 + 20 * i..36 + 20 * i])
                && r.addresses == [RequestAddress(ip, false)]
              else r == BadScrape(BadRequest(InvalidIP))
  {
    if |packet| < 36 {
      return BadScrape(TooShort);
    }
    var rest := packet[16..];
    if |rest| % 20 != 0 {
      return BadScrape(TooShort);
    }
    var infoHashes := ReadHashes(rest);
    HashesAt(rest, 0);
    forall i: nat | i < |infoHashes| ensures infoHashes[i] == packet[16 + 20 * i..36 + 20 * i] {
      HashesAt(rest, i);
      assert rest[20 * i..20 * i + 20] == packet[16 + 20 * i..36 + 20 * i];
    }
    if |infoHashes| > opts.maxScrapeInfoHashes {
      infoHashes := infoHashes[..opts.maxScrapeInfoHashes];
    }
    var own := [RequestAddress(ip, false)];
    var ok, addresses := Sanitize.Sanitize(own, opts.filterPrivateIPs);
    OneAddress(addresses, own[0], opts.filterPrivateIPs);
    if !ok {
      return BadScrape(BadRequest(InvalidIP));
    }
    r := Scrape(infoHashes, addresses);
  }

  method ReadHashes(packet: Bytes) returns (infoHashes: seq<InfoHash>)
    ensures infoHashes == Hashes(packet)
  {
    infoHashes := [];
    var rest := packet;
    while |rest| >= INFO_HASH_V1_LEN
      invariant infoHashes + Hashes(rest) == Hashes(packet)
      decreases |rest|
    {
      assert Hashes(rest) == [rest[..20]] + Hashes(rest[20..]);
      infoHashes, rest := infoHashes + [rest[..INFO_HASH_V1_LEN]], rest[INFO_HASH_V1_LEN..];
    }
  }

  lemma OneAddress(out: seq<RequestAddress>, a: RequestAddress, ignorePrivate: bool)
    requires Cleans(out, [a], ignorePrivate)
    ensures out == if Admissible(a, ignorePrivate) then [a] else []
  {
    EmptyIffNoneAdmissible(out, [a], ignorePrivate);
    assert [a][0] == a;
    forall i | 0 <= i < |out| ensures out[i] == a {
      assert out[i] in out && Has([a], ignorePrivate, out[i].addr, false);
    }
    assert |out| >= 2 ==> out[0].addr != out[1].addr;
  }
}
