/**
 The scrape replies of the HTTP frontend: the files sorted by info hash, each with its counts.
 */
module HttpScrape {
  import opened ByteStrings
  import opened Bencode
  import opened ResponseHook
  import opened HttpWriter

  const FILES: Bytes := "files"
  const FILES_HEAD: Bytes := "d5:filesd"

  // --------------------------------------------------------------------- sorting

  predicate SortedByHash(data: seq<Scrape>) {
    forall i, j :: 0 <= i < j < |data| ==> !Less(data[j].infoHash, data[i].infoHash)
  }

  /** What sort.Slice may leave: any sorted permutation, for it keeps no order among equals. */
  predicate Sorts(sorted: seq<Scrape>, data: seq<Scrape>) {
    SortedByHash(sorted) && multiset(sorted) == multiset(data)
  }

  function Insert(s: Scrape, sorted: seq<Scrape>): (r: seq<Scrape>)
    requires SortedByHash(sorted)
    ensures Sorts(r, [s] + sorted)
  {
    if sorted == [] || !Less(sorted[0].infoHash, s.infoHash) then
      if sorted != [] then AllAbove(s, sorted); [s] + sorted else [s] + sorted
    else
      var rest := Insert(s, sorted[1..]);
      assert sorted == [sorted[0]] + sorted[1..];
      HeadBelow(sorted[0], s, sorted[1..], rest);
      [sorted[0]] + rest
  }

  lemma AllAbove(s: Scrape, sorted: seq<Scrape>)
    requires SortedByHash(sorted) && sorted != [] && !Less(sorted[0].infoHash, s.infoHash)
    ensures SortedByHash([s] + sorted)
  {
    forall j | 0 <= j < |sorted| ensures !Less(sorted[j].infoHash, s.infoHash) {
      NotLessTransitive(s.infoHash, sorted[0].infoHash, sorted[j].infoHash);
    }
  }

  lemma NotLessTransitive(a: Bytes, b: Bytes, c: Bytes)
    ensures !Less(b, a) && (b == c || !Less(c, b)) ==> !Less(c, a)
  {
    LessTotal(b, c);
    LessTotal(a, b);
    if Less(c, a) && Less(b, c) { LessTransitive(b, c, a); }
  }

  lemma HeadBelow(head: Scrape, s: Scrape, rest: seq<Scrape>, inserted: seq<Scrape>)
    requires SortedByHash([head] + rest) && SortedByHash(inserted) && Less(head.infoHash, s.infoHash)
    requires multiset(inserted) == multiset([s] + rest)
    ensures Sorts([head] + inserted, [s] + ([head] + rest))
  {
    LessTotal(head.infoHash, s.infoHash);
    forall j | 0 <= j < |inserted| ensures !Less(inserted[j].infoHash, head.infoHash) {
      assert inserted[j] in multiset(inserted) && inserted[j] in [s] + rest;
      if inserted[j] != s {
        var k :| 0 <= k < |rest| && rest[k] == inserted[j];
        assert ([head] + rest)[k + 1] == inserted[j] && ([head] + rest)[0] == head;
      }
    }
  }

  lemma {:induction false} SortExists(data: seq<Scrape>) returns (sorted: seq<Scrape>)
    ensures Sorts(sorted, data)
  {
    if data == [] {
      sorted := [];
    } else {
      var rest := SortExists(data[1..]);
      sorted := Insert(data[0], rest);
      assert data == [data[0]] + data[1..];
    }
  }

  // --------------------------------------------------------------------- writing

  function Counts(s: Scrape): seq<Pair> {
    [(COMPLETE, Int(s.complete)), (DOWNLOADED, Int(s.snatches)), (INCOMPLETE, Int(s.incomplete))]
  }

  function File(s: Scrape): Pair { (s.infoHash, Dict(FromSeq(Counts(s)))) }

  function Files(data: seq<Scrape>): (ps: seq<Pair>)
    ensures |ps| == |data| && forall i :: 0 <= i < |ps| ==> ps[i] == File(data[i])
  {
    seq(|data|, i requires 0 <= i < |data| => File(data[i]))
  }

  function ScrapeItem(data: seq<Scrape>): Item { Dict(FromSeq([(FILES, Dict(FromSeq(Files(data))))])) }

  /** writeScrapeResponse: it leaves the entries sorted in the response. */
  method WriteScrapeResponse(resp: ScrapeResponse) returns (buf: Bytes)
    modifies resp
    ensures Sorts(resp.data, old(resp.data))
    ensures buf == Encode(ScrapeItem(resp.data))
  {
    if |resp.data| > 1 {
      resp.data := SortSlice(resp.data);
    }
    buf := WriteFiles(resp.data);
    buf := buf + ['e', 'e'];
    Assembled(FromSeq(Files(resp.data)));
  }

  method SortSlice(data: seq<Scrape>) returns (sorted: seq<Scrape>)
    ensures Sorts(sorted, data)
  {
    ghost var r := SortExists(data);
    sorted :| Sorts(sorted, data);
  }

  method WriteFiles(data: seq<Scrape>) returns (buf: Bytes)
    ensures buf == FILES_HEAD + EncodeEntries(FromSeq(Files(data)))
  {
    buf := FILES_HEAD;
    ghost var ps := Files(data);
    assert ps[..0] == [] && FILES_HEAD + [] == FILES_HEAD;
    for i := 0 to |data|
      invariant buf == FILES_HEAD + EncodeEntries(FromSeq(ps[..i]))
    {
      assert ps[..i + 1] == ps[..i] + [File(data[i])];
      EncodeAppend(ps[..i], data[i].infoHash, File(data[i]).1);
      var hash := EncodeStr(data[i].infoHash);
      var counts := WriteCounts(data[i]);
      ConcatAssociative(FILES_HEAD, EncodeEntries(FromSeq(ps[..i])), hash + counts);
      buf := buf + (hash + counts);
    }
    assert ps[..|ps|] == ps;
  }

  method WriteCounts(s: Scrape) returns (buf: Bytes)
    ensures buf == Encode(File(s).1)
  {
    buf := "d";
    Labels8();
    Labels10();
    ghost var all := Counts(s);
    assert all[..0] == [] && all[..1] == all[..0] + [all[0]];
    assert all[..2] == all[..1] + [all[1]] && all == all[..2] + [all[2]];
    buf := WriteInt(buf, COMPLETE_TEXT, s.complete, all[..0], COMPLETE);
    buf := WriteInt(buf, DOWNLOADED_TEXT, s.snatches, all[..1], DOWNLOADED);
    buf := WriteInt(buf, INCOMPLETE_TEXT, s.incomplete, all[..2], INCOMPLETE);
    buf := buf + "e";
  }

  lemma FilesLabel()
    ensures FILES_HEAD == "d" + EncodeStr(FILES) + "d"
  {
    assert Decimal(5) == ['5'];
  }

  lemma FilesGrouped(k: Bytes, b: Bytes)
    ensures ("d" + k + "d") + b + ['e', 'e'] == "d" + (k + ("d" + b + "e") + []) + "e"
  {
  }

  lemma Assembled(es: Entries)
    ensures FILES_HEAD + EncodeEntries(es) + ['e', 'e'] == Encode(Dict(FromSeq([(FILES, Dict(es))])))
  {
    var b := EncodeEntries(es);
    FilesLabel();
    SingleEntry(FILES, Dict(es));
    var k := EncodeStr(FILES);
    assert EncodeEntries(Entry(FILES, Dict(es), End)) == k + ("d" + b + "e") + [] by {
      assert Encode(Dict(es)) == "d" + b + "e";
    }
    FilesGrouped(k, b);
  }

  // --------------------------------------------------------------------- reading

  function IntAt(es: Entries, key: Bytes): int {
    match Find(es, key)
    case Missing => -1
    case Here(item) => if item.Int? then item.n else -1
  }

  /** What a client gets for one file: the hash, and how often it is complete, was downloaded, is incomplete. */
  type Row = (Bytes, int, int, int)

  function ReadFile(key: Bytes, item: Item): Row {
    var es := if item.Dict? then item.entries else End;
    (key, IntAt(es, COMPLETE), IntAt(es, DOWNLOADED), IntAt(es, INCOMPLETE))
  }

  function ReadFiles(es: Entries): seq<Row> {
    match es
    case End => []
    case Entry(key, item, rest) => [ReadFile(key, item)] + ReadFiles(rest)
  }

  function ReadScrape(b: Bytes): seq<Row> {
    match Parse(b)
    case Bad => []
    case Good(item, rest) =>
      if !item.Dict? then []
      else
        match Find(item.entries, FILES)
        case Missing => []
        case Here(files) => if files.Dict? then ReadFiles(files.entries) else []
  }

  function RowOf(s: Scrape): Row { (s.infoHash, s.complete, s.snatches, s.incomplete) }

  function Rows(data: seq<Scrape>): (rs: seq<Row>)
    ensures |rs| == |data| && forall i :: 0 <= i < |rs| ==> rs[i] == RowOf(data[i])
  {
    seq(|data|, i requires 0 <= i < |data| => RowOf(data[i]))
  }

  lemma CountsIncreasing(s: Scrape)
    ensures Increasing(Counts(s))
  {
    assert Less(COMPLETE, DOWNLOADED) && Less(DOWNLOADED, INCOMPLETE);
  }

  lemma ReadFileBack(s: Scrape)
    ensures ReadFile(File(s).0, File(s).1) == RowOf(s)
  {
    CountsIncreasing(s);
    var ps := Counts(s);
    FindIncreasing(ps, 0);
    FindIncreasing(ps, 1);
    FindIncreasing(ps, 2);
  }

  lemma {:induction false} ReadFilesBack(data: seq<Scrape>)
    ensures ReadFiles(FromSeq(Files(data))) == Rows(data)
  {
    if data != [] {
      ReadFileBack(data[0]);
      ReadFilesBack(data[1..]);
      assert Files(data)[1..] == Files(data[1..]);
      assert Rows(data) == [RowOf(data[0])] + Rows(data[1..]);
    }
  }

  /** A client reads the entries as they were sorted: a permutation of those that were asked for. */
  lemma ScrapeRoundTrip(data: seq<Scrape>, sorted: seq<Scrape>)
    requires Sorts(sorted, data)
    ensures var b := Encode(ScrapeItem(sorted));
            Parse(b) == Good(ScrapeItem(sorted), []) && ReadScrape(b) == Rows(sorted)
    ensures multiset(sorted) == multiset(data)
  {
    var b := Encode(ScrapeItem(sorted));
    assert b + [] == b;
    RoundTrip(ScrapeItem(sorted), []);
    ReadFilesBack(sorted);
  }

  predicate DistinctHashes(data: seq<Scrape>) {
    forall i, j :: 0 <= i < j < |data| ==> data[i].infoHash != data[j].infoHash
  }

  ghost predicate Separate(m: multiset<Scrape>) {
    forall s, t :: s in m && t in m && s.infoHash == t.infoHash ==> s == t && m[s] == 1
  }

  lemma CountAt(data: seq<Scrape>, i: nat)
    requires i < |data|
    ensures multiset(data)[data[i]] == 1 + multiset(data[..i])[data[i]] + multiset(data[i + 1..])[data[i]]
  {
    assert data == data[..i] + [data[i]] + data[i + 1..];
  }

  lemma DistinctSeparate(data: seq<Scrape>)
    requires DistinctHashes(data)
    ensures Separate(multiset(data))
  {
    forall s, t | s in multiset(data) && t in multiset(data) && s.infoHash == t.infoHash
      ensures s == t && multiset(data)[s] == 1
    {
      var i :| 0 <= i < |data| && data[i] == s;
      var j :| 0 <= j < |data| && data[j] == t;
      assert i == j;
      CountAt(data, i);
      assert s !in data[..i] && s !in data[i + 1..];
    }
  }

  lemma SeparateDistinct(data: seq<Scrape>)
    requires Separate(multiset(data))
    ensures DistinctHashes(data)
  {
    forall i, j | 0 <= i < j < |data| ensures data[i].infoHash != data[j].infoHash {
      CountAt(data, i);
      assert data[j] == data[i + 1..][j - i - 1];
      assert data[j] in data[i + 1..] && data[i] in multiset(data) && data[j] in multiset(data);
    }
  }

  /** Whether the hashes are distinct does not depend on the order. */
  lemma DistinctIff(data: seq<Scrape>)
    ensures DistinctHashes(data) <==> Separate(multiset(data))
  {
    if DistinctHashes(data) { DistinctSeparate(data); }
    if Separate(multiset(data)) { SeparateDistinct(data); }
  }

  /** The keys are in strictly increasing order exactly when no hash was asked for twice. */
  lemma ScrapeKeysOrderedIff(data: seq<Scrape>, sorted: seq<Scrape>)
    requires Sorts(sorted, data)
    ensures Ordered(ScrapeItem(sorted)) <==> DistinctHashes(data)
  {
    DistinctIff(data);
    DistinctIff(sorted);
    var ps := Files(sorted);
    forall i | 0 <= i < |ps| ensures Ordered(ps[i].1) {
      CountsIncreasing(sorted[i]);
      OrderedIff(Counts(sorted[i]));
    }
    OrderedIff(ps);
    FilesIncreasingIff(sorted, ps);
    OneKey(FromSeq(ps));
  }

  lemma OneKey(es: Entries)
    ensures Ordered(Dict(FromSeq([(FILES, Dict(es))]))) <==> OrderedEntries(es)
  {
    SingleEntry(FILES, Dict(es));
    assert OrderedEntries(Entry(FILES, Dict(es), End)) == Ordered(Dict(es));
  }

  lemma SingleEntry(key: Bytes, item: Item)
    ensures FromSeq([(key, item)]) == Entry(key, item, End)
  {
    assert [(key, item)][1..] == [];
  }

  lemma FilesIncreasingIff(sorted: seq<Scrape>, ps: seq<Pair>)
    requires SortedByHash(sorted) && ps == Files(sorted)
    ensures Increasing(ps) <==> DistinctHashes(sorted)
  {
    if Increasing(ps) {
      forall i, j | 0 <= i < j < |sorted| ensures sorted[i].infoHash != sorted[j].infoHash {
        IncreasingApart(ps, i, j);
      }
    }
    if DistinctHashes(sorted) {
      forall i | 1 <= i < |ps| ensures Above(ps, i) {
        LessTotal(sorted[i - 1].infoHash, sorted[i].infoHash);
      }
    }
  }
}
