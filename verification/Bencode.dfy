/**
 Bencoding (BEP 3), as far as the tracker's replies need it: unsigned integers, strings and
 dictionaries, with a strict parser.
 */
module Bencode {
  import opened ByteStrings

  datatype Item = Int(n: nat) | Str(s: Bytes) | Dict(entries: Entries)
  datatype Entries = End | Entry(key: Bytes, item: Item, rest: Entries)

  // -------------------------------------------------------------------- numbers

  predicate IsDigit(c: Byte) { '0' <= c <= '9' }

  /** fasthttp.AppendUint */
  function Decimal(n: nat): (b: Bytes)
    ensures b != [] && forall i :: 0 <= i < |b| ==> IsDigit(b[i])
  {
    if n < 10 then [(n + 48) as char] else Decimal(n / 10) + [(n % 10 + 48) as char]
  }

  function Number(b: Bytes): nat
    requires forall i :: 0 <= i < |b| ==> IsDigit(b[i])
  {
    if b == [] then 0
    else
      assert IsDigit(b[|b| - 1]);
      10 * Number(b[..|b| - 1]) + (b[|b| - 1] as int - 48)
  }

  lemma {:induction false} NumberOfDecimal(n: nat)
    ensures Number(Decimal(n)) == n
    ensures n == 0 || Decimal(n)[0] != '0'
  {
    if n >= 10 {
      NumberOfDecimal(n / 10);
      assert Decimal(n)[..|Decimal(n)| - 1] == Decimal(n / 10);
    } else {
      assert Decimal(n) == [(n + 48) as char] && Number([]) == 0;
    }
  }

  /** How many digits a byte string starts with. */
  function DigitRun(b: Bytes): (k: nat)
    ensures k <= |b| && forall i :: 0 <= i < k ==> IsDigit(b[i])
  {
    if b == [] || !IsDigit(b[0]) then 0 else DigitRun(b[1..]) + 1
  }

  lemma {:induction false} DigitRunOf(ds: Bytes, tail: Bytes)
    requires forall i :: 0 <= i < |ds| ==> IsDigit(ds[i])
    requires tail == [] || !IsDigit(tail[0])
    ensures DigitRun(ds + tail) == |ds|
  {
    if ds == [] {
      assert ds + tail == tail;
    } else {
      DigitRunOf(ds[1..], tail);
      assert (ds + tail)[1..] == ds[1..] + tail;
    }
  }

  // ------------------------------------------------------------------- encoding

  function EncodeStr(s: Bytes): Bytes { Decimal(|s|) + ":" + s }

  function Encode(item: Item): Bytes {
    match item
    case Int(n) => "i" + Decimal(n) + "e"
    case Str(s) => EncodeStr(s)
    case Dict(es) => "d" + EncodeEntries(es) + "e"
  }

  function EncodeEntries(es: Entries): Bytes {
    match es
    case End => []
    case Entry(key, item, rest) => EncodeStr(key) + Encode(item) + EncodeEntries(rest)
  }

  // -------------------------------------------------------------------- parsing

  datatype Parsed<T> = Bad | Good(value: T, rest: Bytes)

  /** An unsigned number without superfluous zeros. */
  function ParseNat(b: Bytes): (r: Parsed<nat>)
    ensures r.Good? ==> |r.rest| < |b|
  {
    var k := DigitRun(b);
    if k == 0 || (k > 1 && b[0] == '0') then Bad else Good(Number(b[..k]), b[k..])
  }

  function ParseStr(b: Bytes): (r: Parsed<Bytes>)
    ensures r.Good? ==> |r.rest| < |b|
  {
    match ParseNat(b)
    case Bad => Bad
    case Good(n, rest) =>
      if rest == [] || rest[0] != ':' || |rest| < n + 1 then Bad else Good(rest[1..n + 1], rest[n + 1..])
  }

  function Parse(b: Bytes): (r: Parsed<Item>)
    ensures r.Good? ==> |r.rest| < |b|
    decreases |b|
  {
    if b == [] then Bad
    else if b[0] == 'i' then
      match ParseNat(b[1..])
      case Bad => Bad
      case Good(n, rest) => if rest == [] || rest[0] != 'e' then Bad else Good(Int(n), rest[1..])
    else if b[0] == 'd' then
      match ParseEntries(b[1..])
      case Bad => Bad
      case Good(es, rest) => Good(Dict(es), rest)
    else
      match ParseStr(b)
      case Bad => Bad
      case Good(s, rest) => Good(Str(s), rest)
  }

  function ParseEntries(b: Bytes): (r: Parsed<Entries>)
    ensures r.Good? ==> |r.rest| < |b|
    decreases |b|
  {
    if b == [] then Bad
    else if b[0] == 'e' then Good(End, b[1..])
    else
      match ParseStr(b)
      case Bad => Bad
      case Good(key, afterKey) =>
        match Parse(afterKey)
        case Bad => Bad
        case Good(item, afterItem) =>
          match ParseEntries(afterItem)
          case Bad => Bad
          case Good(es, rest) => Good(Entry(key, item, es), rest)
  }

  lemma ParseDecimal(n: nat, tail: Bytes)
    requires tail == [] || !IsDigit(tail[0])
    ensures ParseNat(Decimal(n) + tail) == Good(n, tail)
  {
    var ds := Decimal(n);
    DigitRunOf(ds, tail);
    NumberOfDecimal(n);
    assert (ds + tail)[..|ds|] == ds && (ds + tail)[|ds|..] == tail;
    assert n == 0 ==> |ds| == 1;
  }

  lemma ParseEncodedStr(s: Bytes, tail: Bytes)
    ensures ParseStr(EncodeStr(s) + tail) == Good(s, tail)
  {
    var rest := ":" + (s + tail);
    Regroup(Decimal(|s|), ":", s, tail);
    ParseDecimal(|s|, rest);
    assert rest[1..|s| + 1] == s && rest[|s| + 1..] == tail;
  }

  lemma Regroup(a: Bytes, b: Bytes, c: Bytes, d: Bytes)
    ensures (a + b + c) + d == a + (b + (c + d))
  {
  }

  /** What was encoded is parsed back, whatever follows it. */
  lemma {:induction false} RoundTrip(item: Item, tail: Bytes)
    ensures Parse(Encode(item) + tail) == Good(item, tail)
    decreases item
  {
    var b := Encode(item) + tail;
    match item {
      case Int(n) =>
        assert b[0] == 'i' && b[1..] == Decimal(n) + ("e" + tail);
        ParseDecimal(n, "e" + tail);
        assert ("e" + tail)[1..] == tail;
      case Str(s) =>
        ParseEncodedStr(s, tail);
        assert b[0] == Decimal(|s|)[0];
      case Dict(es) =>
        assert b[0] == 'd' && b[1..] == EncodeEntries(es) + ("e" + tail);
        EntriesRoundTrip(es, tail);
    }
  }

  lemma {:induction false} EntriesRoundTrip(es: Entries, tail: Bytes)
    ensures ParseEntries(EncodeEntries(es) + ("e" + tail)) == Good(es, tail)
    decreases es
  {
    match es {
      case End =>
        assert EncodeEntries(es) + ("e" + tail) == "e" + tail && ("e" + tail)[1..] == tail;
      case Entry(key, item, rest) =>
        var k, i, r := EncodeStr(key), Encode(item), EncodeEntries(rest);
        Regroup(k, i, r, "e" + tail);
        assert (k + (i + (r + ("e" + tail))))[0] == Decimal(|key|)[0];
        ParseEncodedStr(key, i + (r + ("e" + tail)));
        RoundTrip(item, r + ("e" + tail));
        EntriesRoundTrip(rest, tail);
    }
  }

  lemma {:induction false} DecimalOfNumber(ds: Bytes)
    requires ds != [] && forall i :: 0 <= i < |ds| ==> IsDigit(ds[i])
    requires |ds| == 1 || ds[0] != '0'
    ensures Decimal(Number(ds)) == ds && (ds[0] != '0' ==> Number(ds) >= 1)
  {
    var n := |ds| - 1;
    var rest, d := ds[..n], ds[n];
    assert IsDigit(d);
    if n == 0 {
      assert Number(rest) == 0 && ds == [d];
    } else {
      DecimalOfNumber(rest);
      assert Number(ds) == 10 * Number(rest) + (d as int - 48);
      assert ds == rest + [d];
    }
  }

  lemma ParseNatExact(b: Bytes)
    requires ParseNat(b).Good?
    ensures b == Decimal(ParseNat(b).value) + ParseNat(b).rest
  {
    var k := DigitRun(b);
    DecimalOfNumber(b[..k]);
    assert b == b[..k] + b[k..];
  }

  lemma ColonSplit(rest: Bytes, n: nat)
    requires n + 1 <= |rest| && rest[0] == ':'
    ensures rest == ":" + (rest[1..n + 1] + rest[n + 1..])
  {
  }

  lemma ParseStrExact(b: Bytes)
    requires ParseStr(b).Good?
    ensures b == EncodeStr(ParseStr(b).value) + ParseStr(b).rest
  {
    var r := ParseNat(b);
    ParseNatExact(b);
    var s, tail := r.rest[1..r.value + 1], r.rest[r.value + 1..];
    ColonSplit(r.rest, r.value);
    Regroup(Decimal(r.value), ":", s, tail);
  }

  lemma ParseIntExact(b: Bytes)
    requires b != [] && b[0] == 'i' && Parse(b).Good?
    ensures b == Encode(Parse(b).value) + Parse(b).rest
  {
    var r := ParseNat(b[1..]);
    ParseNatExact(b[1..]);
    Bracketed(b, Decimal(r.value), r.rest);
  }

  lemma Bracketed(b: Bytes, digits: Bytes, after: Bytes)
    requires b != [] && after != [] && b[0] == 'i' && after[0] == 'e' && b[1..] == digits + after
    ensures b == ("i" + digits + "e") + after[1..]
  {
    assert b == ['i'] + b[1..] && after == ['e'] + after[1..];
    Regroup("i", digits, "e", after[1..]);
  }

  /** Nothing else is accepted: what parses is the one encoding of what it parses to. */
  lemma {:induction false} ParseExact(b: Bytes)
    requires Parse(b).Good?
    ensures b == Encode(Parse(b).value) + Parse(b).rest
    decreases |b|
  {
    var rest := Parse(b).rest;
    assert b == [b[0]] + b[1..];
    if b[0] == 'i' {
      ParseIntExact(b);
    } else if b[0] == 'd' {
      ParseEntriesExact(b[1..]);
      Regroup("d", EncodeEntries(Parse(b).value.entries), "e", rest);
    } else {
      ParseStrExact(b);
    }
  }

  lemma {:induction false} ParseEntriesExact(b: Bytes)
    requires ParseEntries(b).Good?
    ensures b == EncodeEntries(ParseEntries(b).value) + ("e" + ParseEntries(b).rest)
    decreases |b|
  {
    if b[0] == 'e' {
      assert b == "e" + b[1..] && [] + ("e" + b[1..]) == "e" + b[1..];
    } else {
      ParseStrExact(b);
      var afterKey := ParseStr(b).rest;
      ParseExact(afterKey);
      var afterItem := Parse(afterKey).rest;
      ParseEntriesExact(afterItem);
      var es := ParseEntries(b).value;
      Regroup(EncodeStr(es.key), Encode(es.item), EncodeEntries(es.rest), "e" + ParseEntries(b).rest);
    }
  }

  // ------------------------------------------------------------- ordered keys

  /** The order of byte strings, in which the keys of a dictionary must appear. */
  predicate Less(a: Bytes, b: Bytes) {
    if b == [] then false
    else if a == [] then true
    else a[0] < b[0] || (a[0] == b[0] && Less(a[1..], b[1..]))
  }

  lemma {:induction false} LessTotal(a: Bytes, b: Bytes)
    ensures Less(a, b) || Less(b, a) || a == b
    ensures !(Less(a, b) && Less(b, a)) && !Less(a, a)
  {
    if a != [] {
      LessTotal(a[1..], a[1..]);
    }
    if a != [] && b != [] && a[0] == b[0] {
      LessTotal(a[1..], b[1..]);
      assert a[1..] == b[1..] ==> a == [a[0]] + a[1..] == b;
    }
  }

  lemma {:induction false} LessTransitive(a: Bytes, b: Bytes, c: Bytes)
    requires Less(a, b) && Less(b, c)
    ensures Less(a, c)
  {
    if a != [] && a[0] == b[0] == c[0] {
      LessTransitive(a[1..], b[1..], c[1..]);
    }
  }

  lemma {:induction false} LessPrefix(p: Bytes, a: Bytes, b: Bytes)
    ensures Less(p + a, p + b) <==> Less(a, b)
  {
    if p == [] {
      assert p + a == a && p + b == b;
    } else {
      assert (p + a)[1..] == p[1..] + a && (p + b)[1..] == p[1..] + b;
      LessPrefix(p[1..], a, b);
    }
  }

  /** Keys in increasing order, in the inner dictionaries too. */
  predicate Ordered(item: Item) { item.Dict? ==> OrderedEntries(item.entries) }

  predicate OrderedEntries(es: Entries) {
    es.Entry? ==>
      Ordered(es.item) && OrderedEntries(es.rest) && (es.rest.Entry? ==> Less(es.key, es.rest.key))
  }

  // ------------------------------------------------- dictionaries from their pairs

  type Pair = (Bytes, Item)

  function FromSeq(ps: seq<Pair>): Entries {
    if ps == [] then End else Entry(ps[0].0, ps[0].1, FromSeq(ps[1..]))
  }

  /** One more pair at the end is so many more bytes at the end. */
  lemma {:induction false} EncodeAppend(ps: seq<Pair>, key: Bytes, item: Item)
    ensures EncodeEntries(FromSeq(ps + [(key, item)])) == EncodeEntries(FromSeq(ps)) + (EncodeStr(key) + Encode(item))
  {
    var k, i := EncodeStr(key), Encode(item);
    var all := ps + [(key, item)];
    if ps == [] {
      assert all == [(key, item)] && all[1..] == [];
      assert [] + (k + i) == (k + i) + [] == k + i;
    } else {
      assert all[0] == ps[0] && all[1..] == ps[1..] + [(key, item)];
      EncodeAppend(ps[1..], key, item);
      ConcatAssociative(EncodeStr(ps[0].0) + Encode(ps[0].1), EncodeEntries(FromSeq(ps[1..])), k + i);
    }
  }

  predicate Above(ps: seq<Pair>, i: int)
    requires 1 <= i < |ps|
  {
    Less(ps[i - 1].0, ps[i].0)
  }

  predicate Increasing(ps: seq<Pair>) { forall i :: 1 <= i < |ps| ==> Above(ps, i) }

  lemma {:induction false} OrderedIff(ps: seq<Pair>)
    requires forall i :: 0 <= i < |ps| ==> Ordered(ps[i].1)
    ensures OrderedEntries(FromSeq(ps)) <==> Increasing(ps)
  {
    if |ps| >= 2 {
      var rest := ps[1..];
      OrderedIff(rest);
      forall i | 2 <= i < |ps| ensures Above(ps, i) == Above(rest, i - 1) {
      }
      forall i | 1 <= i < |rest| ensures Above(rest, i) == Above(ps, i + 1) {
      }
      assert Above(ps, 1) == Less(ps[0].0, rest[0].0);
    }
  }

  datatype Found = Missing | Here(item: Item)

  function Find(es: Entries, key: Bytes): Found {
    match es
    case End => Missing
    case Entry(k, i, rest) => if k == key then Here(i) else Find(rest, key)
  }

  /** A key is found at its first place, */
  lemma {:induction false} FindFirst(ps: seq<Pair>, i: nat)
    requires i < |ps| && forall j :: 0 <= j < i ==> ps[j].0 != ps[i].0
    ensures Find(FromSeq(ps), ps[i].0) == Here(ps[i].1)
  {
    if i > 0 {
      FindFirst(ps[1..], i - 1);
    }
  }

  /** or not at all. */
  lemma {:induction false} FindNone(ps: seq<Pair>, key: Bytes)
    requires forall j :: 0 <= j < |ps| ==> ps[j].0 != key
    ensures Find(FromSeq(ps), key) == Missing
  {
    if ps != [] {
      FindNone(ps[1..], key);
    }
  }

  lemma {:induction false} IncreasingApart(ps: seq<Pair>, i: nat, j: nat)
    requires Increasing(ps) && i < j < |ps|
    ensures Less(ps[i].0, ps[j].0) && ps[i].0 != ps[j].0
  {
    assert Above(ps, j);
    if i < j - 1 {
      IncreasingApart(ps, i, j - 1);
      LessTransitive(ps[i].0, ps[j - 1].0, ps[j].0);
    }
    LessTotal(ps[i].0, ps[j].0);
  }

  /** In a dictionary with its keys in order every pair is found under its key. */
  lemma FindIncreasing(ps: seq<Pair>, i: nat)
    requires Increasing(ps) && i < |ps|
    ensures Find(FromSeq(ps), ps[i].0) == Here(ps[i].1)
  {
    forall j | 0 <= j < i ensures ps[j].0 != ps[i].0 {
      IncreasingApart(ps, j, i);
    }
    FindFirst(ps, i);
  }
}
