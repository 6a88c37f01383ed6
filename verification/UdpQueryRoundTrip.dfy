/**
 Writing parameters as a query and parsing it gives them back, for every escaped form
 the parser is meant to read: percent-encoding is optional for harmless bytes, its
 hexadecimal digits may be in either case, and a space may be written as '+'.
 */
module UdpQueryRoundTrip {
  import opened ByteStrings
  import opened UdpQuery

  /** Bytes that stand for themselves. */
  predicate Plain(c: Byte) {
    c != '%' && c != '+' && c != '=' && !IsSeparator(c)
  }

  predicate Escapes(e: Bytes, s: Bytes) {
    if s == [] then e == []
    else
      || (e != [] && Plain(e[0]) && e[0] == s[0] && Escapes(e[1..], s[1..]))
      || (e != [] && e[0] == '+' && s[0] == ' ' && Escapes(e[1..], s[1..]))
      || (|e| >= 3 && e[0] == '%' && IsHex(e[1]) && IsHex(e[2])
          && 16 * HexValue(e[1]) + HexValue(e[2]) == s[0] as int && Escapes(e[3..], s[1..]))
  }

  lemma {:induction false} UnescapeEscaped(e: Bytes, s: Bytes)
    requires Escapes(e, s)
    ensures QueryUnescape(e) == Some(s)
    ensures '=' !in e && forall i :: 0 <= i < |e| ==> !IsSeparator(e[i])
    decreases s
  {
    if s != [] {
      assert s == [s[0]] + s[1..];
      if e[0] == '%' {
        UnescapeEscaped(e[3..], s[1..]);
        assert e == e[..3] + e[3..];
      } else {
        UnescapeEscaped(e[1..], s[1..]);
        assert e == [e[0]] + e[1..];
      }
    }
  }

  function HexDigit(n: nat): (c: Byte)
    requires n < 16
    ensures IsHex(c) && HexValue(c) == n
  {
    if n < 10 then (n + '0' as int) as char else (n - 10 + 'A' as int) as char
  }

  predicate Unreserved(c: Byte) {
    'a' <= c <= 'z' || 'A' <= c <= 'Z' || '0' <= c <= '9' || c == '-' || c == '_' || c == '.' || c == '~'
  }

  /** url.QueryEscape */
  function QueryEscape(s: Bytes): Bytes {
    if s == [] then []
    else
      var rest := QueryEscape(s[1..]);
      if s[0] == ' ' then ['+'] + rest
      else if Unreserved(s[0]) then [s[0]] + rest
      else ['%', HexDigit(s[0] as int / 16), HexDigit(s[0] as int % 16)] + rest
  }

  lemma {:induction false} QueryEscapeEscapes(s: Bytes)
    ensures Escapes(QueryEscape(s), s)
  {
    if s != [] {
      QueryEscapeEscapes(s[1..]);
      var e, rest := QueryEscape(s), QueryEscape(s[1..]);
      if s[0] == ' ' || Unreserved(s[0]) {
        assert e[1..] == rest;
      } else {
        assert e[3..] == rest;
      }
    }
  }

  /** A parameter with one of its escaped forms, and the separator that follows it. */
  datatype Item = Item(key: Bytes, value: Bytes, escapedKey: Bytes, escapedValue: Bytes, separator: Byte)
  {
    predicate Valid() {
      Escapes(escapedKey, key) && Escapes(escapedValue, value) && IsSeparator(separator)
    }

    function Segment(): Bytes { escapedKey + "=" + escapedValue }
  }

  /** key=value&key=value... */
  function Text(items: seq<Item>): Bytes {
    if items == [] then []
    else if |items| == 1 then items[0].Segment()
    else items[0].Segment() + [items[0].separator] + Text(items[1..])
  }

  /** What the items say, read from left to right. */
  function Meaning(m: Params, items: seq<Item>, lower: Lower): Params
    decreases items
  {
    if items == [] then m else Meaning(m[lower(items[0].key) := items[0].value], items[1..], lower)
  }

  lemma SegmentMeaning(m: Params, i: Item, lower: Lower)
    requires i.Valid()
    ensures ReadSegment(m, i.Segment(), lower) == Some(m[lower(i.key) := i.value])
    ensures forall j :: 0 <= j < |i.Segment()| ==> !IsSeparator(i.Segment()[j])
  {
    UnescapeEscaped(i.escapedKey, i.key);
    UnescapeEscaped(i.escapedValue, i.value);
    var seg, n := i.Segment(), |i.escapedKey|;
    assert seg[n] == '=' && seg[..n] == i.escapedKey && seg[n + 1..] == i.escapedValue;
    PartsAt(seg, n);
  }

  lemma {:induction false} TextMeaning(m: Params, items: seq<Item>, lower: Lower)
    requires forall i :: 0 <= i < |items| ==> items[i].Valid()
    ensures ReadSegments(m, Segments(Text(items)), lower) == Some(Meaning(m, items, lower))
    decreases items
  {
    if items == [] {
      OneSegment(m, [], lower);
    } else {
      var seg, m' := items[0].Segment(), m[lower(items[0].key) := items[0].value];
      SegmentMeaning(m, items[0], lower);
      if |items| == 1 {
        SegmentsAt(seg, -1);
        OneSegment(m, seg, lower);
        assert items[1..] == [];
      } else {
        var text := Text(items);
        assert text[..|seg|] == seg && text[|seg|] == items[0].separator && text[|seg| + 1..] == Text(items[1..]);
        SegmentsAt(text, |seg|);
        var segs := Segments(text);
        assert segs[0] == seg && segs[1..] == Segments(Text(items[1..]));
        TextMeaning(m', items[1..], lower);
      }
    }
  }

  lemma OneSegment(m: Params, seg: Bytes, lower: Lower)
    ensures ReadSegments(m, [seg], lower) == ReadSegment(m, seg, lower)
  {
    assert [seg][1..] == [];
  }

  /** Any path, then the parameters: parsing gives what the parameters say. */
  lemma ParseText(path: Bytes, items: seq<Item>, lower: Lower)
    requires '?' !in path && forall i :: 0 <= i < |items| ==> items[i].Valid()
    ensures Parse(path + "?" + Text(items), lower) == Some(Meaning(map[], items, lower))
  {
    AfterPath(path, Text(items));
    TextMeaning(map[], items, lower);
  }

  lemma AfterPath(path: Bytes, text: Bytes)
    requires '?' !in path
    ensures AfterDelim(path + "?" + text) == text
  {
    var q: Bytes := path + "?" + text;
    assert q[|path|] == '?' && q[..|path|] == path && q[|path| + 1..] == text;
    AfterDelimAt(q, |path|);
  }

  /** The items list a map: every pair once. */
  ghost predicate ListsMap(items: seq<Item>, m: Params) {
    && (forall i :: 0 <= i < |items| ==> items[i].key in m && m[items[i].key] == items[i].value)
    && (forall k :: k in m ==> exists i :: 0 <= i < |items| && items[i].key == k)
  }

  lemma {:induction false} MeaningOfMap(m: Params, items: seq<Item>, lower: Lower, full: Params)
    requires forall i :: 0 <= i < |items| ==> items[i].key in full && full[items[i].key] == items[i].value
    requires forall k :: k in full ==> lower(k) == k
    requires forall k :: k in m ==> k in full && full[k] == m[k]
    ensures forall k :: k in Meaning(m, items, lower) ==> k in full && full[k] == Meaning(m, items, lower)[k]
    ensures forall k :: k in Meaning(m, items, lower) <==> k in m || exists i :: 0 <= i < |items| && items[i].key == k
    decreases items
  {
    if items != [] {
      var m' := m[lower(items[0].key) := items[0].value];
      assert items[0].key in full;
      MeaningOfMap(m', items[1..], lower, full);
      assert forall i :: 1 <= i < |items| ==> items[i] == items[1..][i - 1];
      assert forall i :: 0 <= i < |items[1..]| ==> items[1..][i] == items[i + 1];
    }
  }

  /** Every map with lower-case keys survives being written and parsed. */
  lemma QueryRoundTrip(path: Bytes, items: seq<Item>, lower: Lower, m: Params)
    requires '?' !in path && forall i :: 0 <= i < |items| ==> items[i].Valid()
    requires ListsMap(items, m) && forall k :: k in m ==> lower(k) == k
    ensures Parse(path + "?" + Text(items), lower) == Some(m)
  {
    assert Meaning(map[], items, lower) == m by { MeaningIsMap(items, lower, m); }
    ParseText(path, items, lower);
  }

  /** A parameter as url.Values.Encode writes it. */
  function Escaped(key: Bytes, value: Bytes): Item { Item(key, value, QueryEscape(key), QueryEscape(value), '&') }

  /** Every map can be written so, its pairs in any order. */
  lemma {:induction false} EveryMapIsListed(m: Params)
    ensures exists items :: ListsMap(items, m) && forall i :: 0 <= i < |items| ==> EscapedItem(items[i])
    decreases m.Keys
  {
    if m.Keys == {} {
      assert ListsMap([], m);
    } else {
      var k :| k in m;
      var rest := m - {k};
      EveryMapIsListed(rest);
      var items: seq<Item> :| ListsMap(items, rest) && forall i :: 0 <= i < |items| ==> EscapedItem(items[i]);
      ListsOneMore(items, rest, k, m);
    }
  }

  predicate EscapedItem(i: Item) { i == Escaped(i.key, i.value) }

  lemma ListsOneMore(items: seq<Item>, rest: Params, k: Bytes, m: Params)
    requires k in m && rest == m - {k} && ListsMap(items, rest) && forall i :: 0 <= i < |items| ==>
             EscapedItem(items[i])
    ensures exists all :: ListsMap(all, m) && forall i :: 0 <= i < |all| ==> EscapedItem(all[i])
  {
    var all := items + [Escaped(k, m[k])];
    assert all[|items|].key == k;
    forall key | key in m ensures exists i :: 0 <= i < |all| && all[i].key == key {
      if key != k {
        assert key in rest;
        var i :| 0 <= i < |items| && items[i].key == key;
        assert all[i].key == key;
      }
    }
    assert ListsMap(all, m);
  }

  /** So every map with lower-case keys has an encoded form, and all its encoded forms give it back. */
  lemma EncodedMapParses(path: Bytes, lower: Lower, m: Params)
    requires '?' !in path && forall k :: k in m ==> lower(k) == k
    ensures exists items :: ListsMap(items, m) && (forall i :: 0 <= i < |items| ==> EscapedItem(items[i]))
                            && Parse(path + "?" + Text(items), lower) == Some(m)
  {
    EveryMapIsListed(m);
    var items: seq<Item> :| ListsMap(items, m) && forall i :: 0 <= i < |items| ==> EscapedItem(items[i]);
    forall i | 0 <= i < |items| ensures items[i].Valid() {
      assert EscapedItem(items[i]);
      QueryEscapeEscapes(items[i].key);
      QueryEscapeEscapes(items[i].value);
    }
    QueryRoundTrip(path, items, lower, m);
  }

  lemma MeaningIsMap(items: seq<Item>, lower: Lower, m: Params)
    requires ListsMap(items, m) && forall k :: k in m ==> lower(k) == k
    ensures Meaning(map[], items, lower) == m
  {
    MeaningOfMap(map[], items, lower, m);
    var r := Meaning(map[], items, lower);
    assert r.Keys == m.Keys;
  }
}
