/**
 The query parser of the UDP frontend: segments between '&' or ';', each a key and a
 value that are unescaped (section 2.1 of RFC 3986, with '+' for a space); keys are
 lower-cased and the last value of a key wins.
 */
module UdpQuery {
  import opened ByteStrings

  type Params = map<Bytes, Bytes>

  datatype Option<T> = None | Some(value: T)

  /** strings.ToLower, which knows about Unicode, is taken as any function on byte strings. */
  type Lower = Bytes -> Bytes

  // -------------------------------------------------------------- unescaping

  predicate IsHex(c: Byte) {
    '0' <= c <= '9' || 'a' <= c <= 'f' || 'A' <= c <= 'F'
  }

  function HexValue(c: Byte): (n: nat)
    requires IsHex(c)
    ensures n < 16
  {
    if '0' <= c <= '9' then c as int - '0' as int
    else if 'a' <= c <= 'f' then c as int - 'a' as int + 10
    else c as int - 'A' as int + 10
  }

  /** url.QueryUnescape */
  function QueryUnescape(s: Bytes): (r: Option<Bytes>) {
    if s == [] then Some([])
    else if s[0] == '%' then
      if |s| < 3 || !IsHex(s[1]) || !IsHex(s[2]) then None
      else
        match QueryUnescape(s[3..])
        case None => None
        case Some(rest) => Some([(16 * HexValue(s[1]) + HexValue(s[2])) as char] + rest)
    else
      match QueryUnescape(s[1..])
      case None => None
      case Some(rest) => Some([if s[0] == '+' then ' ' else s[0]] + rest)
  }

  // ----------------------------------------------------------- specification

  predicate IsSeparator(c: Byte) { c == '&' || c == ';' }

  /** Everything after the first '?', or everything. */
  function AfterDelim(s: Bytes): Bytes {
    if '?' in s then Rest(s) else s
  }

  function Rest(s: Bytes): Bytes
    requires '?' in s
  {
    if s[0] == '?' then s[1..] else Rest(s[1..])
  }

  /** The text cut at every separator. */
  function Segments(s: Bytes): (r: seq<Bytes>)
    ensures r != []
  {
    if s == [] then [[]]
    else if IsSeparator(s[0]) then [[]] + Segments(s[1..])
    else
      var r := Segments(s[1..]);
      [[s[0]] + r[0]] + r[1..]
  }

  function KeyPart(seg: Bytes): Bytes {
    if seg == [] || seg[0] == '=' then [] else [seg[0]] + KeyPart(seg[1..])
  }

  function ValuePart(seg: Bytes): Bytes {
    if seg == [] then [] else if seg[0] == '=' then seg[1..] else ValuePart(seg[1..])
  }

  predicate BadEscape(seg: Bytes) {
    seg != [] && (QueryUnescape(KeyPart(seg)).None? || QueryUnescape(ValuePart(seg)).None?)
  }

  /** One segment read into the parameters; an empty one says nothing. */
  function ReadSegment(m: Params, seg: Bytes, lower: Lower): (r: Option<Params>) {
    if seg == [] then Some(m)
    else if BadEscape(seg) then None
    else Some(m[lower(QueryUnescape(KeyPart(seg)).value) := QueryUnescape(ValuePart(seg)).value])
  }

  function ReadSegments(m: Params, segs: seq<Bytes>, lower: Lower): (r: Option<Params>)
    decreases segs
  {
    if segs == [] then Some(m)
    else
      match ReadSegment(m, segs[0], lower)
      case None => None
      case Some(m') => ReadSegments(m', segs[1..], lower)
  }

  function Parse(query: Bytes, lower: Lower): (r: Option<Params>) {
    ReadSegments(map[], Segments(AfterDelim(query)), lower)
  }

  // ------------------------------------------------------------- the program

  /** bytes.IndexRune for an ASCII character. */
  method IndexByte(s: Bytes, c: Byte) returns (i: int)
    ensures i == -1 ==> c !in s
    ensures i != -1 ==> 0 <= i < |s| && s[i] == c && c !in s[..i]
  {
    for n := 0 to |s|
      invariant c !in s[..n]
    {
      if s[n] == c { return n; }
    }
    i := -1;
    assert s[..|s|] == s;
  }

  /** bytes.IndexAny(s, "&;") */
  method IndexSeparator(s: Bytes) returns (i: int)
    ensures i == -1 ==> forall j :: 0 <= j < |s| ==> !IsSeparator(s[j])
    ensures i != -1 ==> 0 <= i < |s| && IsSeparator(s[i]) && forall j :: 0 <= j < i ==> !IsSeparator(s[j])
  {
    for n := 0 to |s|
      invariant forall j :: 0 <= j < n ==> !IsSeparator(s[j])
    {
      if IsSeparator(s[n]) { return n; }
    }
    i := -1;
  }

  /** parseQuery: the left-to-right fold over the segments. */
  method ParseQuery(text: Bytes, lower: Lower) returns (r: Option<Params>)
    ensures r == Parse(text, lower)
  {
    var query := text;
    var queryDelim := IndexByte(query, '?');
    if queryDelim != -1 {
      query := query[queryDelim + 1..];
    }
    AfterDelimAt(text, queryDelim);
    var params: Params := map[];
    while |query| > 0
      invariant ReadSegments(params, Segments(query), lower) == Parse(text, lower)
      decreases |query|
    {
      var key := query;
      var i := IndexSeparator(key);
      SegmentsAt(query, i);
      if i >= 0 {
        key, query := key[..i], key[i + 1..];
      } else {
        query := [];
      }
      if |key| == 0 {
        continue;
      }
      var value: Bytes := [];
      var j := IndexByte(key, '=');
      PartsAt(key, j);
      if j >= 0 {
        key, value := key[..j], key[j + 1..];
      }
      var k := QueryUnescape(key);
      if k.None? {
        return None;
      }
      var v := QueryUnescape(value);
      if v.None? {
        return None;
      }
      params := params[lower(k.value) := v.value];
    }
    r := Some(params);
  }

  lemma {:induction false} AfterDelimAt(s: Bytes, i: int)
    requires i == -1 ==> '?' !in s
    requires i != -1 ==> 0 <= i < |s| && s[i] == '?' && '?' !in s[..i]
    ensures AfterDelim(s) == if i == -1 then s else s[i + 1..]
  {
    if i > 0 {
      assert s[0] == s[..i][0];
      assert s[1..][i - 1] == '?' && s[1..][..i - 1] == s[..i][1..];
      AfterDelimAt(s[1..], i - 1);
    }
  }

  lemma {:induction false} SegmentsAt(s: Bytes, i: int)
    requires i == -1 ==> forall j :: 0 <= j < |s| ==> !IsSeparator(s[j])
    requires i != -1 ==> 0 <= i < |s| && IsSeparator(s[i]) && forall j :: 0 <= j < i ==> !IsSeparator(s[j])
    ensures Segments(s) == if i == -1 then [s] else [s[..i]] + Segments(s[i + 1..])
    decreases |s|
  {
    if i == 0 {
    } else if s != [] {
      SegmentsAt(s[1..], if i == -1 then -1 else i - 1);
      assert s == [s[0]] + s[1..];
      if i > 0 { assert s[..i] == [s[0]] + s[1..][..i - 1]; }
    }
  }

  lemma {:induction false} PartsAt(s: Bytes, i: int)
    requires i == -1 ==> '=' !in s
    requires i != -1 ==> 0 <= i < |s| && s[i] == '=' && '=' !in s[..i]
    ensures KeyPart(s) == if i == -1 then s else s[..i]
    ensures ValuePart(s) == if i == -1 then [] else s[i + 1..]
    decreases |s|
  {
    if i == 0 {
    } else if s != [] {
      assert s == [s[0]] + s[1..];
      if i > 0 {
        assert s[..i] == [s[0]] + s[1..][..i - 1];
        assert s[0] == s[..i][0] && s[1..][..i - 1] == s[..i][1..];
      }
      PartsAt(s[1..], if i == -1 then -1 else i - 1);
    }
  }

  // ------------------------------------------------------ what parsing means

  /** A '%' that two hexadecimal digits do not follow. */
  predicate BadAt(s: Bytes, i: int)
    requires 0 <= i < |s|
  {
    s[i] == '%' && (i + 2 >= |s| || !IsHex(s[i + 1]) || !IsHex(s[i + 2]))
  }

  predicate HasBad(s: Bytes) { exists i :: 0 <= i < |s| && BadAt(s, i) }

  /** Bytes in front that are no '%' do not matter. */
  lemma BadBehind(a: Bytes, b: Bytes)
    requires '%' !in a
    ensures HasBad(a + b) <==> HasBad(b)
  {
    forall i | 0 <= i < |b| ensures BadAt(a + b, |a| + i) == BadAt(b, i) {
    }
    if i :| 0 <= i < |a + b| && BadAt(a + b, i) {
      assert i >= |a| && BadAt(b, i - |a|);
    }
  }

  /** Unescaping fails exactly on a '%' without its two digits. */
  lemma {:induction false} UnescapeFailsIff(s: Bytes)
    ensures QueryUnescape(s).None? <==> HasBad(s)
  {
    if s != [] {
      var n := if s[0] != '%' then 1 else if BadAt(s, 0) then 0 else 3;
      if n == 1 {
        UnescapeFailsIff(s[1..]);
        assert s == s[..1] + s[1..];
        BadBehind(s[..1], s[1..]);
      } else if n == 3 {
        UnescapeFailsIff(s[3..]);
        AfterEscape(s);
      }
    }
  }

  lemma AfterEscape(s: Bytes)
    requires |s| >= 3 && s[0] == '%' && IsHex(s[1]) && IsHex(s[2])
    ensures HasBad(s) <==> HasBad(s[3..])
  {
    assert s[1..] == s[1..3] + s[3..];
    BadBehind(s[1..3], s[3..]);
    forall i | 1 <= i < |s| ensures BadAt(s, i) == BadAt(s[1..], i - 1) {
    }
    if i :| 0 <= i < |s| && BadAt(s, i) {
      assert BadAt(s[1..], i - 1);
    }
    if i :| 0 <= i < |s[1..]| && BadAt(s[1..], i) {
      assert BadAt(s, i + 1);
    }
  }

  /** No escape reaches across a byte that is neither '%' nor a digit, so cutting there changes nothing. */
  lemma BadAcross(a: Bytes, c: Byte, b: Bytes)
    requires c != '%' && !IsHex(c)
    ensures HasBad(a + [c] + b) <==> HasBad(a) || HasBad(b)
  {
    var s := a + [c] + b;
    forall i | 0 <= i < |a| ensures BadAt(s, i) == BadAt(a, i) {
    }
    forall i | 0 <= i < |b| ensures BadAt(s, |a| + 1 + i) == BadAt(b, i) {
    }
    if i :| 0 <= i < |s| && BadAt(s, i) {
      assert if i < |a| then BadAt(a, i) else BadAt(b, i - |a| - 1);
    }
  }

  lemma {:induction false} SegmentParts(seg: Bytes)
    ensures seg == if '=' in seg then KeyPart(seg) + ['='] + ValuePart(seg) else KeyPart(seg)
    ensures '=' !in seg ==> ValuePart(seg) == []
  {
    if seg != [] && seg[0] != '=' {
      SegmentParts(seg[1..]);
      assert seg == [seg[0]] + seg[1..];
    }
  }

  lemma BadSegmentIff(seg: Bytes)
    ensures BadEscape(seg) <==> HasBad(seg)
  {
    SegmentParts(seg);
    UnescapeFailsIff(KeyPart(seg));
    UnescapeFailsIff(ValuePart(seg));
    if '=' in seg { BadAcross(KeyPart(seg), '=', ValuePart(seg)); }
  }

  function SeparatorAt(s: Bytes): (i: int)
    ensures i == -1 ==> forall j :: 0 <= j < |s| ==> !IsSeparator(s[j])
    ensures i != -1 ==> 0 <= i < |s| && IsSeparator(s[i]) && forall j :: 0 <= j < i ==> !IsSeparator(s[j])
  {
    if s == [] then -1
    else if IsSeparator(s[0]) then 0
    else var i := SeparatorAt(s[1..]); if i == -1 then -1 else i + 1
  }

  predicate SomeBad(segs: seq<Bytes>) { exists i :: 0 <= i < |segs| && BadEscape(segs[i]) }

  lemma {:induction false} BadSegmentsIff(s: Bytes)
    ensures SomeBad(Segments(s)) <==> HasBad(s)
    decreases |s|
  {
    var n := SeparatorAt(s);
    SegmentsAt(s, n);
    var segs := Segments(s);
    if n == -1 {
      BadSegmentIff(s);
      assert segs[0] == s;
    } else {
      BadSegmentsIff(s[n + 1..]);
      BadCut(s, n);
      SomeBadFirst(s[..n], Segments(s[n + 1..]));
    }
  }

  lemma BadCut(s: Bytes, n: nat)
    requires n < |s| && IsSeparator(s[n])
    ensures HasBad(s) <==> BadEscape(s[..n]) || HasBad(s[n + 1..])
  {
    BadSegmentIff(s[..n]);
    assert s == s[..n] + [s[n]] + s[n + 1..];
    BadAcross(s[..n], s[n], s[n + 1..]);
  }

  lemma SomeBadFirst(seg: Bytes, rest: seq<Bytes>)
    ensures SomeBad([seg] + rest) <==> BadEscape(seg) || SomeBad(rest)
  {
    var segs := [seg] + rest;
    assert segs[0] == seg;
    if i :| 0 <= i < |rest| && BadEscape(rest[i]) {
      assert BadEscape(segs[i + 1]);
    }
  }

  /** Parsing fails exactly when a '%' behind the first '?' lacks its two hexadecimal digits. */
  lemma ParseFailsIff(text: Bytes, lower: Lower)
    ensures Parse(text, lower).None? <==> HasBad(AfterDelim(text))
  {
    FailsOnBadEscape(map[], Segments(AfterDelim(text)), lower);
    BadSegmentsIff(AfterDelim(text));
  }

  /** The fold over the segments fails exactly when one of them does. */
  lemma {:induction false} FailsOnBadEscape(m: Params, segs: seq<Bytes>, lower: Lower)
    ensures ReadSegments(m, segs, lower).None? <==> SomeBad(segs)
    decreases segs
  {
    if segs != [] {
      var m' := ReadSegment(m, segs[0], lower);
      if m'.Some? {
        FailsOnBadEscape(m'.value, segs[1..], lower);
        assert forall i :: 1 <= i < |segs| ==> segs[i] == segs[1..][i - 1];
      } else {
        assert BadEscape(segs[0]);
      }
    }
  }

  function SegmentKey(seg: Bytes, lower: Lower): Bytes
    requires !BadEscape(seg) && seg != []
  {
    lower(QueryUnescape(KeyPart(seg)).value)
  }

  /** The last segment that names a key gives its value; no other key is defined. */
  lemma {:induction false} LastValueWins(m: Params, segs: seq<Bytes>, lower: Lower, key: Bytes)
    requires ReadSegments(m, segs, lower).Some?
    ensures var r := ReadSegments(m, segs, lower).value;
            if exists i :: 0 <= i < |segs| && Names(segs[i], lower, key) then
              exists i :: 0 <= i < |segs| && Names(segs[i], lower, key)
                          && (forall j :: i < j < |segs| ==> !Names(segs[j], lower, key))
                          && key in r && r[key] == QueryUnescape(ValuePart(segs[i])).value
            else (key in r <==> key in m) && (key in r ==> r[key] == m[key])
    decreases segs
  {
    if segs != [] {
      var m' := ReadSegment(m, segs[0], lower).value;
      var rest := segs[1..];
      LastValueWins(m', rest, lower, key);
      assert forall i :: 1 <= i < |segs| ==> segs[i] == rest[i - 1];
      assert forall i :: 0 <= i < |rest| ==> rest[i] == segs[i + 1];
      if i :| 0 <= i < |rest| && Names(rest[i], lower, key)
              && (forall j :: i < j < |rest| ==> !Names(rest[j], lower, key)) {
        assert Names(segs[i + 1], lower, key);
        assert forall j :: i + 1 < j < |segs| ==> !Names(segs[j], lower, key);
      }
    }
  }

  predicate Names(seg: Bytes, lower: Lower, key: Bytes) {
    seg != [] && !BadEscape(seg) && SegmentKey(seg, lower) == key
  }
}
