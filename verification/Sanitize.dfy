/**
 Cleaning the addresses of a request: invalid ones are dropped, copies are merged, and
 what the client named itself comes first.
 */
module Sanitize {
  import opened Bittorrent
  import opened FlatStore

  /** RequestAddress.IsValid */
  predicate IsValid(a: RequestAddress) {
    a.addr.IsValid() && !(a.addr.IsUnspecified() || a.addr.IsMulticast() || a.addr == V4(BROADCAST4))
  }

  predicate Admissible(a: RequestAddress, ignorePrivate: bool) {
    IsValid(a) && (!ignorePrivate || (a.addr.IsGlobalUnicast() && !a.addr.IsPrivate()))
  }

  /** RequestAddresses.Add: the check comes before the address is unmapped. */
  function Add(aa: seq<RequestAddress>, a: RequestAddress): seq<RequestAddress> {
    if IsValid(a) then aa + [a.(addr := a.addr.Unmap())] else aa
  }

  /** Is the address there, in an admissible copy; with `provided`, in one the client named? */
  predicate Has(aa: seq<RequestAddress>, ignorePrivate: bool, a: Addr, provided: bool) {
    exists i :: 0 <= i < |aa| && aa[i].addr == a && Admissible(aa[i], ignorePrivate) && (provided ==> aa[i].provided)
  }

  predicate ProvidedFirst(out: seq<RequestAddress>) {
    forall i, j :: 0 <= i < j < |out| ==> (out[j].provided ==> out[i].provided)
  }

  /** Exactly the distinct admissible addresses, each marked provided iff some copy was. */
  ghost predicate Merges(out: seq<RequestAddress>, aa: seq<RequestAddress>, ignorePrivate: bool) {
    && (forall i, j :: 0 <= i < j < |out| ==> out[i].addr != out[j].addr)
    && (forall x :: x in out <==>
                    Has(aa, ignorePrivate, x.addr, false) && (x.provided <==> Has(aa, ignorePrivate, x.addr, true)))
  }

  ghost predicate Cleans(out: seq<RequestAddress>, aa: seq<RequestAddress>, ignorePrivate: bool) {
    Merges(out, aa, ignorePrivate) && ProvidedFirst(out)
  }

  /** RequestAddresses.Sanitize, for any order of the map and any unstable sort. */
  method Sanitize(aa: seq<RequestAddress>, ignorePrivate: bool) returns (ok: bool, out: seq<RequestAddress>)
    ensures Cleans(out, aa, ignorePrivate)
    ensures ok <==> out != []
  {
    if |aa| == 0 {
      return false, [];
    }
    var unique := MergeCopies(aa, ignorePrivate);
    var items := Items(unique);
    if |items| > 1 {
      SortExists(items);
      out :| multiset(out) == multiset(items) && ProvidedFirst(out);
      SamePermuted(out, items);
    } else {
      out := items;
    }
    ok := |unique| > 0;
    assert |out| == |items| by { assert multiset(out) == multiset(items); }
  }

  /** The loop that fills uniqueAddresses. */
  method MergeCopies(aa: seq<RequestAddress>, ignorePrivate: bool) returns (unique: map<Addr, bool>)
    ensures forall a :: a in unique <==> Has(aa, ignorePrivate, a, false)
    ensures forall a :: a in unique ==> (unique[a] <==> Has(aa, ignorePrivate, a, true))
  {
    unique := map[];
    for n := 0 to |aa|
      invariant forall a :: a in unique <==> Has(aa[..n], ignorePrivate, a, false)
      invariant forall a :: a in unique ==> (unique[a] <==> Has(aa[..n], ignorePrivate, a, true))
    {
      var x := aa[n];
      assert aa[..n + 1] == aa[..n] + [x];
      forall a: Addr, p: bool
        ensures Has(aa[..n + 1], ignorePrivate, a, p) <==>
                Has(aa[..n], ignorePrivate, a, p) || (x.addr == a && Admissible(x, ignorePrivate) && (p ==> x.provided))
      {
        HasNext(aa[..n], x, ignorePrivate, a, p);
      }
      if Admissible(x, ignorePrivate) && (x.addr !in unique || (!unique[x.addr] && x.provided)) {
        unique := unique[x.addr := x.provided];
      }
    }
    assert aa[..|aa|] == aa;
  }

  lemma HasNext(aa: seq<RequestAddress>, x: RequestAddress, ignorePrivate: bool, a: Addr, p: bool)
    ensures Has(aa + [x], ignorePrivate, a, p) <==>
            Has(aa, ignorePrivate, a, p) || (x.addr == a && Admissible(x, ignorePrivate) && (p ==> x.provided))
  {
    var all := aa + [x];
    assert forall i :: 0 <= i < |aa| ==> all[i] == aa[i];
    assert all[|aa|] == x;
  }

  /** The entries of the map, in any order. */
  method Items(unique: map<Addr, bool>) returns (items: seq<RequestAddress>)
    ensures forall i, j :: 0 <= i < j < |items| ==> items[i].addr != items[j].addr
    ensures forall x :: x in items <==> x.addr in unique && unique[x.addr] == x.provided
    ensures |items| == |unique|
  {
    items := [];
    var rest := unique.Keys;
    while rest != {}
      invariant rest <= unique.Keys && |items| + |rest| == |unique|
      invariant forall i, j :: 0 <= i < j < |items| ==> items[i].addr != items[j].addr
      invariant forall x :: x in items <==> x.addr in unique && x.addr !in rest && unique[x.addr] == x.provided
      decreases rest
    {
      var a :| a in rest;
      items, rest := items + [RequestAddress(a, unique[a])], rest - {a};
    }
  }

  function Filter(s: seq<RequestAddress>, provided: bool): (r: seq<RequestAddress>)
    ensures forall i :: 0 <= i < |r| ==> r[i].provided == provided
  {
    if s == [] then []
    else
      var r := Filter(s[..|s| - 1], provided);
      if s[|s| - 1].provided == provided then r + [s[|s| - 1]] else r
  }

  lemma {:induction false} FilterSplits(s: seq<RequestAddress>)
    ensures multiset(Filter(s, true)) + multiset(Filter(s, false)) == multiset(s)
  {
    if s != [] {
      FilterSplits(s[..|s| - 1]);
      assert s == s[..|s| - 1] + [s[|s| - 1]];
    }
  }

  lemma SortExists(s: seq<RequestAddress>)
    ensures exists out :: multiset(out) == multiset(s) && ProvidedFirst(out)
  {
    FilterSplits(s);
    var out := Filter(s, true) + Filter(s, false);
    assert multiset(out) == multiset(s) && ProvidedFirst(out);
  }

  lemma SamePermuted(out: seq<RequestAddress>, items: seq<RequestAddress>)
    requires multiset(out) == multiset(items)
    requires forall i, j :: 0 <= i < j < |items| ==> items[i].addr != items[j].addr
    ensures forall x :: x in out <==> x in items
    ensures forall i, j :: 0 <= i < j < |out| ==> out[i].addr != out[j].addr
  {
    forall x: RequestAddress ensures x in out <==> x in items {
      assert x in multiset(out) <==> x in multiset(items);
    }
    forall i, j | 0 <= i < j < |out| ensures out[i].addr != out[j].addr {
      if out[i].addr == out[j].addr {
        AtMostOnce(items, out[i], out[j]);
        AtLeastTwice(out, i, j);
        assert false;
      }
    }
  }

  /** How often an address occurs in two given entries. */
  function Occurrences(s: seq<RequestAddress>, x: RequestAddress, y: RequestAddress): nat {
    multiset(s)[x] + if x == y then 0 else multiset(s)[y]
  }

  lemma {:induction false} AtMostOnce(s: seq<RequestAddress>, x: RequestAddress, y: RequestAddress)
    requires forall i, j :: 0 <= i < j < |s| ==> s[i].addr != s[j].addr
    requires x.addr == y.addr
    ensures Occurrences(s, x, y) <= 1
  {
    if s != [] {
      var n := |s| - 1;
      AtMostOnce(s[..n], x, y);
      assert s == s[..n] + [s[n]];
      if s[n].addr == x.addr {
        assert x !in s[..n] && y !in s[..n];
      }
    }
  }

  lemma AtLeastTwice(s: seq<RequestAddress>, i: nat, j: nat)
    requires i < j < |s|
    ensures Occurrences(s, s[i], s[j]) >= 2
  {
    assert s == s[..j] + [s[j]] + s[j + 1..];
    assert s[..j][i] == s[i] && s[i] in multiset(s[..j]);
  }

  // ------------------------------------------------------------------- results

  /** A provided address is chosen whenever one survives. */
  lemma FirstIsProvided(out: seq<RequestAddress>, aa: seq<RequestAddress>, ignorePrivate: bool, a: Addr)
    requires Cleans(out, aa, ignorePrivate) && Has(aa, ignorePrivate, a, true)
    ensures out != [] && out[0].provided && Has(aa, ignorePrivate, out[0].addr, true)
  {
    assert Has(aa, ignorePrivate, a, false);
    assert RequestAddress(a, true) in out;
    var i :| 0 <= i < |out| && out[i] == RequestAddress(a, true);
    assert i > 0 ==> out[0].provided;
    assert out[0] in out;
  }

  /** Any two results of one request hold the same entries, so they are permutations of each other. */
  lemma ResultIsUnique(out: seq<RequestAddress>, out': seq<RequestAddress>, aa: seq<RequestAddress>,
                       ignorePrivate: bool)
    requires Cleans(out, aa, ignorePrivate) && Cleans(out', aa, ignorePrivate)
    ensures multiset(out) == multiset(out')
  {
    SameEntries(out, out');
  }

  /** Cleaning twice only permutes. */
  lemma SanitizeIsIdempotent(out: seq<RequestAddress>, again: seq<RequestAddress>, aa: seq<RequestAddress>,
                             ignorePrivate: bool)
    requires Cleans(out, aa, ignorePrivate) && Cleans(again, out, ignorePrivate)
    ensures multiset(again) == multiset(out)
  {
    forall x: RequestAddress ensures x in again <==> x in out { CleanedTwice(out, again, aa, ignorePrivate, x); }
    SameEntries(again, out);
  }

  lemma CleanedTwice(out: seq<RequestAddress>, again: seq<RequestAddress>, aa: seq<RequestAddress>,
                     ignorePrivate: bool, x: RequestAddress)
    requires Cleans(out, aa, ignorePrivate) && Cleans(again, out, ignorePrivate)
    ensures x in again <==> x in out
  {
    if x in out {
      var i :| 0 <= i < |out| && out[i] == x;
      var j :| 0 <= j < |aa| && aa[j].addr == x.addr && Admissible(aa[j], ignorePrivate);
      assert Has(out, ignorePrivate, x.addr, false);
      assert Has(out, ignorePrivate, x.addr, true) <==> x.provided;
    }
    if x in again {
      var i :| 0 <= i < |out| && out[i].addr == x.addr && Admissible(out[i], ignorePrivate) &&
          (x.provided ==> out[i].provided);
      assert out[i].provided ==> Has(out, ignorePrivate, x.addr, true);
      assert out[i] == x;
    }
  }

  lemma {:induction false} SameEntries(s: seq<RequestAddress>, t: seq<RequestAddress>)
    requires forall i, j :: 0 <= i < j < |s| ==> s[i].addr != s[j].addr
    requires forall i, j :: 0 <= i < j < |t| ==> t[i].addr != t[j].addr
    requires forall x :: x in s <==> x in t
    ensures multiset(s) == multiset(t)
  {
    forall x: RequestAddress ensures multiset(s)[x] == multiset(t)[x] {
      AtMostOnce(s, x, x);
      AtMostOnce(t, x, x);
      assert x in s <==> x in t;
      assert (x in s <==> x in multiset(s)) && (x in t <==> x in multiset(t));
    }
  }

  // ------------------------------------------------------------- whole requests

  datatype Verdict = Accepted(req: AnnounceRequest) | InvalidPort | InvalidIP

  /** SanitizeAnnounce: port, addresses, and a NumWant that is at most the maximum, or the default. */
  method SanitizeAnnounce(r: AnnounceRequest, maxNumWant: nat, defaultNumWant: nat,
                          filterPrivate: bool) returns (v: Verdict)
    ensures v.InvalidPort? <==> r.port == 0
    ensures v.InvalidIP? <==> r.port != 0 && forall i :: 0 <= i < |r.addresses| ==>
            !Admissible(r.addresses[i], filterPrivate)
    ensures v.Accepted? ==>
              && Cleans(v.req.addresses, r.addresses, filterPrivate) && v.req.addresses != []
              && v.req == r.(addresses := v.req.addresses,
                             numWant := if r.numWantProvided then Min(r.numWant, maxNumWant) else defaultNumWant)
  {
    if r.port == 0 {
      return InvalidPort;
    }
    var ok, clean := Sanitize(r.addresses, filterPrivate);
    EmptyIffNoneAdmissible(clean, r.addresses, filterPrivate);
    if !ok {
      return InvalidIP;
    }
    var req := r.(addresses := clean);
    if !req.numWantProvided {
      req := req.(numWant := defaultNumWant);
    } else if req.numWant > maxNumWant {
      req := req.(numWant := maxNumWant);
    }
    v := Accepted(req);
  }

  lemma EmptyIffNoneAdmissible(out: seq<RequestAddress>, aa: seq<RequestAddress>, ignorePrivate: bool)
    requires Cleans(out, aa, ignorePrivate)
    ensures out == [] <==> forall i :: 0 <= i < |aa| ==> !Admissible(aa[i], ignorePrivate)
  {
    if i :| 0 <= i < |aa| && Admissible(aa[i], ignorePrivate) {
      var a := aa[i].addr;
      assert Has(aa, ignorePrivate, a, false);
      assert RequestAddress(a, Has(aa, ignorePrivate, a, true)) in out;
    }
    assert out != [] ==> out[0] in out;
  }
}
