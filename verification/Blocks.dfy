/**
 Byte strings made of blocks: laid out one after the other, and cut again at a fixed width.
 */
module Blocks {
  import opened ByteStrings

  function Concat(bs: seq<Bytes>): Bytes {
    if bs == [] then [] else bs[0] + Concat(bs[1..])
  }

  function Chunks(b: Bytes, w: nat): (r: seq<Bytes>)
    requires w > 0
    ensures forall i :: 0 <= i < |r| ==> |r[i]| == w
    decreases |b|
  {
    if |b| < w then [] else [b[..w]] + Chunks(b[w..], w)
  }

  predicate AllWide(bs: seq<Bytes>, w: nat) { forall i :: 0 <= i < |bs| ==> |bs[i]| == w }

  lemma {:induction false} ConcatAppend(bs: seq<Bytes>, b: Bytes)
    ensures Concat(bs + [b]) == Concat(bs) + b
  {
    if bs == [] {
      assert bs + [b] == [b] && [b][1..] == [];
      assert Concat([b]) == b + [];
    } else {
      assert (bs + [b])[1..] == bs[1..] + [b] && (bs + [b])[0] == bs[0];
      ConcatAppend(bs[1..], b);
      ConcatAssociative(bs[0], Concat(bs[1..]), b);
    }
  }

  /** Cutting at the width of the blocks gives them back. */
  lemma {:induction false} ChunksOfConcat(bs: seq<Bytes>, w: nat)
    requires w > 0 && AllWide(bs, w)
    ensures Chunks(Concat(bs), w) == bs
  {
    if bs != [] {
      var rest := Concat(bs[1..]);
      assert (bs[0] + rest)[..w] == bs[0] && (bs[0] + rest)[w..] == rest;
      ChunksOfConcat(bs[1..], w);
    }
  }

  lemma {:induction false} ConcatLength(bs: seq<Bytes>, w: nat)
    requires AllWide(bs, w)
    ensures |Concat(bs)| == w * |bs|
  {
    if bs != [] {
      ConcatLength(bs[1..], w);
      assert w * |bs| == w + w * (|bs| - 1);
    }
  }

  /** Which bytes the i-th chunk is. */
  lemma {:induction false} ChunkAt(b: Bytes, w: nat, i: nat)
    requires w > 0
    requires i < |Chunks(b, w)|
    ensures w * i + w <= |b| && Chunks(b, w)[i] == b[w * i..w * i + w]
    decreases i
  {
    if i > 0 {
      ChunkAt(b[w..], w, i - 1);
      assert w * i == w * (i - 1) + w;
      SliceOfSlice(b, w, |b|, w * (i - 1), w * (i - 1) + w);
      assert b[w..] == b[w..|b|];
    }
  }

  /** Where the i-th of some blocks lies behind a head. */
  lemma BlockAt(head: Bytes, bs: seq<Bytes>, w: nat, i: nat)
    requires w > 0 && AllWide(bs, w) && i < |bs|
    ensures |head + Concat(bs)| == |head| + w * |bs|
    ensures |head| + w * i + w <= |head + Concat(bs)|
    ensures (head + Concat(bs))[|head| + w * i..|head| + w * i + w] == bs[i]
  {
    ConcatLength(bs, w);
    BlockIn(bs, w, i);
    Behind(head, Concat(bs), w * i, w);
  }

  lemma TwelveAt(head: Bytes, bs: seq<Bytes>, i: nat)
    requires |head| == 8 && AllWide(bs, 12) && i < |bs|
    ensures var b := head + Concat(bs); |b| == 8 + 12 * |bs| && b[8 + 12 * i..20 + 12 * i] == bs[i]
  {
    BlockAt(head, bs, 12, i);
  }

  lemma BlockIn(bs: seq<Bytes>, w: nat, i: nat)
    requires w > 0 && AllWide(bs, w) && i < |bs|
    ensures w * i + w <= |Concat(bs)| && Concat(bs)[w * i..w * i + w] == bs[i]
  {
    ChunksOfConcat(bs, w);
    ChunkAt(Concat(bs), w, i);
  }

  lemma Behind(head: Bytes, b: Bytes, at: int, w: nat)
    requires 0 <= at && at + w <= |b|
    ensures (head + b)[|head| + at..|head| + at + w] == b[at..at + w]
  {
    SliceRight(head, b, at, at + w);
  }
}
