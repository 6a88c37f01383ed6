/**
 Byte strings. A Go `string` or `[]byte` is a sequence of characters below 256,
 so that string literals can be written as they stand in the program.
 */
module ByteStrings {

  type Byte = c: char | c as int < 256 witness '\0'
  type Bytes = seq<Byte>

  function Pow256(width: nat): (p: nat)
    ensures p >= 1
  {
    if width == 0 then 1 else 256 * Pow256(width - 1)
  }

  /** binary.BigEndian.Uint16/32/64, for any width. */
  function Value(b: Bytes): (n: nat)
    ensures n < Pow256(|b|)
  {
    if b == [] then 0 else 256 * Value(b[..|b| - 1]) + b[|b| - 1] as int
  }

  /** binary.BigEndian.PutUint16/32/64: the low `width` bytes of `n`. */
  function BigEndian(n: nat, width: nat): (b: Bytes)
    ensures |b| == width
    decreases width
  {
    if width == 0 then [] else BigEndian(n / 256, width - 1) + [(n % 256) as char]
  }

  lemma {:induction false} ValueOfBigEndian(n: nat, width: nat)
    requires n < Pow256(width)
    ensures Value(BigEndian(n, width)) == n
  {
    if width > 0 {
      ValueOfBigEndian(n / 256, width - 1);
      assert BigEndian(n, width)[..width - 1] == BigEndian(n / 256, width - 1);
    }
  }

  /** A port and back. */
  lemma PortRoundTrip(n: nat)
    requires n < 0x1_0000
    ensures Value(BigEndian(n, 2)) == n
  {
    assert Pow256(1) == 256 && Pow256(2) == 256 * Pow256(1);
    ValueOfBigEndian(n, 2);
  }

  // ------------------------------------------------------- slices of sequences

  lemma ConcatAssociative(a: Bytes, b: Bytes, c: Bytes)
    ensures (a + b) + c == a + (b + c)
  {
  }

  lemma SliceRight(a: Bytes, b: Bytes, i: nat, j: nat)
    requires i <= j <= |b|
    ensures (a + b)[|a| + i..|a| + j] == b[i..j]
  {
  }

  lemma SliceOfSlice(s: Bytes, i: nat, j: nat, k: nat, l: nat)
    requires i <= j <= |s| && k <= l <= j - i
    ensures s[i..j][k..l] == s[i + k..i + l]
  {
    var a, b := s[i..j][k..l], s[i + k..i + l];
    assert |a| == |b| && forall n :: 0 <= n < |a| ==> a[n] == b[n];
  }

  /** A part of a concatenation of three. */
  lemma Parts3(a: Bytes, b: Bytes, c: Bytes)
    ensures var s := a + b + c;
            && s[..|a|] == a && s[|a|..|a| + |b|] == b && s[|a| + |b|..] == c
  {
  }
}
