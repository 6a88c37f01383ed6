/**
 The two pseudo-random generators, on 64-bit words. Each step can be undone: no two states are
 merged, the all-zero state is reached from itself only, and an output gives away the word it
 was computed from.
 */
module Xorshift {

  // ------------------------------------------------------------------ xorshift64*

  function Shift12(s: bv64): bv64 { s ^ (s >> 12) }

  function Shift25(s: bv64): bv64 { s ^ (s << 25) }

  function Shift27(s: bv64): bv64 { s ^ (s >> 27) }

  function Star(s: bv64): bv64 { s * 0x2545_F491_4F6C_DD1D }

  /** XorShift64S: the output and the next state. */
  function XorShift64S(s: bv64): (bv64, bv64) {
    var next := Shift27(Shift25(Shift12(s)));
    (Star(next), next)
  }

  // What undoes the parts.

  function Unshift12(s: bv64): bv64 { s ^ (s >> 12) ^ (s >> 24) ^ (s >> 36) ^ (s >> 48) ^ (s >> 60) }

  function Unshift25(s: bv64): bv64 { s ^ (s << 25) ^ (s << 50) }

  function Unshift27(s: bv64): bv64 { s ^ (s >> 27) ^ (s >> 54) }

  lemma Undo12(s: bv64)
    ensures Unshift12(Shift12(s)) == s
  {
    assert Unshift12(s ^ (s >> 12)) == s;
  }

  lemma Undo25(s: bv64)
    ensures Unshift25(Shift25(s)) == s
  {
    assert Unshift25(s ^ (s << 25)) == s;
  }

  lemma Undo27(s: bv64)
    ensures Unshift27(Shift27(s)) == s
  {
    assert Unshift27(s ^ (s >> 27)) == s;
  }

  lemma Redo12(s: bv64)
    ensures Shift12(Unshift12(s)) == s
  {
    assert Shift12(s ^ (s >> 12) ^ (s >> 24) ^ (s >> 36) ^ (s >> 48) ^ (s >> 60)) == s;
  }

  lemma Redo25(s: bv64)
    ensures Shift25(Unshift25(s)) == s
  {
    assert Shift25(s ^ (s << 25) ^ (s << 50)) == s;
  }

  lemma Redo27(s: bv64)
    ensures Shift27(Unshift27(s)) == s
  {
    assert Shift27(s ^ (s >> 27) ^ (s >> 54)) == s;
  }

  /** The state before a step, from the state after it. */
  function Previous(s: bv64): bv64 { Unshift12(Unshift25(Unshift27(s))) }

  /** The state an output came with: the factor is the inverse of the multiplier modulo 2^64. */
  function StateOfOutput(r: bv64): bv64 { r * 0x5907_1D96_D81E_CD35 }

  /** A step is undone by Previous, */
  lemma StepInvertible(s: bv64)
    ensures Previous(XorShift64S(s).1) == s
  {
    Undo12(s);
    Undo25(Shift12(s));
    Undo27(Shift25(Shift12(s)));
  }

  /** every state is reached, from the state Previous names, */
  lemma StepOnto(s: bv64)
    ensures XorShift64S(Previous(s)).1 == s
  {
    Redo27(s);
    Redo25(Unshift27(s));
    Redo12(Unshift25(Unshift27(s)));
  }

  /** and the output alone determines the state it came with. */
  lemma OutputDeterminesState(s: bv64)
    ensures StateOfOutput(XorShift64S(s).0) == XorShift64S(s).1
  {
    UndoProduct(Shift27(Shift25(Shift12(s))));
  }

  /** Every output is put out, so the output is a bijection of the state. */
  lemma OutputOnto(r: bv64)
    ensures XorShift64S(Previous(StateOfOutput(r))).0 == r
  {
    StepOnto(StateOfOutput(r));
    RedoProduct(r);
  }

  lemma RedoProduct(r: bv64)
    ensures Star(StateOfOutput(r)) == r
  {
    assert Star(r * 0x5907_1D96_D81E_CD35) == r;
  }

  lemma UndoProduct(c: bv64)
    ensures StateOfOutput(Star(c)) == c
  {
    assert StateOfOutput(c * 0x2545_F491_4F6C_DD1D) == c;
  }

  lemma ZeroIsFixed()
    ensures XorShift64S(0) == (0, 0)
  {
  }

  /** The state after n steps. */
  function Run(s: bv64, n: nat): bv64 {
    if n == 0 then s else XorShift64S(Run(s, n - 1)).1
  }

  function RunBack(s: bv64, n: nat): bv64
    decreases n
  {
    if n == 0 then s else RunBack(Previous(s), n - 1)
  }

  /** However long a run is, it can be followed back, */
  lemma {:induction false} RunInvertible(s: bv64, n: nat)
    ensures RunBack(Run(s, n), n) == s
  {
    if n > 0 {
      StepInvertible(Run(s, n - 1));
      RunInvertible(s, n - 1);
    }
  }

  /** so runs from different states never meet, */
  lemma RunsNeverMeet(s: bv64, t: bv64, n: nat)
    requires Run(s, n) == Run(t, n)
    ensures s == t
  {
    RunInvertible(s, n);
    RunInvertible(t, n);
  }

  /** and a run gets to zero, where it would stay for ever, exactly when it started there. */
  lemma {:induction false} NeverZero(s: bv64, n: nat)
    ensures Run(s, n) == 0 <==> s == 0
    ensures XorShift64S(Run(s, n)).0 == 0 <==> s == 0
  {
    ZeroRun(n);
    ZeroRun(n + 1);
    if Run(s, n) == 0 {
      RunsNeverMeet(s, 0, n);
    }
    OutputDeterminesState(Run(s, n));
    if XorShift64S(Run(s, n)).0 == 0 {
      RunsNeverMeet(s, 0, n + 1);
    }
  }

  lemma {:induction false} ZeroRun(n: nat)
    ensures Run(0, n) == 0
  {
    ZeroIsFixed();
    if n > 0 {
      ZeroRun(n - 1);
    }
  }

  // -------------------------------------------------------------- xoroshiro128**

  function Five(x: bv64): bv64 { x * 5 }

  function Nine(x: bv64): bv64 { x * 9 }

  function Rotate7(x: bv64): bv64 { (x << 7) | (x >> 57) }

  function Rotate24(x: bv64): bv64 { (x << 24) | (x >> 40) }

  function Rotate37(x: bv64): bv64 { (x << 37) | (x >> 27) }

  function Mix(y: bv64, x: bv64): bv64 { y ^ (x ^ (x << 16)) }

  function Xor(x: bv64, y: bv64): bv64 { x ^ y }

  /** XoRoShiRo128SS: the output and the two words of the next state. */
  function XoRoShiRo128SS(s0: bv64, s1: bv64): (bv64, bv64, bv64) {
    var x := Xor(s1, s0);
    (Nine(Rotate7(Five(s0))), Mix(Rotate24(s0), x), Rotate37(x))
  }

  function Unrotate24(x: bv64): bv64 { (x >> 24) | (x << 40) }

  function Unrotate37(x: bv64): bv64 { (x >> 37) | (x << 27) }

  lemma Undo24(x: bv64)
    ensures Unrotate24(Rotate24(x)) == x && Rotate24(Unrotate24(x)) == x
  {
  }

  lemma Undo37(x: bv64)
    ensures Unrotate37(Rotate37(x)) == x && Rotate37(Unrotate37(x)) == x
  {
  }

  lemma UndoXor(x: bv64, y: bv64)
    ensures Xor(Xor(x, y), y) == x
  {
  }

  lemma UndoMix(y: bv64, x: bv64)
    ensures Mix(Mix(y, x), x) == y
  {
    assert Mix(y ^ (x ^ (x << 16)), x) == y;
  }

  function PreviousPair(s0: bv64, s1: bv64): (bv64, bv64) {
    var x := Unrotate37(s1);
    var p := Unrotate24(Mix(s0, x));
    (p, Xor(x, p))
  }

  // The factors are the inverses of 5 and 9 modulo 2^64.

  function Fifth(x: bv64): bv64 { x * 0xCCCC_CCCC_CCCC_CCCD }

  function Ninth(x: bv64): bv64 { x * 0x8E38_E38E_38E3_8E39 }

  function Unrotate7(x: bv64): bv64 { (x >> 7) | (x << 57) }

  lemma UndoFive(x: bv64)
    ensures Fifth(Five(x)) == x
  {
    assert Fifth(x * 5) == x;
  }

  lemma UndoNine(x: bv64)
    ensures Ninth(Nine(x)) == x
  {
    assert Ninth(x * 9) == x;
  }

  lemma Undo7(x: bv64)
    ensures Unrotate7(Rotate7(x)) == x
  {
    assert Unrotate7((x << 7) | (x >> 57)) == x;
  }

  /** The first word of the state, from the output. */
  function WordOfOutput(r: bv64): bv64 { Fifth(Unrotate7(Ninth(r))) }

  /** A step is undone by PreviousPair, */
  lemma PairInvertible(s0: bv64, s1: bv64)
    ensures var t := XoRoShiRo128SS(s0, s1); PreviousPair(t.1, t.2) == (s0, s1)
  {
    Undo37(Xor(s1, s0));
    UndoMix(Rotate24(s0), Xor(s1, s0));
    Undo24(s0);
    UndoXor(s1, s0);
  }

  /** and the output alone determines the first word it was computed from. */
  lemma OutputInvertible(s0: bv64, s1: bv64)
    ensures WordOfOutput(XoRoShiRo128SS(s0, s1).0) == s0
  {
    UndoNine(Rotate7(Five(s0)));
    Undo7(Five(s0));
    UndoFive(s0);
  }

  /** Every output is put out, so the output is a bijection of the first word. */
  lemma OutputOntoWord(r: bv64, s1: bv64)
    ensures XoRoShiRo128SS(WordOfOutput(r), s1).0 == r
  {
    RedoFive(Unrotate7(Ninth(r)));
    Redo7(Ninth(r));
    RedoNine(r);
  }

  lemma RedoFive(x: bv64)
    ensures Five(Fifth(x)) == x
  {
    assert Five(x * 0xCCCC_CCCC_CCCC_CCCD) == x;
  }

  lemma RedoNine(x: bv64)
    ensures Nine(Ninth(x)) == x
  {
    assert Nine(x * 0x8E38_E38E_38E3_8E39) == x;
  }

  lemma Redo7(x: bv64)
    ensures Rotate7(Unrotate7(x)) == x
  {
    assert Rotate7((x >> 7) | (x << 57)) == x;
  }

  /** Every pair is reached, from the pair PreviousPair names. */
  lemma PairOnto(s0: bv64, s1: bv64)
    ensures var p := PreviousPair(s0, s1); var t := XoRoShiRo128SS(p.0, p.1); (t.1, t.2) == (s0, s1)
  {
    var x := Unrotate37(s1);
    UndoXor(x, Unrotate24(Mix(s0, x)));
    Undo24(Mix(s0, x));
    UndoMix(s0, x);
    Undo37(s1);
  }

  function RunPair(s0: bv64, s1: bv64, n: nat): (bv64, bv64) {
    if n == 0 then (s0, s1) else var p := RunPair(s0, s1, n - 1); var t := XoRoShiRo128SS(p.0, p.1); (t.1, t.2)
  }

  /** Runs from different pairs of words never meet; none but the zero pair runs into the zero pair. */
  lemma {:induction false} PairRunsNeverMeet(s0: bv64, s1: bv64, t0: bv64, t1: bv64, n: nat)
    requires RunPair(s0, s1, n) == RunPair(t0, t1, n)
    ensures s0 == t0 && s1 == t1
  {
    if n > 0 {
      var p, q := RunPair(s0, s1, n - 1), RunPair(t0, t1, n - 1);
      PairInvertible(p.0, p.1);
      PairInvertible(q.0, q.1);
      PairRunsNeverMeet(s0, s1, t0, t1, n - 1);
    }
  }

  lemma {:induction false} PairNeverZero(s0: bv64, s1: bv64, n: nat)
    ensures RunPair(s0, s1, n) == (0, 0) <==> s0 == 0 && s1 == 0
  {
    ZeroPairRun(n);
    if RunPair(s0, s1, n) == (0, 0) {
      PairRunsNeverMeet(s0, s1, 0, 0, n);
    }
  }

  lemma {:induction false} ZeroPairRun(n: nat)
    ensures RunPair(0, 0, n) == (0, 0)
  {
    if n > 0 {
      ZeroPairRun(n - 1);
    }
  }
}
