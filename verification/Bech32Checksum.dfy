/** The bech32 checksum: a fold over GF(32) on a 32-bit word (app/bech32.odin, bech32_polymod). */
module Bech32Checksum {
  import opened Wire
  import opened BitRegroup
  import opened Radix
  import opened XorWords

  const GEN: seq<nat> := [0x3b6a57b2, 0x26508e6d, 0x1ea119fa, 0x3d4233dd, 0x2a1462b3]

  function Tap(on: bool, g: nat): nat {
    if on then g else 0
  }

  /** The XOR of the generators selected by the n low bits of b. */
  function Feedback(b: nat, n: nat): nat
    requires n <= 5
  {
    if n == 0 then 0 else Xor(Feedback(b, n - 1), Tap(Bit(b, n - 1), GEN[n - 1]))
  }

  function High(chk: nat): nat { chk / 0x200_0000 }
  function Shifted(chk: nat): nat { (chk % 0x200_0000) * 32 }

  function Step(chk: nat, v: nat): nat {
    Xor(Xor(Shifted(chk), v), Feedback(High(chk), 5))
  }

  function Fold(chk: nat, values: seq<u8>): nat {
    if values == [] then chk else Step(Fold(chk, values[..|values| - 1]), values[|values| - 1])
  }

  /** The inner loop of the source, over the five generators. */
  method ApplyTaps(start: nat, b: nat) returns (chk: nat)
    ensures chk == Xor(start, Feedback(b, 5))
  {
    chk := start;
    XorZero(start);
    for i := 0 to 5
      invariant chk == Xor(start, Feedback(b, i))
    {
      XorAssoc(start, Feedback(b, i), Tap(Bit(b, i), GEN[i]));
      XorZero(chk);
      if (b / Pow2(i)) % 2 == 1 {
        chk := Xor(chk, GEN[i]);
      }
    }
  }

  method Polymod(values: seq<u8>) returns (chk: nat)
    ensures chk == Fold(1, values)
  {
    chk := 1;
    for n := 0 to |values|
      invariant chk == Fold(1, values[..n])
    {
      assert values[..n + 1][..n] == values[..n];
      var b := chk / 0x200_0000;
      chk := ApplyTaps(Xor((chk % 0x200_0000) * 32, values[n]), b);
    }
    assert values[..|values|] == values;
  }

  // ----- one step is linear, bounded and injective -----

  lemma Sizes()
    ensures Pow2(5) == 32 && Pow2(25) == 0x200_0000 && Pow2(30) == 0x4000_0000
  {
    Pow2Add(5, 5);
    Pow2Add(10, 10);
    Pow2Add(20, 5);
    Pow2Add(25, 5);
  }

  lemma TapLinear(p: bool, q: bool, g: nat)
    ensures Tap(p != q, g) == Xor(Tap(p, g), Tap(q, g))
  {
    XorZero(g);
    XorSelf(g);
    XorZero(0);
  }

  lemma XorPairs(ab: nat, a: nat, b: nat, st: nat, s: nat, t: nat)
    requires ab == Xor(a, b) && st == Xor(s, t)
    ensures Xor(ab, st) == Xor(Xor(a, s), Xor(b, t))
  {
    XorInterchange(a, b, s, t);
  }

  lemma TapOfXor(a: nat, b: nat, i: nat, g: nat)
    ensures Tap(Bit(Xor(a, b), i), g) == Xor(Tap(Bit(a, i), g), Tap(Bit(b, i), g))
  {
    BitLinear(a, b, i);
    TapLinear(Bit(a, i), Bit(b, i), g);
  }

  lemma {:induction false} FeedbackLinear(a: nat, b: nat, n: nat)
    requires n <= 5
    ensures Feedback(Xor(a, b), n) == Xor(Feedback(a, n), Feedback(b, n))
  {
    if n == 0 {
      XorZero(0);
    } else {
      var i, g := n - 1, GEN[n - 1];
      FeedbackLinear(a, b, i);
      TapOfXor(a, b, i, g);
      XorPairs(Feedback(Xor(a, b), i), Feedback(a, i), Feedback(b, i),
               Tap(Bit(Xor(a, b), i), g), Tap(Bit(a, i), g), Tap(Bit(b, i), g));
    }
  }

  lemma ShiftedLinear(a: nat, b: nat)
    ensures Shifted(Xor(a, b)) == Xor(Shifted(a), Shifted(b))
    ensures High(Xor(a, b)) == Xor(High(a), High(b))
  {
    Sizes();
    XorDivMod(25, a, b);
    XorShift(5, a % 0x200_0000, b % 0x200_0000);
  }

  /** The step is linear over exclusive or. */
  lemma StepLinear(a: nat, b: nat, v: nat, w: nat)
    ensures Step(Xor(a, b), Xor(v, w)) == Xor(Step(a, v), Step(b, w))
  {
    ShiftedLinear(a, b);
    FeedbackLinear(High(a), High(b), 5);
    XorInterchange(Shifted(a), Shifted(b), v, w);
    XorInterchange(Xor(Shifted(a), v), Xor(Shifted(b), w), Feedback(High(a), 5), Feedback(High(b), 5));
  }

  lemma {:induction false} FeedbackBelow(b: nat, n: nat)
    requires n <= 5
    ensures Feedback(b, n) < Pow2(30)
  {
    Sizes();
    if n > 0 {
      FeedbackBelow(b, n - 1);
      XorBelow(Feedback(b, n - 1), Tap(Bit(b, n - 1), GEN[n - 1]), 30);
    }
  }

  /** The word never outgrows 30 bits, so the source's 32-bit arithmetic is exact. */
  lemma StepBelow(chk: nat, v: u8)
    ensures Step(chk, v) < Pow2(30) && Shifted(chk) < Pow2(30)
  {
    Sizes();
    FeedbackBelow(High(chk), 5);
    XorBelow(Shifted(chk), v, 30);
    XorBelow(Xor(Shifted(chk), v), Feedback(High(chk), 5), 30);
  }

  lemma {:induction false} FoldBelow(chk: nat, values: seq<u8>)
    requires chk < Pow2(30)
    ensures Fold(chk, values) < Pow2(30)
  {
    if values != [] {
      FoldBelow(chk, values[..|values| - 1]);
      StepBelow(Fold(chk, values[..|values| - 1]), values[|values| - 1]);
    }
  }

  /** Bit j of the feedback word, as the parity of the selected generators' bits. */
  lemma FeedbackBit(b: nat, j: nat, row: seq<bool>)
    requires |row| == 5 && forall i :: 0 <= i < 5 ==> row[i] == Bit(GEN[i], j)
    ensures Bit(Feedback(b, 5), j) ==
            (((((Bit(b, 0) && row[0]) != (Bit(b, 1) && row[1])) != (Bit(b, 2) && row[2]))
              != (Bit(b, 3) && row[3])) != (Bit(b, 4) && row[4]))
  {
    FeedbackBitStep(b, j, 0);
    FeedbackBitStep(b, j, 1);
    FeedbackBitStep(b, j, 2);
    FeedbackBitStep(b, j, 3);
    FeedbackBitStep(b, j, 4);
  }

  lemma FeedbackBitStep(b: nat, j: nat, n: nat)
    requires n < 5
    ensures Bit(Feedback(b, n + 1), j) == (Bit(Feedback(b, n), j) != (Bit(b, n) && Bit(GEN[n], j)))
    ensures !Bit(Feedback(b, 0), j)
  {
    ZeroHasNoBits(j);
    BitLinear(Feedback(b, n), Tap(Bit(b, n), GEN[n]), j);
  }

  lemma GeneratorBits(j: nat) returns (row: seq<bool>)
    requires j < 5
    ensures row == [[false, true, false, true, true], [true, false, true, false, true],
                    [false, true, false, true, false], [false, true, true, true, false],
                    [true, false, true, true, true]][j]
    ensures forall i :: 0 <= i < 5 ==> row[i] == Bit(GEN[i], j)
  {
    row := [Bit(GEN[0], j), Bit(GEN[1], j), Bit(GEN[2], j), Bit(GEN[3], j), Bit(GEN[4], j)];
    assert Pow2(1) == 2 && Pow2(2) == 4 && Pow2(3) == 8 && Pow2(4) == 16;
  }

  lemma LowBitsClear(f: nat, j: nat)
    requires f % 32 == 0 && j < 5
    ensures !Bit(f, j)
  {
    var k := f / 32;
    assert Pow2(j) == [1, 2, 4, 8, 16][j];
    DivModUnique(f, Pow2(j), k * [32, 16, 8, 4, 2][j], 0);
  }

  lemma NoBitsSet(b: nat)
    requires b < 32 && !Bit(b, 0) && !Bit(b, 1) && !Bit(b, 2) && !Bit(b, 3) && !Bit(b, 4)
    ensures b == 0
  {
    assert Pow2(1) == 2 && Pow2(2) == 4 && Pow2(3) == 8 && Pow2(4) == 16;
  }

  /** The generators' low symbols are independent: only no feedback at all leaves them zero. */
  lemma FeedbackLow(b: nat)
    requires b < 32 && Feedback(b, 5) % 32 == 0
    ensures b == 0
  {
    var f := Feedback(b, 5);
    var r0 := GeneratorBits(0);
    var r1 := GeneratorBits(1);
    var r2 := GeneratorBits(2);
    var r3 := GeneratorBits(3);
    var r4 := GeneratorBits(4);
    FeedbackBit(b, 0, r0);
    FeedbackBit(b, 1, r1);
    FeedbackBit(b, 2, r2);
    FeedbackBit(b, 3, r3);
    FeedbackBit(b, 4, r4);
    LowBitsClear(f, 0);
    LowBitsClear(f, 1);
    LowBitsClear(f, 2);
    LowBitsClear(f, 3);
    LowBitsClear(f, 4);
    NoBitsSet(b);
  }

  lemma WordParts(chk: nat)
    requires chk < 0x4000_0000
    ensures High(chk) < 32 && Shifted(chk) % 32 == 0
    ensures High(chk) == 0 && Shifted(chk) == 0 ==> chk == 0
  {
  }

  lemma ZeroStepKernel(chk: nat)
    requires chk < Pow2(30) && Step(chk, 0) == 0
    ensures chk == 0
  {
    Sizes();
    WordParts(chk);
    XorZero(Shifted(chk));
    XorEqual(Shifted(chk), Feedback(High(chk), 5));
    FeedbackLow(High(chk));
    ZeroFeedback(5);
  }

  lemma NoFeedback(chk: nat)
    requires chk < 0x200_0000
    ensures High(chk) == 0 && Feedback(0, 5) == 0
  {
    ZeroFeedback(5);
  }

  lemma {:induction false} ZeroFeedback(n: nat)
    requires n <= 5
    ensures Feedback(0, n) == 0
  {
    if n > 0 {
      ZeroFeedback(n - 1);
      ZeroHasNoBits(n - 1);
      XorZero(0);
    }
  }

  lemma StepInjective(a: nat, b: nat, v: nat)
    requires a < Pow2(30) && b < Pow2(30) && Step(a, v) == Step(b, v)
    ensures a == b
  {
    StepLinear(a, b, v, v);
    XorSelf(v);
    XorSelf(Step(a, v));
    XorBelow(a, b, 30);
    ZeroStepKernel(Xor(a, b));
    XorEqual(a, b);
  }

  // ----- the fold -----

  lemma {:induction false} FoldAppend(chk: nat, a: seq<u8>, b: seq<u8>)
    ensures Fold(chk, a + b) == Fold(Fold(chk, a), b)
  {
    if b == [] {
      assert a + b == a;
    } else {
      var init := b[..|b| - 1];
      FoldAppend(chk, a, init);
      assert (a + b)[..|a + b| - 1] == a + init;
    }
  }

  /** Equal tails cannot make two different words equal again. */
  lemma {:induction false} FoldInjective(a: nat, b: nat, tail: seq<u8>)
    requires a < Pow2(30) && b < Pow2(30) && Fold(a, tail) == Fold(b, tail)
    ensures a == b
  {
    if tail != [] {
      var init := tail[..|tail| - 1];
      FoldBelow(a, init);
      FoldBelow(b, init);
      StepInjective(Fold(a, init), Fold(b, init), tail[|tail| - 1]);
      FoldInjective(a, b, init);
    }
  }

  function Zeros(n: nat): (z: seq<u8>)
    ensures |z| == n
  {
    if n == 0 then [] else Zeros(n - 1) + [0]
  }

  /** The fold is the sum of what the start word and the values contribute on their own. */
  lemma {:induction false} FoldSuperposition(chk: nat, values: seq<u8>)
    ensures Fold(chk, values) == Xor(Fold(chk, Zeros(|values|)), Fold(0, values))
  {
    if values == [] {
      XorZero(chk);
    } else {
      var init, v := values[..|values| - 1], values[|values| - 1];
      FoldSuperposition(chk, init);
      assert Zeros(|values|)[..|values| - 1] == Zeros(|init|);
      StepLinear(Fold(chk, Zeros(|init|)), Fold(0, init), 0, v);
      XorZero(v);
    }
  }

  /** From a word below 2^25 a step only appends its symbol. */
  lemma StepAppends(chk: nat, v: nat)
    requires chk < 0x200_0000 && v < 32
    ensures Step(chk, v) == chk * 32 + v
  {
    NoFeedback(chk);
    XorAppend(chk, v);
    XorZero(chk * 32 + v);
  }

  lemma XorAppend(chk: nat, v: nat)
    requires v < 32
    ensures Xor(chk * 32, v) == chk * 32 + v
  {
    assert Pow2(5) == 32;
    XorSplit(5, chk, 0, 0, v, chk * 32, v);
    XorZero(chk);
    XorZero(v);
  }

  /** Up to six symbols are packed without feedback. */
  lemma {:induction false} FoldPacks(symbols: seq<u8>)
    requires |symbols| <= 6 && AllBelow(symbols, 32)
    ensures Fold(0, symbols) == Value(5, symbols)
  {
    if symbols != [] {
      var init := symbols[..|symbols| - 1];
      Sizes();
      FoldPacks(init);
      ValueBound(5, init);
      SmallPack(|init|);
      StepAppends(Fold(0, init), symbols[|symbols| - 1]);
    }
  }

  lemma SmallPack(n: nat)
    requires n <= 5
    ensures Pow2(5 * n) <= 0x200_0000
  {
    Sizes();
    Pow2Add(5 * n, 25 - 5 * n);
    MulLe(1, Pow2(25 - 5 * n), Pow2(5 * n));
  }

  /** Two windows of six symbols that lead from one word to the same word are equal. */
  lemma WindowInjective(chk: nat, w: seq<u8>, w': seq<u8>)
    requires |w| == |w'| == 6 && AllBelow(w, 32) && AllBelow(w', 32)
    requires Fold(chk, w) == Fold(chk, w')
    ensures w == w'
  {
    FoldSuperposition(chk, w);
    FoldSuperposition(chk, w');
    var z := Fold(chk, Zeros(6));
    XorCancel(z, Fold(0, w));
    XorCancel(z, Fold(0, w'));
    FoldPacks(w);
    FoldPacks(w');
    Sizes();
    DigitsOfValue(5, w);
    DigitsOfValue(5, w');
  }

  /** A burst confined to six consecutive symbols always changes the checksum word, whatever
      precedes it and however much follows. */
  lemma BurstChangesFold(chk: nat, prefix: seq<u8>, w: seq<u8>, w': seq<u8>, tail: seq<u8>)
    requires chk < Pow2(30)
    requires |w| == |w'| == 6 && AllBelow(w, 32) && AllBelow(w', 32)
    requires Fold(chk, prefix + w + tail) == Fold(chk, prefix + w' + tail)
    ensures w == w'
  {
    FoldAppend(chk, prefix + w, tail);
    FoldAppend(chk, prefix + w', tail);
    FoldAppend(chk, prefix, w);
    FoldAppend(chk, prefix, w');
    FoldBelow(chk, prefix);
    FoldBelow(Fold(chk, prefix), w);
    FoldBelow(Fold(chk, prefix), w');
    FoldInjective(Fold(chk, prefix + w), Fold(chk, prefix + w'), tail);
    WindowInjective(Fold(chk, prefix), w, w');
  }

  /** The six symbols the encoder appends. */
  function Checksum(values: seq<u8>): (c: seq<int>)
    ensures |c| == 6
  {
    Digits(5, 6, Xor(Fold(1, values + Zeros(6)), 1))
  }

  /** Exactly one six-symbol tail makes the word come out as 1, and it is the encoder's. */
  lemma ChecksumUnique(values: seq<u8>, c: seq<u8>)
    requires |c| == 6 && AllBelow(c, 32)
    ensures Fold(1, values + c) == 1 <==> c == Checksum(values)
  {
    Sizes();
    var z := Fold(1, values + Zeros(6));
    FoldAppend(1, values, Zeros(6));
    FoldAppend(1, values, c);
    FoldSuperposition(Fold(1, values), c);
    FoldPacks(c);
    ValueBound(5, c);
    assert Fold(1, values + c) == Xor(z, Value(5, c));
    FoldBelow(1, values + Zeros(6));
    XorBelow(z, 1, 30);
    XorCancel(z, 1);
    XorCancel(z, Value(5, c));
    DigitsOfValue(5, c);
    if c == Checksum(values) {
      ValueOfDigits(5, 6, Xor(z, 1));
    }
  }
}
