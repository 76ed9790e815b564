/** The checksum step of app/bech32.odin:10-23 as a turn of a 30-bit machine word. */
module ChecksumWords {
  import opened Wire
  import opened Radix
  import opened XorWords
  import opened Bech32Checksum
  import opened ChecksumCycle

  function Shl(w: Word): Word {
    w << 1
  }

  function Unit(on: bool): Word {
    if on then 1 else 0
  }

  function ToWord(n: nat): Word {
    if n == 0 then 0 else Plus(Shl(ToWord(n / 2)), Unit(n % 2 == 1))
  }

  lemma ZeroUnit()
    ensures Plus(Shl(0), Unit(false)) == 0
  {
  }

  lemma ToWordHalf(n: nat)
    ensures ToWord(n) == Plus(Shl(ToWord(n / 2)), Unit(n % 2 == 1))
  {
    hide Plus, Shl, Unit;
    ZeroUnit();
  }

  lemma UnitPlus(a: bool, b: bool)
    ensures Unit(a != b) == Plus(Unit(a), Unit(b))
  {
  }

  lemma ShlPlus(a: Word, b: Word)
    ensures Shl(Plus(a, b)) == Plus(Shl(a), Shl(b))
  {
  }

  lemma NoWord()
    ensures ToWord(0) == 0 && Plus(0, 0) == 0
  {
  }

  lemma {:induction false} XorToWord(a: nat, b: nat)
    ensures ToWord(Xor(a, b)) == Plus(ToWord(a), ToWord(b))
    decreases a + b
  {
    hide Plus, Shl, Unit, ToWord, Xor;
    if a == 0 && b == 0 {
      XorZero(0);
      NoWord();
    } else {
      XorToWord(a / 2, b / 2);
      XorHalves(a, b);
      OddSum(a, b);
      ToWordHalf(a);
      ToWordHalf(b);
      ToWordHalf(Xor(a, b));
      UnitPlus(a % 2 == 1, b % 2 == 1);
      ShlPlus(ToWord(a / 2), ToWord(b / 2));
      Pair(Shl(ToWord(a / 2)), Shl(ToWord(b / 2)), Unit(a % 2 == 1), Unit(b % 2 == 1));
    }
  }

  lemma PlusZero(w: Word)
    ensures Plus(w, Unit(false)) == w && Plus(w, 0) == w && Plus(0, w) == w
  {
  }

  lemma ToWordTwice(n: nat)
    ensures ToWord(2 * n) == Shl(ToWord(n))
  {
    hide Plus, Shl, Unit, ToWord;
    ToWordHalf(2 * n);
    PlusZero(Shl(ToWord(n)));
  }

  lemma ShlFive(w: Word)
    ensures Shl(Shl(Shl(Shl(Shl(w))))) == Up(w)
  {
  }

  lemma ToWordShift(n: nat)
    ensures ToWord(n * 32) == Up(ToWord(n))
  {
    hide Shl, ToWord, Up;
    ToWordTwice(n);
    ToWordTwice(2 * n);
    ToWordTwice(4 * n);
    ToWordTwice(8 * n);
    ToWordTwice(16 * n);
    ShlFive(ToWord(n));
  }

  lemma ToWordSymbol(n: nat, s: nat)
    requires s < 32
    ensures ToWord(n * 32 + s) == Plus(Up(ToWord(n)), ToWord(s))
  {
    hide ToWord, Up, Plus, Xor;
    XorAppend(n, s);
    XorToWord(n * 32, s);
    ToWordShift(n);
  }

  // ----- bits -----

  /** The mask of symbol bit k. */
  function Mask(k: nat): Word
    requires k < 5
  {
    match k
    case 0 => 1
    case 1 => 2
    case 2 => 4
    case 3 => 8
    case 4 => 16
  }

  lemma LowestOf(x: Word, on: bool)
    ensures (Plus(Shl(x), Unit(on)) & 1 != 0) == on
  {
  }

  lemma HigherOf(x: Word, on: bool)
    ensures (Plus(Shl(x), Unit(on)) & 2 != 0) == (x & 1 != 0) && (Plus(Shl(x), Unit(on)) & 4 != 0) == (x & 2 != 0)
    ensures (Plus(Shl(x), Unit(on)) & 8 != 0) == (x & 4 != 0) && (Plus(Shl(x), Unit(on)) & 16 != 0) == (x & 8 != 0)
  {
  }

  lemma {:induction false} LowBit(n: nat, k: nat)
    requires k < 5
    ensures (ToWord(n) & Mask(k) != 0) == Bit(n, k)
    decreases k
  {
    hide Plus, Shl, Unit, ToWord, Bit;
    ToWordHalf(n);
    LowestBit(n);
    if k == 0 {
      LowestOf(ToWord(n / 2), n % 2 == 1);
    } else {
      HigherOf(ToWord(n / 2), n % 2 == 1);
      LowBit(n / 2, k - 1);
      BitAbove(n, k - 1);
    }
  }

  /** All bits from k up. */
  function Above(k: nat): Word {
    if k == 0 then 0x3FFF_FFFF else Shl(Above(k - 1))
  }

  lemma ClearStep(x: Word, on: bool, a: Word)
    requires x & a == 0
    ensures Plus(Shl(x), Unit(on)) & Shl(a) == 0
  {
    assert (x << 1) & (a << 1) == (x & a) << 1;
  }

  /** A number below 2^k has no bits from k up. */
  lemma {:induction false} ClearAbove(n: nat, k: nat)
    requires n < Pow2(k)
    ensures ToWord(n) & Above(k) == 0
    decreases k
  {
    hide Plus, Shl, Unit, ToWord;
    if k == 0 {
      NoWord();
    } else {
      ClearAbove(n / 2, k - 1);
      ToWordHalf(n);
      ClearStep(ToWord(n / 2), n % 2 == 1, Above(k - 1));
    }
  }

  lemma AboveFive(k: nat)
    ensures Above(k + 5) == Up(Above(k))
  {
    hide Shl;
    assert Above(k + 2) == Shl(Shl(Above(k)));
    assert Above(k + 4) == Shl(Shl(Above(k + 2)));
    ShlFive(Above(k));
  }

  lemma AboveIs()
    ensures Above(5) == 0x3FFF_FFE0 && Above(25) == 0x3E00_0000 && Above(29) == 0x2000_0000
  {
    hide Above, Shl, Up;
    assert Above(0) == 0x3FFF_FFFF by { AllBits(); }
    AboveFive(0);
    AboveFive(5);
    AboveFive(10);
    AboveFive(15);
    AboveFive(20);
    UpFrom();
    LastFour(Above(25));
  }

  lemma AllBits()
    ensures Above(0) == 0x3FFF_FFFF
  {
  }

  lemma UpFrom()
    ensures Up(0x3FFF_FFFF) == 0x3FFF_FFE0 && Up(0x3FFF_FFE0) == 0x3FFF_FC00 && Up(0x3FFF_FC00) == 0x3FFF_8000
    ensures Up(0x3FFF_8000) == 0x3FF0_0000 && Up(0x3FF0_0000) == 0x3E00_0000
  {
  }

  lemma LastFour(a: Word)
    requires a == Above(25) && a == 0x3E00_0000
    ensures Above(29) == 0x2000_0000
  {
    assert Above(26) == Shl(a);
    assert Above(27) == Shl(Above(26));
    assert Above(28) == Shl(Above(27));
  }

  lemma ShlZero(x: Word)
    requires Plus(Shl(x), Unit(false)) == 0 && x & 0x2000_0000 == 0
    ensures x == 0
  {
  }

  lemma OddWord(x: Word)
    ensures Plus(Shl(x), Unit(true)) != 0
  {
  }

  lemma {:induction false} OnlyZero(n: nat)
    requires n < Pow2(30) && ToWord(n) == 0
    ensures n == 0
    decreases n
  {
    hide Plus, Shl, Unit, ToWord;
    if n > 0 {
      ToWordHalf(n);
      if n % 2 == 1 {
        OddWord(ToWord(n / 2));
      } else {
        ClearAbove(n / 2, 29);
        AboveIs();
        ShlZero(ToWord(n / 2));
        OnlyZero(n / 2);
      }
    }
  }

  /** Below 2^30 nothing is lost. */
  lemma ToWordInjective(m: nat, n: nat)
    requires m < Pow2(30) && n < Pow2(30) && ToWord(m) == ToWord(n)
    ensures m == n
  {
    hide ToWord;
    XorToWord(m, n);
    assert Plus(ToWord(m), ToWord(n)) == 0;
    XorBelow(m, n, 30);
    OnlyZero(Xor(m, n));
    XorEqual(m, n);
  }

  lemma SymbolWord(s: nat)
    requires s < 32
    ensures ToWord(s) < 32 && (ToWord(s) == 0 <==> s == 0)
  {
    hide ToWord;
    Sizes();
    ClearAbove(s, 5);
    AboveIs();
    BelowWord(ToWord(s));
    NoWord();
    if ToWord(s) == 0 {
      OnlyZero(s);
    }
  }

  lemma BelowWord(w: Word)
    requires w & 0x3FFF_FFE0 == 0
    ensures w < 32
  {
  }

  // ----- a step of the checksum is a turn of the word -----

  function Tops(x: Word): Word {
    Up(Up(Up(Up(Up(x)))))
  }

  lemma WordSplit(chk: nat)
    ensures ToWord(chk) == Plus(Tops(ToWord(High(chk))), ToWord(chk % 0x200_0000))
    ensures ToWord(chk % 0x200_0000) & 0x3E00_0000 == 0
  {
    hide ToWord, Up, Plus, Xor;
    Sizes();
    var h, l: nat := High(chk), chk % 0x200_0000;
    Recompose(chk, 0x200_0000);
    XorSplit(25, h, 0, 0, l, h * 0x200_0000, l);
    XorZero(h);
    XorZero(l);
    XorToWord(h * 0x200_0000, l);
    ToWordShift(h);
    ToWordShift(h * 32);
    ToWordShift(h * 1024);
    ToWordShift(h * 0x8000);
    ToWordShift(h * 0x10_0000);
    ClearAbove(l, 25);
    AboveIs();
  }

  lemma TopMasks(x: Word, y: Word)
    requires y & 0x3E00_0000 == 0
    ensures (Plus(Tops(x), y) & 0x0200_0000 != 0) == (x & 1 != 0)
    ensures (Plus(Tops(x), y) & 0x0400_0000 != 0) == (x & 2 != 0)
    ensures (Plus(Tops(x), y) & 0x0800_0000 != 0) == (x & 4 != 0)
    ensures (Plus(Tops(x), y) & 0x1000_0000 != 0) == (x & 8 != 0)
    ensures (Plus(Tops(x), y) & 0x2000_0000 != 0) == (x & 16 != 0)
    ensures Up(Plus(Tops(x), y)) == Up(y)
  {
  }

  lemma TapWord(on: bool, g: nat)
    ensures ToWord(Tap(on, g)) == if on then ToWord(g) else 0
  {
    NoWord();
  }

  /** A symbol's word, from its five bits. */
  function SymbolBits(s: nat): Word {
    var s4 := if s >= 16 then s - 16 else s;
    var s3 := if s4 >= 8 then s4 - 8 else s4;
    var s2 := if s3 >= 4 then s3 - 4 else s3;
    var s1 := if s2 >= 2 then s2 - 2 else s2;
    Five(s >= 16, s4 >= 8, s3 >= 4, s2 >= 2, s1 >= 1)
  }

  function Five(a: bool, b: bool, c: bool, d: bool, e: bool): Word {
    Plus(Shl(Plus(Shl(Plus(Shl(Plus(Shl(Unit(a)), Unit(b))), Unit(c))), Unit(d))), Unit(e))
  }

  lemma ToWordDigit(n: nat, on: bool)
    ensures ToWord(2 * n + if on then 1 else 0) == Plus(Shl(ToWord(n)), Unit(on))
  {
    hide Plus, Shl, Unit, ToWord;
    ToWordHalf(2 * n + if on then 1 else 0);
  }

  lemma OneBit(on: bool)
    ensures ToWord(if on then 1 else 0) == Unit(on)
  {
    NoWord();
    ZeroUnit();
    ToWordHalf(1);
    UnitAlone();
  }

  lemma UnitAlone()
    ensures Plus(Shl(0), Unit(true)) == Unit(true)
  {
  }

  lemma DigitsWord(n1: nat, n2: nat, n3: nat, n4: nat, n5: nat, a: bool, b: bool, c: bool, d: bool, e: bool)
    requires n1 == (if a then 1 else 0) && n2 == 2 * n1 + (if b then 1 else 0) && n3 == 2 * n2 + (if c then 1 else 0)
    requires n4 == 2 * n3 + (if d then 1 else 0) && n5 == 2 * n4 + (if e then 1 else 0)
    ensures ToWord(n5) == Five(a, b, c, d, e)
  {
    hide Plus, Shl, Unit, ToWord;
    OneBit(a);
    ToWordDigit(n1, b);
    ToWordDigit(n2, c);
    ToWordDigit(n3, d);
    ToWordDigit(n4, e);
  }

  lemma SymbolBitsIs(s: nat)
    requires s < 32
    ensures ToWord(s) == SymbolBits(s)
  {
    hide ToWord, Five;
    var s4: nat := if s >= 16 then s - 16 else s;
    var s3: nat := if s4 >= 8 then s4 - 8 else s4;
    var s2: nat := if s3 >= 4 then s3 - 4 else s3;
    var s1: nat := if s2 >= 2 then s2 - 2 else s2;
    var n1: nat := if s >= 16 then 1 else 0;
    var n2: nat := 2 * n1 + if s4 >= 8 then 1 else 0;
    var n3: nat := 2 * n2 + if s3 >= 4 then 1 else 0;
    var n4: nat := 2 * n3 + if s2 >= 2 then 1 else 0;
    DigitsWord(n1, n2, n3, n4, s, s >= 16, s4 >= 8, s3 >= 4, s2 >= 2, s1 >= 1);
  }

  /** A generator, symbol by symbol. */
  lemma SixSymbols(a: nat, b: nat, c: nat, d: nat, e: nat, f: nat, ab: nat, abc: nat, abcd: nat, abcde: nat, g: nat)
    requires a < 32 && b < 32 && c < 32 && d < 32 && e < 32 && f < 32
    requires ab == a * 32 + b && abc == ab * 32 + c && abcd == abc * 32 + d && abcde == abcd * 32 + e
    requires g == abcde * 32 + f
    ensures ToWord(g)
         == SixWords(SymbolBits(a), SymbolBits(b), SymbolBits(c), SymbolBits(d), SymbolBits(e), SymbolBits(f))
  {
    hide ToWord, Up, Plus, SymbolBits;
    SymbolBitsIs(a);
    SymbolBitsIs(b);
    SymbolBitsIs(c);
    SymbolBitsIs(d);
    SymbolBitsIs(e);
    SymbolBitsIs(f);
    ToWordSymbol(a, b);
    ToWordSymbol(ab, c);
    ToWordSymbol(abc, d);
    ToWordSymbol(abcd, e);
    ToWordSymbol(abcde, f);
  }

  function SixWords(a: Word, b: Word, c: Word, d: Word, e: Word, f: Word): Word {
    Plus(Up(Plus(Up(Plus(Up(Plus(Up(Plus(Up(a), b)), c)), d)), e)), f)
  }

  lemma GeneratorWord0()
    ensures ToWord(GEN[0]) == 0x3B6A_57B2
  {
    hide ToWord;
    SixSymbols(29, 22, 20, 21, 29, 18, 0x3b6, 0x76d4, 0xeda95, 0x1db52bd, 0x3b6a57b2);
  }

  lemma GeneratorWord1()
    ensures ToWord(GEN[1]) == 0x2650_8E6D
  {
    hide ToWord;
    SixSymbols(19, 5, 1, 3, 19, 13, 0x265, 0x4ca1, 0x99423, 0x1328473, 0x26508e6d);
  }

  lemma GeneratorWord2()
    ensures ToWord(GEN[2]) == 0x1EA1_19FA
  {
    hide ToWord;
    SixSymbols(15, 10, 2, 6, 15, 26, 0x1ea, 0x3d42, 0x7a846, 0xf508cf, 0x1ea119fa);
  }

  lemma GeneratorWord3()
    ensures ToWord(GEN[3]) == 0x3D42_33DD
  {
    hide ToWord;
    SixSymbols(30, 20, 4, 12, 30, 29, 0x3d4, 0x7a84, 0xf508c, 0x1ea119e, 0x3d4233dd);
  }

  lemma GeneratorWord4()
    ensures ToWord(GEN[4]) == 0x2A14_62B3
  {
    hide ToWord;
    SixSymbols(21, 1, 8, 24, 21, 19, 0x2a1, 0x5428, 0xa8518, 0x150a315, 0x2a1462b3);
  }

  lemma FeedbackTaps(b: nat)
    ensures ToWord(Feedback(b, 5)) == Taps(Bit(b, 0), Bit(b, 1), Bit(b, 2), Bit(b, 3), Bit(b, 4))
  {
    hide ToWord, Plus, Xor, Bit, Taps, Tap, Feedback;
    FeedbackStep(b, 0);
    FeedbackStep(b, 1);
    FeedbackStep(b, 2);
    FeedbackStep(b, 3);
    FeedbackStep(b, 4);
    NoWord();
    GeneratorWord0();
    GeneratorWord1();
    GeneratorWord2();
    GeneratorWord3();
    GeneratorWord4();
    TapsSum(Bit(b, 0), Bit(b, 1), Bit(b, 2), Bit(b, 3), Bit(b, 4));
  }

  lemma FeedbackStep(b: nat, n: nat)
    requires n < 5
    ensures ToWord(Feedback(b, n + 1))
         == Plus(ToWord(Feedback(b, n)), if Bit(b, n) then ToWord(GEN[n]) else 0)
    ensures Feedback(b, 0) == 0
  {
    hide ToWord, Plus, Xor, Bit, Tap;
    XorToWord(Feedback(b, n), Tap(Bit(b, n), GEN[n]));
    TapWord(Bit(b, n), GEN[n]);
  }

  lemma TapsSum(a: bool, b: bool, c: bool, d: bool, e: bool)
    ensures Taps(a, b, c, d, e)
         == Plus(Plus(Plus(Plus(Plus(0, if a then 0x3B6A_57B2 else 0), if b then 0x2650_8E6D else 0),
                           if c then 0x1EA1_19FA else 0), if d then 0x3D42_33DD else 0), if e then 0x2A14_62B3 else 0)
  {
  }

  lemma StepIsTurn(chk: nat)
    ensures ToWord(Step(chk, 0)) == Turn(ToWord(chk))
  {
    hide ToWord, Plus, Up, Xor, Bit, Taps, Feedback, Tops, High, Shifted;
    var x, y := ToWord(High(chk)), ToWord(chk % 0x200_0000);
    WordSplit(chk);
    TopMasks(x, y);
    ShiftedWord(chk);
    FeedbackTaps(High(chk));
    LowBit(High(chk), 0);
    LowBit(High(chk), 1);
    LowBit(High(chk), 2);
    LowBit(High(chk), 3);
    LowBit(High(chk), 4);
    XorZero(Shifted(chk));
    XorToWord(Shifted(chk), Feedback(High(chk), 5));
  }

  lemma ShiftedWord(chk: nat)
    ensures ToWord(Shifted(chk)) == Up(ToWord(chk % 0x200_0000))
  {
    ToWordShift(chk % 0x200_0000);
  }

  lemma {:induction false} FoldIsTurns(h: nat, n: nat)
    ensures ToWord(Fold(h, Zeros(n))) == Turns(n, ToWord(h))
    decreases n
  {
    hide ToWord, Step, Turn;
    if n > 0 {
      FoldIsTurns(h, n - 1);
      assert Zeros(n)[..n - 1] == Zeros(n - 1);
      StepIsTurn(Fold(h, Zeros(n - 1)));
      TurnsAdd(n - 1, 1, ToWord(h));
    }
  }

  /** A lone symbol comes round in the checksum after n zero symbols exactly when n is a multiple of
      1023. */
  lemma FoldComesRound(n: nat, h: nat, l: nat)
    requires 0 < h < 32 && l < 32
    ensures Fold(h, Zeros(n)) == l <==> n % 1023 == 0 && h == l
  {
    hide ToWord, Fold, Turns;
    SymbolWord(h);
    SymbolWord(l);
    FoldIsTurns(h, n);
    ComesRoundIff(n, ToWord(h), ToWord(l));
    Sizes();
    FoldBelow(h, Zeros(n));
    if ToWord(Fold(h, Zeros(n))) == ToWord(l) {
      ToWordInjective(Fold(h, Zeros(n)), l);
    }
    if ToWord(h) == ToWord(l) {
      ToWordInjective(h, l);
    }
  }
}
