/** How long a single symbol takes to come round in the checksum register when zero symbols follow
    (app/bech32.odin:10-23). The register is a word of six symbols, a step multiplies it by x in a
    ring over the field of 32 elements, and that multiplication has order 1023. */
module ChecksumCycle {
  import opened Radix
  import opened XorWords

  type Word = bv30

  // ----- one step on a zero symbol, and doubling every symbol -----

  function Plus(a: Word, b: Word): Word {
    a ^ b
  }

  function Taps(a: bool, b: bool, c: bool, d: bool, e: bool): Word {
    ((((if a then 0x3B6A_57B2 else 0) ^ (if b then 0x2650_8E6D else 0)) ^ (if c then 0x1EA1_19FA else 0))
      ^ (if d then 0x3D42_33DD else 0)) ^ (if e then 0x2A14_62B3 else 0)
  }

  function FeedbackOf(w: Word): Word {
    Taps(w & 0x0200_0000 != 0, w & 0x0400_0000 != 0, w & 0x0800_0000 != 0, w & 0x1000_0000 != 0,
         w & 0x2000_0000 != 0)
  }

  function Up(w: Word): Word {
    w << 5
  }

  function Turn(w: Word): Word {
    Plus(Up(w), FeedbackOf(w))
  }

  function Low(w: Word): Word {
    (w & 0x1EF7_BDEF) << 1
  }

  function Carry(w: Word): Word {
    (w >> 4) & 0x0210_8421
  }

  function Eight(w: Word): Word {
    w << 3
  }

  function Carried(c: Word): Word {
    Plus(c, c << 3)
  }

  /** Every symbol times the field's generator a, where a^5 = a^3 + 1. */
  function Twice(w: Word): Word {
    Plus(Low(w), Carried(Carry(w)))
  }

  lemma PlusLaws(a: Word, b: Word, c: Word)
    ensures Plus(a, b) == Plus(b, a) && Plus(Plus(a, b), c) == Plus(a, Plus(b, c))
  {
  }

  lemma Pair(a: Word, b: Word, c: Word, d: Word)
    ensures Plus(Plus(a, b), Plus(c, d)) == Plus(Plus(a, c), Plus(b, d))
  {
    hide Plus;
    PlusLaws(a, b, Plus(c, d));
    PlusLaws(b, c, d);
    PlusLaws(c, b, d);
    PlusLaws(a, c, Plus(b, d));
  }

  lemma UpPlus(a: Word, b: Word)
    ensures Up(Plus(a, b)) == Plus(Up(a), Up(b))
  {
  }

  lemma LowPlus(a: Word, b: Word)
    ensures Low(Plus(a, b)) == Plus(Low(a), Low(b))
  {
    assert (a ^ b) & 0x1EF7_BDEF == (a & 0x1EF7_BDEF) ^ (b & 0x1EF7_BDEF);
  }

  lemma CarryPlus(a: Word, b: Word)
    ensures Carry(Plus(a, b)) == Plus(Carry(a), Carry(b))
  {
    assert (a ^ b) >> 4 == (a >> 4) ^ (b >> 4);
  }

  lemma ThreePlus(a: Word, b: Word)
    ensures Eight(Plus(a, b)) == Plus(Eight(a), Eight(b))
  {
  }

  lemma CarriedEight(c: Word)
    ensures Carried(c) == Plus(c, Eight(c))
  {
  }

  lemma CarriedPlus(a: Word, b: Word)
    ensures Carried(Plus(a, b)) == Plus(Carried(a), Carried(b))
  {
    hide Plus, Eight, Carried;
    CarriedEight(a);
    CarriedEight(b);
    CarriedEight(Plus(a, b));
    ThreePlus(a, b);
    Pair(a, b, Eight(a), Eight(b));
  }

  lemma TwicePlus(a: Word, b: Word)
    ensures Twice(Plus(a, b)) == Plus(Twice(a), Twice(b))
  {
    hide Plus, Low, Carry, Carried;
    LowPlus(a, b);
    CarryPlus(a, b);
    CarriedPlus(Carry(a), Carry(b));
    Pair(Low(a), Low(b), Carried(Carry(a)), Carried(Carry(b)));
  }

  lemma PartsUp(w: Word)
    ensures Low(Up(w)) == Up(Low(w)) && Carry(Up(w)) == Up(Carry(w)) && Carried(Up(w)) == Up(Carried(w))
  {
  }

  lemma TwiceUp(w: Word)
    ensures Twice(Up(w)) == Up(Twice(w))
  {
    hide Plus, Low, Carry, Carried, Up;
    PartsUp(w);
    PartsUp(Carry(w));
    UpPlus(Low(w), Carried(Carry(w)));
  }

  /** The generators are consecutive multiples of the first, so doubling the feedback moves its taps. */
  lemma TwiceTaps(a: bool, b: bool, c: bool, d: bool, e: bool)
    ensures Twice(Taps(a, b, c, d, e)) == Taps(e, a, b, c != e, d)
  {
  }

  lemma TopOfTwice(w: Word)
    ensures (Twice(w) & 0x0200_0000 != 0) == (w & 0x2000_0000 != 0)
    ensures (Twice(w) & 0x0400_0000 != 0) == (w & 0x0200_0000 != 0)
    ensures (Twice(w) & 0x0800_0000 != 0) == (w & 0x0400_0000 != 0)
    ensures (Twice(w) & 0x1000_0000 != 0) == ((w & 0x0800_0000 != 0) != (w & 0x2000_0000 != 0))
    ensures (Twice(w) & 0x2000_0000 != 0) == (w & 0x1000_0000 != 0)
  {
  }

  /** A step respects multiplication of all symbols. */
  lemma TurnTwice(w: Word)
    ensures Turn(Twice(w)) == Twice(Turn(w))
  {
    hide Plus, Twice, Up, Taps;
    TwiceUp(w);
    TwicePlus(Up(w), FeedbackOf(w));
    TopOfTwice(w);
    TwiceTaps(w & 0x0200_0000 != 0, w & 0x0400_0000 != 0, w & 0x0800_0000 != 0, w & 0x1000_0000 != 0,
              w & 0x2000_0000 != 0);
  }

  // ----- many steps, many doublings -----

  function Turns(n: nat, w: Word): Word {
    if n == 0 then w else Turns(n - 1, Turn(w))
  }

  function Times(j: nat, w: Word): Word {
    if j == 0 then w else Times(j - 1, Twice(w))
  }

  lemma {:induction false} TurnsAdd(m: nat, n: nat, w: Word)
    ensures Turns(m + n, w) == Turns(n, Turns(m, w))
    decreases m
  {
    hide Turn;
    if m > 0 {
      TurnsAdd(m - 1, n, Turn(w));
    }
  }

  lemma {:induction false} TimesAdd(i: nat, j: nat, w: Word)
    ensures Times(i + j, w) == Times(j, Times(i, w))
    decreases i
  {
    hide Twice;
    if i > 0 {
      TimesAdd(i - 1, j, Twice(w));
    }
  }

  lemma {:induction false} TurnTimes(j: nat, w: Word)
    ensures Turn(Times(j, w)) == Times(j, Turn(w))
    decreases j
  {
    hide Turn, Twice;
    if j > 0 {
      TurnTimes(j - 1, Twice(w));
      TurnTwice(w);
    }
  }

  lemma {:induction false} TurnsTimes(n: nat, j: nat, w: Word)
    ensures Turns(n, Times(j, w)) == Times(j, Turns(n, w))
    decreases n
  {
    hide Turn, Twice;
    if n > 0 {
      TurnTimes(j, w);
      TurnsTimes(n - 1, j, Turn(w));
    }
  }

  // ----- the field: every symbol but zero is a power of a -----

  function Six(c: Word): Word {
    Twice(Twice(Twice(Twice(Twice(Twice(c))))))
  }

  predicate Near(c: Word) {
    || c == 1 || Twice(c) == 1 || Twice(Twice(c)) == 1 || Twice(Twice(Twice(c))) == 1
    || Twice(Twice(Twice(Twice(c)))) == 1 || Twice(Twice(Twice(Twice(Twice(c))))) == 1
  }

  lemma AllNear(c: Word)
    requires 0 < c < 32
    ensures Near(c) || Near(Six(c)) || Near(Six(Six(c))) || Near(Six(Six(Six(c))))
            || Near(Six(Six(Six(Six(c))))) || Near(Six(Six(Six(Six(Six(c))))))
  {
  }

  lemma FirstTimes(c: Word)
    ensures Times(0, c) == c && Times(1, c) == Twice(c) && Times(2, c) == Twice(Twice(c))
    ensures Times(3, c) == Twice(Twice(Twice(c))) && Times(4, c) == Twice(Twice(Twice(Twice(c))))
    ensures Times(5, c) == Twice(Twice(Twice(Twice(Twice(c))))) && Times(6, c) == Six(c)
  {
    hide Twice;
    TimesAdd(1, 1, c);
    TimesAdd(2, 1, c);
    TimesAdd(3, 1, c);
    TimesAdd(4, 1, c);
    TimesAdd(5, 1, c);
  }

  lemma NearTimes(c: Word) returns (j: nat)
    requires Near(c)
    ensures j < 6 && Times(j, c) == 1
  {
    hide Twice;
    FirstTimes(c);
    j := if c == 1 then 0 else if Twice(c) == 1 then 1 else if Twice(Twice(c)) == 1 then 2
         else if Twice(Twice(Twice(c))) == 1 then 3 else if Twice(Twice(Twice(Twice(c)))) == 1 then 4 else 5;
  }

  lemma {:induction false} SixTimes(k: nat, c: Word) returns (j: nat)
    requires k <= 5 && Near(Times(6 * k, c))
    ensures j < 36 && Times(j, c) == 1
  {
    hide Near, Twice;
    var i := NearTimes(Times(6 * k, c));
    TimesAdd(6 * k, i, c);
    j := 6 * k + i;
  }

  lemma SixIsTimes(k: nat, c: Word)
    ensures Times(6 * (k + 1), c) == Six(Times(6 * k, c))
  {
    hide Twice, Six;
    TimesAdd(6 * k, 6, c);
    FirstTimes(Times(6 * k, c));
  }

  lemma ToOne(c: Word) returns (j: nat)
    requires 0 < c < 32
    ensures j < 36 && Times(j, c) == 1
  {
    hide Near, Six, Twice;
    AllNear(c);
    SixIsTimes(0, c);
    SixIsTimes(1, c);
    SixIsTimes(2, c);
    SixIsTimes(3, c);
    SixIsTimes(4, c);
    var k: nat :| k <= 5 && Near(Times(6 * k, c));
    j := SixTimes(k, c);
  }

  lemma SymbolCycle(c: Word)
    requires c < 32
    ensures Twice(Six(Six(Six(Six(Six(c)))))) == c
  {
  }

  lemma Round(c: Word)
    requires c < 32
    ensures Times(31, c) == c
  {
    hide Six, Twice;
    SixIsTimes(0, c);
    SixIsTimes(1, c);
    SixIsTimes(2, c);
    SixIsTimes(3, c);
    SixIsTimes(4, c);
    TimesAdd(30, 1, c);
    SymbolCycle(c);
  }

  lemma FromOne(c: Word) returns (k: nat)
    requires 0 < c < 32
    ensures Times(k, 1) == c
  {
    hide Twice;
    var j := ToOne(c);
    Round(c);
    TimesAdd(31, 31, c);
    TimesAdd(j, 62 - j, c);
    k := 62 - j;
  }

  lemma {:induction false} TimesSmall(j: nat, c: Word)
    requires c < 32
    ensures Times(j, c) < 32 && (c != 0 ==> Times(j, c) != 0) && (c == 0 ==> Times(j, c) == 0)
    decreases j
  {
    TwiceSmall(c);
    hide Twice;
    if j > 0 {
      TimesSmall(j - 1, Twice(c));
    }
  }

  lemma TwiceSmall(c: Word)
    requires c < 32
    ensures Twice(c) < 32 && (Twice(c) == 0 <==> c == 0)
  {
  }

  // ----- 1023 steps, thirty-one at a time -----

  /** The feedback and the step, written out. */
  function Fed(w: Word): Word {
    ((((if w & 0x0200_0000 != 0 then 0x3B6A_57B2 else 0) ^ (if w & 0x0400_0000 != 0 then 0x2650_8E6D else 0))
      ^ (if w & 0x0800_0000 != 0 then 0x1EA1_19FA else 0)) ^ (if w & 0x1000_0000 != 0 then 0x3D42_33DD else 0))
    ^ (if w & 0x2000_0000 != 0 then 0x2A14_62B3 else 0)
  }

  function Spin(w: Word): Word {
    (w << 5) ^ Fed(w)
  }

  lemma FedIsFeedback(w: Word)
    ensures Fed(w) == FeedbackOf(w)
  {
  }

  lemma SpinIsTurn(w: Word)
    ensures Spin(w) == Turn(w)
  {
    hide Fed, FeedbackOf;
    FedIsFeedback(w);
  }

  function Leap(n: nat, w: Word): Word {
    if n == 0 then w else Leap(n - 1, Spin(Spin(Spin(w))))
  }

  lemma {:induction false} LeapTurns(n: nat, w: Word)
    ensures Leap(n, w) == Turns(3 * n, w)
    decreases n
  {
    hide Turn, Spin;
    if n > 0 {
      var t := Turn(Turn(Turn(w)));
      SpinIsTurn(w);
      SpinIsTurn(Turn(w));
      SpinIsTurn(Turn(Turn(w)));
      LeapTurns(n - 1, t);
      assert Turns(3 * n, w) == Turns(3 * n - 1, Turn(w)) == Turns(3 * n - 2, Turn(Turn(w)));
    }
  }

  /** Thirty-one steps. */
  function Row(w: Word): Word {
    Spin(Leap(10, w))
  }

  lemma RowTurns(k: nat, a: Word, b: Word)
    requires Turns(31 * k, 1) == a && Row(a) == b
    ensures Turns(31 * (k + 1), 1) == b
  {
    hide Turn, Spin;
    LeapTurns(10, a);
    SpinIsTurn(Leap(10, a));
    TurnsAdd(30, 1, a);
    TurnsAdd(31 * k, 31, 1);
  }

  lemma Rows0()
    ensures Row(1) == 0x063B_7A8B && Row(0x063B_7A8B) == 0x388E_92BB && Row(0x388E_92BB) == 0x2D3A_1897
  {
  }

  lemma Rows1()
    ensures Row(0x2D3A_1897) == 0x006A_F927 && Row(0x006A_F927) == 0x3087_1444 && Row(0x3087_1444) == 0x17CC_87E3
  {
  }

  lemma Rows2()
    ensures Row(0x17CC_87E3) == 0x03C4_13D2 && Row(0x03C4_13D2) == 0x23A0_D91B && Row(0x23A0_D91B) == 0x0AEB_1F4D
  {
  }

  lemma Rows3()
    ensures Row(0x0AEB_1F4D) == 0x31BA_B821 && Row(0x31BA_B821) == 0x3CA7_63CB && Row(0x3CA7_63CB) == 0x28DF_0155
  {
  }

  lemma Rows4()
    ensures Row(0x28DF_0155) == 0x18A0_52A2 && Row(0x18A0_52A2) == 0x36C4_3269 && Row(0x36C4_3269) == 0x0737_BB9D
  {
  }

  lemma Rows5()
    ensures Row(0x0737_BB9D) == 0x25B5_F720 && Row(0x25B5_F720) == 0x0987_C321 && Row(0x0987_C321) == 0x3132_C43A
  {
  }

  lemma Rows6()
    ensures Row(0x3132_C43A) == 0x2D79_322A && Row(0x2D79_322A) == 0x073B_1C17 && Row(0x073B_1C17) == 0x3D58_19DA
  {
  }

  lemma Rows7()
    ensures Row(0x3D58_19DA) == 0x25ED_ED09 && Row(0x25ED_ED09) == 0x1563_5480 && Row(0x1563_5480) == 0x0730_05B4
  {
  }

  lemma Rows8()
    ensures Row(0x0730_05B4) == 0x0EE6_A299 && Row(0x0EE6_A299) == 0x1AD7_7D33 && Row(0x1AD7_7D33) == 0x1073_F50F
  {
  }

  lemma Rows9()
    ensures Row(0x1073_F50F) == 0x3EFE_11B9 && Row(0x3EFE_11B9) == 0x3A99_33D7 && Row(0x3A99_33D7) == 0x04DC_17AB
  {
  }

  lemma Rows10()
    ensures Row(0x04DC_17AB) == 0x31B6_E1DE && Row(0x31B6_E1DE) == 0x1A5B_CB14 && Row(0x1A5B_CB14) == 1
  {
  }

  lemma Milestones()
    ensures Turns(31, 1) == 0x063B_7A8B && Turns(93, 1) == 0x2D3A_1897
    ensures Turns(341, 1) == 0x3CA7_63CB && Turns(1023, 1) == 1
  {
    hide Row, Turns;
    assert Turns(0, 1) == 1 by { NoTurns(); }
    Rows0();
    RowTurns(0, 1, 0x063B_7A8B);
    RowTurns(1, 0x063B_7A8B, 0x388E_92BB);
    RowTurns(2, 0x388E_92BB, 0x2D3A_1897);
    Rows1();
    RowTurns(3, 0x2D3A_1897, 0x006A_F927);
    RowTurns(4, 0x006A_F927, 0x3087_1444);
    RowTurns(5, 0x3087_1444, 0x17CC_87E3);
    Rows2();
    RowTurns(6, 0x17CC_87E3, 0x03C4_13D2);
    RowTurns(7, 0x03C4_13D2, 0x23A0_D91B);
    RowTurns(8, 0x23A0_D91B, 0x0AEB_1F4D);
    Rows3();
    RowTurns(9, 0x0AEB_1F4D, 0x31BA_B821);
    RowTurns(10, 0x31BA_B821, 0x3CA7_63CB);
    RowTurns(11, 0x3CA7_63CB, 0x28DF_0155);
    Rows4();
    RowTurns(12, 0x28DF_0155, 0x18A0_52A2);
    RowTurns(13, 0x18A0_52A2, 0x36C4_3269);
    RowTurns(14, 0x36C4_3269, 0x0737_BB9D);
    Rows5();
    RowTurns(15, 0x0737_BB9D, 0x25B5_F720);
    RowTurns(16, 0x25B5_F720, 0x0987_C321);
    RowTurns(17, 0x0987_C321, 0x3132_C43A);
    Rows6();
    RowTurns(18, 0x3132_C43A, 0x2D79_322A);
    RowTurns(19, 0x2D79_322A, 0x073B_1C17);
    RowTurns(20, 0x073B_1C17, 0x3D58_19DA);
    Rows7();
    RowTurns(21, 0x3D58_19DA, 0x25ED_ED09);
    RowTurns(22, 0x25ED_ED09, 0x1563_5480);
    RowTurns(23, 0x1563_5480, 0x0730_05B4);
    Rows8();
    RowTurns(24, 0x0730_05B4, 0x0EE6_A299);
    RowTurns(25, 0x0EE6_A299, 0x1AD7_7D33);
    RowTurns(26, 0x1AD7_7D33, 0x1073_F50F);
    Rows9();
    RowTurns(27, 0x1073_F50F, 0x3EFE_11B9);
    RowTurns(28, 0x3EFE_11B9, 0x3A99_33D7);
    RowTurns(29, 0x3A99_33D7, 0x04DC_17AB);
    Rows10();
    RowTurns(30, 0x04DC_17AB, 0x31B6_E1DE);
    RowTurns(31, 0x31B6_E1DE, 0x1A5B_CB14);
    RowTurns(32, 0x1A5B_CB14, 1);
  }

  lemma NoTurns()
    ensures Turns(0, 1) == 1
  {
  }

  // ----- after how many steps a lone symbol is a lone symbol again -----

  /** n steps on zero symbols take the symbol 1 to a word of one symbol. */
  predicate Stays(n: nat) {
    Turns(n, 1) < 32
  }

  lemma {:induction false} TurnsZero(n: nat)
    ensures Turns(n, 0) == 0
  {
    assert Turn(0) == 0;
    hide Turn;
    if n > 0 {
      TurnsZero(n - 1);
    }
  }

  lemma Scaled(n: nat, h: Word)
    requires 0 < h < 32 && Turns(n, h) < 32
    ensures Stays(n)
  {
    hide Twice, Turns;
    var j := ToOne(h);
    TurnsTimes(n, j, h);
    TimesSmall(j, Turns(n, h));
  }

  lemma StaysSmall(n: nat, c: Word)
    requires Stays(n) && c < 32
    ensures Turns(n, c) < 32
  {
    hide Twice, Turns;
    if c == 0 {
      TurnsZero(n);
    } else {
      var k := FromOne(c);
      TurnsTimes(n, k, 1);
      TimesSmall(k, Turns(n, 1));
    }
  }

  lemma StaysSum(m: nat, n: nat)
    requires Stays(m) && Stays(n)
    ensures Stays(m + n)
  {
    hide Turns;
    TurnsAdd(m, n, 1);
    StaysSmall(n, Turns(m, 1));
  }

  lemma {:induction false} StaysMultiple(n: nat, k: nat)
    requires Stays(n)
    ensures n * k >= 0 && Stays(n * k)
    decreases k
  {
    hide Turns;
    if k == 0 {
      NoTurns();
    } else {
      StaysMultiple(n, k - 1);
      assert n * k == n * (k - 1) + n;
      StaysSum(n * (k - 1), n);
    }
  }

  lemma StaysDifference(m: nat, n: nat)
    requires Stays(m) && Stays(m + n)
    ensures Stays(n)
  {
    hide Turns;
    TurnsAdd(m, n, 1);
    NotLost(m);
    Scaled(n, Turns(m, 1));
  }

  lemma {:induction false} ComesRound(k: nat)
    ensures Turns(1023 * k, 1) == 1
    decreases k
  {
    hide Turns;
    if k == 0 {
      NoTurns();
    } else {
      ComesRound(k - 1);
      Milestones();
      TurnsAdd(1023 * (k - 1), 1023, 1);
    }
  }

  /** No number of steps loses the symbol. */
  lemma NotLost(n: nat)
    ensures Turns(n, 1) != 0
  {
    hide Turns;
    ComesRound(n);
    TurnsAdd(n, 1022 * n, 1);
    TurnsZero(1022 * n);
  }

  lemma StaysRest(m: nat, n: nat)
    requires n > 0 && Stays(m) && Stays(n)
    ensures Stays(m % n)
  {
    hide Turns, Stays;
    var q := DivNat(m, n);
    StaysMultiple(n, q);
    assert q * n == n * q;
    StaysDifference(n * q, m % n);
  }

  lemma Whole()
    ensures Stays(1023)
  {
    Milestones();
  }

  /** 33, 93 and 341 are 1023 without one of its prime factors; none of them stays. */
  lemma NoneOfThree()
    ensures !Stays(33) && !Stays(93) && !Stays(341)
  {
    Milestones();
    TurnsAdd(31, 2, 1);
  }

  lemma DivisorsOf1023(n: nat)
    requires 0 < n < 1023 && 1023 % n == 0
    ensures n == 1 || n == 3 || n == 11 || n == 31 || n == 33 || n == 93 || n == 341
  {
    var q := DivNat(1023, n);
    assert q * n == 1023;
    if n < 32 {
      SmallDivisor(n);
    } else {
      if q >= 32 {
        MulLe(32, q, n);
        MulLe(32, n, 32);
      }
      DivModUnique(1023, q, n, 0);
      SmallDivisor(q);
    }
  }

  lemma SmallDivisor(n: nat)
    requires 0 < n < 32 && 1023 % n == 0
    ensures n == 1 || n == 3 || n == 11 || n == 31
  {
  }

  lemma {:induction false} NothingLess(n: nat)
    requires 0 < n < 1023 && Stays(n)
    ensures false
    decreases n
  {
    hide Stays;
    Whole();
    StaysRest(1023, n);
    if 1023 % n > 0 {
      NothingLess(1023 % n);
    } else {
      DivisorsOf1023(n);
      NoneOfThree();
      if n == 31 || n == 93 {
        StaysMultiple(n, 93 / n);
      } else if n == 341 {
      } else {
        StaysMultiple(n, 33 / n);
      }
    }
  }

  /** A lone symbol followed by n zero symbols is a lone symbol again, after n > 0 steps, exactly when
      n is a multiple of 1023, and then it is the same one. */
  lemma ComesRoundIff(n: nat, h: Word, l: Word)
    requires 0 < h < 32 && l < 32
    ensures Turns(n, h) == l <==> n % 1023 == 0 && h == l
  {
    hide Turns, Twice, Stays;
    var q := DivNat(n, 1023);
    if Turns(n, h) == l {
      Scaled(n, h);
      Whole();
      StaysRest(n, 1023);
      if n % 1023 > 0 {
        NothingLess(n % 1023);
      }
    }
    if n % 1023 == 0 {
      ComesRound(q);
      var k := FromOne(h);
      TurnsTimes(n, k, 1);
    }
  }
}
