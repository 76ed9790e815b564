/** One string on which the checksum does not notice a change: upper case, a prefix without letters,
    and no payload, so that lower-casing it is a burst of six. */
module Bech32Example {
  import opened Options
  import opened Radix
  import opened XorWords
  import opened Wire
  import opened Bech32Checksum
  import opened Bech32
  import opened Bech32Laws
  import opened ChecksumCycle
  import opened ChecksumWords

  lemma SixDigits(s: seq<nat>)
    requires |s| == 6
    ensures Value(5, s) == s[5] + 32 * (s[4] + 32 * (s[3] + 32 * (s[2] + 32 * (s[1] + 32 * s[0]))))
  {
    assert Pow2(5) == 32;
    assert s[..5][..4] == s[..4] && s[..4][..3] == s[..3] && s[..3][..2] == s[..2] && s[..2][..1] == s[..1];
    assert s[..1][..0] == [];
    assert Value(5, s[..1]) == s[0];
    assert Value(5, s[..2]) == s[1] + 32 * Value(5, s[..1]);
    assert Value(5, s[..3]) == s[2] + 32 * Value(5, s[..2]);
    assert Value(5, s[..4]) == s[3] + 32 * Value(5, s[..3]);
    assert Value(5, s[..5]) == s[4] + 32 * Value(5, s[..4]);
  }

  /** The checksum word of the prefix "0" before its last four zeros, and behind them. */
  const PACKED: nat := 0x2104000
  const FINAL: nat := 0xcfbd4e6

  lemma Packed()
    ensures Fold(1, [1, 0, 16, 0, 0]) == PACKED
  {
    hide Step, Xor;
    var one: seq<u8>, rest: seq<u8> := [1], [1, 0, 16, 0, 0];
    FoldPacks(one);
    SixDigits([1, 1, 0, 16, 0, 0]);
    assert one[..0] == [];
    assert Value(5, one) == 1;
    FoldAppend(0, one, rest);
    assert one + rest == [1, 1, 0, 16, 0, 0];
    FoldPacks([1, 1, 0, 16, 0, 0]);
  }

  lemma PackedWord()
    ensures ToWord(PACKED) == 0x0210_4000
  {
    hide ToWord;
    SixSymbols(1, 1, 0, 16, 0, 0, 0x21, 0x420, 0x8410, 0x108200, 0x2104000);
  }

  lemma FinalWord()
    ensures ToWord(FINAL) == 0x0CFB_D4E6
  {
    hide ToWord;
    SixSymbols(6, 15, 23, 21, 7, 6, 0xcf, 0x19f7, 0x33ef5, 0x67dea7, 0xcfbd4e6);
  }

  lemma FourTurns()
    ensures Turns(4, 0x0210_4000) == 0x0CFB_D4E6
  {
  }

  lemma FoldOfPrefix()
    ensures Fold(1, [1, 0, 16] + Zeros(6)) == FINAL
  {
    hide Step, Fold, ToWord, Turns;
    var v: seq<u8> := [1, 0, 16, 0, 0];
    Packed();
    PackedWord();
    FinalWord();
    FourTurns();
    FoldAppend(1, v, Zeros(4));
    FoldIsTurns(PACKED, 4);
    Sizes();
    FoldBelow(PACKED, Zeros(4));
    ToWordInjective(Fold(PACKED, Zeros(4)), FINAL);
    SixZeros();
    assert [1, 0, 16] + Zeros(6) == v + Zeros(4);
  }

  lemma SixZeros()
    ensures Zeros(4) == [0, 0, 0, 0] && Zeros(6) == [0, 0, 0, 0, 0, 0]
  {
    assert Zeros(3) == [0, 0, 0];
  }

  lemma ChecksumOfPrefix()
    ensures Checksum([1, 0, 16]) == [6, 15, 23, 21, 7, 7]
  {
    hide Xor, Value, Fold, Digits;
    FoldOfPrefix();
    SixDigits([6, 15, 23, 21, 7, 7]);
    XorZero(FINAL / 2);
    XorHalves(FINAL, 1);
    DigitsOfValue(5, [6, 15, 23, 21, 7, 7]);
  }

  lemma NoPayload()
    ensures Payload([]) == []
  {
  }

  lemma ShortestString()
    ensures Encode("0", []) == "01x0h488"
  {
    hide Checksum;
    NoPayload();
    ChecksumOfPrefix();
    assert HrpExpand("0") == [1, 0, 16];
    assert [1, 0, 16] + [] == [1, 0, 16];
    assert Chars([]) == "";
    assert Chars([6, 15, 23, 21, 7, 7]) == "x0h488";
  }

  /** The upper-case form of the shortest string decodes; so does its lower-case form, which differs
      from it in a window of six by lower-case charset characters. */
  lemma BurstMissed() returns (upper: string, lower: string)
    ensures upper == "01X0H488" && lower == "01x0h488" && Ascii(upper) && Ascii(lower)
    ensures Decode(upper) == Some(("0", [])) && Decode(lower) == Some(("0", []))
    ensures Burst(upper, lower, 2)
  {
    hide Decode, Encode, Burst;
    lower := Encode("0", []);
    upper := Upper(lower);
    ShortestString();
    Cases(upper, lower);
    DecodeOfEncode("0", []);
    DecodeDependsOnLower(upper, lower);
    LastIndexUnique(lower, '1', 1);
    CaseOnlyBurstAccepted(upper, 2);
  }

  lemma Cases(upper: string, lower: string)
    requires lower == "01x0h488" && upper == Upper(lower)
    ensures Ascii("0") && Lower("0") == "0" && upper == "01X0H488"
    ensures Lower(upper) == lower && Upper(upper) == upper && Lower(lower) == lower && Ascii(upper) && Ascii(lower)
    ensures forall i :: 0 <= i < 2 ==> LowerChar(upper[i]) == upper[i]
  {
  }
}
