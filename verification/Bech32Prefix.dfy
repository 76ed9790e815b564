/** One wrong character in the human-readable part (app/bech32.odin:26-35, 92-119): the checksum spells
    the prefix twice, and notices the error except when the two places are 1023 symbols apart. */
module Bech32Prefix {
  import opened Collections
  import opened Options
  import opened Wire
  import opened Radix
  import opened XorWords
  import opened Bech32Checksum
  import opened Bech32
  import opened Bech32Laws
  import opened ChecksumWords

  // ----- two wrong symbols -----

  lemma StepFromZero(v: nat)
    ensures Step(0, v) == v
  {
    NoFeedback(0);
    XorZero(v);
  }

  /** Two words stay as far apart over the same symbols as their difference alone over zeros. */
  lemma {:induction false} FoldDifference(p: nat, q: nat, values: seq<u8>)
    ensures Xor(Fold(p, values), Fold(q, values)) == Fold(Xor(p, q), Zeros(|values|))
    decreases |values|
  {
    hide Step, Xor;
    if values != [] {
      var init, v := values[..|values| - 1], values[|values| - 1];
      FoldDifference(p, q, init);
      StepLinear(Fold(p, init), Fold(q, init), v, v);
      XorSelf(v);
      assert Zeros(|values|)[..|values| - 1] == Zeros(|init|);
    }
  }

  lemma AfterTwo(q: nat, a: u8, a': u8, between: seq<u8>, b: u8, b': u8)
    ensures
      Xor(Fold(q, [a] + between + [b]), Fold(q, [a'] + between + [b']))
      == Xor(Fold(Xor(a, a'), Zeros(|between| + 1)), Xor(b, b'))
  {
    hide Step, Xor;
    FoldAppend(q, [a], between);
    FoldAppend(q, [a'], between);
    FoldAppend(q, [a] + between, [b]);
    FoldAppend(q, [a'] + between, [b']);
    FoldOne(q, a);
    FoldOne(q, a');
    var x, x' := Fold(q, [a] + between), Fold(q, [a'] + between);
    FoldOne(x, b);
    FoldOne(x', b');
    StepLinear(q, q, a, a');
    XorSelf(q);
    StepFromZero(Xor(a, a'));
    FoldDifference(Step(q, a), Step(q, a'), between);
    StepLinear(x, x', b, b');
    var d := Xor(x, x');
    StepLinear(d, 0, 0, Xor(b, b'));
    XorZero(d);
    XorZero(Xor(b, b'));
    StepFromZero(Xor(b, b'));
    assert Zeros(|between| + 1)[..|between|] == Zeros(|between|);
  }

  lemma FoldOne(q: nat, a: u8)
    ensures Fold(q, [a]) == Step(q, a)
  {
    hide Step;
    assert [a][..0] == [];
    assert Fold(q, []) == q;
  }

  /** Two wrong symbols cancel out when the first, carried on over zeros, becomes the second. */
  lemma TwoErrors(before: seq<u8>, a: u8, a': u8, between: seq<u8>, b: u8, b': u8, after: seq<u8>)
    ensures
      Fold(1, before + ([a] + between + [b]) + after) == Fold(1, before + ([a'] + between + [b']) + after)
      <==> Fold(Xor(a, a'), Zeros(|between| + 1)) == Xor(b, b')
  {
    hide Step, Xor, Fold;
    var q := Fold(1, before);
    var s, s' := [a] + between + [b], [a'] + between + [b'];
    FoldAppend(1, before, s);
    FoldAppend(1, before, s');
    FoldAppend(1, before + s, after);
    FoldAppend(1, before + s', after);
    AfterTwo(q, a, a', between, b, b');
    Sizes();
    FoldBelow(1, before);
    FoldBelow(q, s);
    FoldBelow(q, s');
    if Fold(Fold(q, s), after) == Fold(Fold(q, s'), after) {
      FoldInjective(Fold(q, s), Fold(q, s'), after);
    }
    var e, l := Fold(Xor(a, a'), Zeros(|between| + 1)), Xor(b, b');
    if Fold(q, s) == Fold(q, s') {
      XorSelf(Fold(q, s));
      XorEqual(e, l);
    }
    if e == l {
      XorSelf(e);
      XorEqual(Fold(q, s), Fold(q, s'));
    }
  }

  // ----- a wrong character in the prefix -----

  /** The one way out: the places of the two halves of a character are a multiple of 1023 symbols
      apart, and both halves are wrong by the same bits. */
  predicate Unnoticed(length: nat, right: char, wrong: char) {
    && (length + 1) % 1023 == 0
    && Xor(right as int / 32, wrong as int / 32) == Xor(right as int % 32, wrong as int % 32)
  }

  lemma {:induction false} FoldOfNothing(n: nat)
    ensures Fold(0, Zeros(n)) == 0
    decreases n
  {
    if n > 0 {
      FoldOfNothing(n - 1);
      assert Zeros(n)[..n - 1] == Zeros(n - 1);
      StepFromZero(0);
    }
  }

  lemma HalvesCancel(length: nat, right: char, wrong: char)
    requires right as int < 128 && wrong as int < 128 && right != wrong
    ensures
      Fold(Xor(right as int / 32, wrong as int / 32), Zeros(length + 1)) == Xor(right as int % 32, wrong as int % 32)
      <==> Unnoticed(length, right, wrong)
  {
    hide Xor, Fold;
    var h, l := Xor(right as int / 32, wrong as int / 32), Xor(right as int % 32, wrong as int % 32);
    Sizes();
    XorBelow(right as int / 32, wrong as int / 32, 5);
    XorBelow(right as int % 32, wrong as int % 32, 5);
    if h == 0 {
      XorEqual(right as int / 32, wrong as int / 32);
      FoldOfNothing(length + 1);
      if l == 0 {
        XorEqual(right as int % 32, wrong as int % 32);
      }
    } else {
      FoldComesRound(length + 1, h, l);
    }
  }

  lemma ExpansionSplit(hrp: string, k: nat, c: char, five: seq<u8>)
    requires Ascii(hrp) && k < |hrp| && c as int < 128
    ensures
      var v, n := HrpExpand(hrp), |hrp|;
      var before, between, after := v[..k], v[k + 1..n + 1 + k], v[n + 2 + k..] + five;
      && Ascii(hrp[k := c])
      && v + five == before + ([hrp[k] as int / 32] + between + [hrp[k] as int % 32]) + after
      && HrpExpand(hrp[k := c]) + five == before + ([c as int / 32] + between + [c as int % 32]) + after
  {
    var v, w, n := HrpExpand(hrp), HrpExpand(hrp[k := c]), |hrp|;
    assert w == v[k := c as int / 32][n + 1 + k := c as int % 32];
    assert v == v[..k] + ([v[k]] + v[k + 1..n + 1 + k] + [v[n + 1 + k]]) + v[n + 2 + k..];
    assert w == v[..k] + ([w[k]] + v[k + 1..n + 1 + k] + [w[n + 1 + k]]) + v[n + 2 + k..];
  }

  /** With one character of the prefix wrong the same data part checks exactly in that case. */
  lemma WrongPrefixChecks(hrp: string, k: nat, c: char, five: seq<u8>)
    requires Ascii(hrp) && k < |hrp| && c as int < 128 && c != hrp[k]
    ensures Ascii(hrp[k := c])
    ensures Fold(1, HrpExpand(hrp) + five) == Fold(1, HrpExpand(hrp[k := c]) + five)
            <==> Unnoticed(|hrp|, hrp[k], c)
  {
    hide HrpExpand, Fold, Xor, Unnoticed;
    var v, n := HrpExpand(hrp), |hrp|;
    ExpansionSplit(hrp, k, c, five);
    TwoErrors(v[..k], hrp[k] as int / 32, c as int / 32, v[k + 1..n + 1 + k], hrp[k] as int % 32, c as int % 32,
              v[n + 2 + k..] + five);
    HalvesCancel(n, hrp[k], c);
  }

  lemma SameSeparator(low: string, k: nat, c: char)
    requires Lower(low) == low && LowerChar(c) == c && k < LastIndexOf(low, '1')
    ensures
      var s', sep := low[k := c], LastIndexOf(low, '1');
      && Lower(s') == s' && LastIndexOf(s', '1') == sep
      && s'[..sep] == low[..sep][k := c] && s'[sep + 1..] == low[sep + 1..]
  {
    var s', sep := low[k := c], LastIndexOf(low, '1');
    assert s'[sep + 1..] == low[sep + 1..];
    LastIndexUnique(s', '1', sep);
  }

  lemma PartsDecodeIff(hrp: string, hrp': string, rest: string) returns (five: seq<u8>)
    requires Ascii(hrp) && Ascii(hrp') && |rest| >= 6 && DecodeParts(hrp, rest).Some?
    ensures Fold(1, HrpExpand(hrp) + five) == 1
    ensures DecodeParts(hrp', rest).Some? <==> Fold(1, HrpExpand(hrp') + five) == 1
  {
    hide Fold, HrpExpand;
    five := DecodePartsShape(hrp, rest);
  }

  lemma SeparatorIsThere(s: string)
    requires Ascii(s) && Decode(s).Some?
    ensures
      var low, sep := Lower(s), LastIndexOf(Lower(s), '1');
      1 <= sep && sep + 7 <= |low| && Ascii(low[..sep]) && Decode(s) == DecodeParts(low[..sep], low[sep + 1..])
  {
    hide DecodeParts, LastIndexOf, Lower, Upper;
    LowerKeepsAscii(s);
  }

  lemma AsciiReplaced(low: string, k: nat, c: char, sep: nat)
    requires Ascii(low) && k < sep < |low| && c as int < 128
    ensures Ascii(low[k := c]) && Ascii(low[..sep][k := c])
  {
  }

  /** When a string decodes and one character of its prefix is replaced by another lower-case one, the
      result is refused, unless the prefix has 1022 characters, or 2045, and so on, and both halves of
      the character are wrong by the same bits. */
  lemma PrefixErrorRefusedUnless(s: string, k: nat, c: char)
    requires Ascii(s) && Decode(s).Some? && k < LastIndexOf(Lower(s), '1')
    requires c as int < 128 && LowerChar(c) == c && c != Lower(s)[k]
    ensures
      var s' := Lower(s)[k := c];
      Ascii(s') && (Decode(s') == None <==> !Unnoticed(LastIndexOf(Lower(s), '1'), Lower(s)[k], c))
  {
    hide DecodeParts, HrpExpand, Fold, Unnoticed, Indices, LastIndexOf;
    var low := Lower(s);
    var sep := LastIndexOf(low, '1');
    LowerKeepsAscii(s);
    LowerTwice(s);
    SameSeparator(low, k, c);
    var hrp, rest := low[..sep], low[sep + 1..];
    SeparatorIsThere(s);
    AsciiReplaced(low, k, c, sep);
    var five := PartsDecodeIff(hrp, hrp[k := c], rest);
    WrongPrefixChecks(hrp, k, c, five);
  }

  /** So no wrong character goes unnoticed in a prefix of less than 1022 characters. */
  lemma ShortPrefixErrorRefused(s: string, k: nat, c: char)
    requires Ascii(s) && Decode(s).Some? && k < LastIndexOf(Lower(s), '1') < 1022
    requires c as int < 128 && LowerChar(c) == c && c != Lower(s)[k]
    ensures Ascii(Lower(s)[k := c]) && Decode(Lower(s)[k := c]) == None
  {
    hide Decode, LastIndexOf;
    PrefixErrorRefusedUnless(s, k, c);
  }

  /** Nor is another letter for a letter, in a prefix of any length: they differ in the low half only. */
  lemma WrongLetterRefused(s: string, k: nat, c: char)
    requires Ascii(s) && Decode(s).Some? && k < LastIndexOf(Lower(s), '1')
    requires 'a' <= c <= 'z' && 'a' <= Lower(s)[k] <= 'z' && c != Lower(s)[k]
    ensures Ascii(Lower(s)[k := c]) && Decode(Lower(s)[k := c]) == None
  {
    hide Decode, LastIndexOf, Xor;
    PrefixErrorRefusedUnless(s, k, c);
    XorSelf(3);
    if Xor(Lower(s)[k] as int % 32, c as int % 32) == 0 {
      XorEqual(Lower(s)[k] as int % 32, c as int % 32);
    }
  }

  function Ats(n: nat): (s: string)
    ensures |s| == n && forall i :: 0 <= i < n ==> s[i] == '@'
  {
    seq(n, i => '@')
  }

  /** Such a pair: 1022 times `@`, and the same with an `a` in front. */
  lemma PrefixErrorMissed() returns (s: string)
    ensures Ascii(s) && Decode(s) == Some((Ats(1022), []))
    ensures s != "" && s[0] == '@' && Ascii(s[0 := 'a']) && Decode(s[0 := 'a']).Some?
  {
    hide Decode, Encode, DataPart, Chars, LastIndexOf, Unnoticed, Lower;
    var hrp := Ats(1022);
    s := Encode(hrp, []);
    LowerAts(hrp);
    DecodeOfEncode(hrp, []);
    EncodeShape(hrp, []);
    var rest := Chars(DataPart(hrp, []));
    CharsAreCharset(DataPart(hrp, []));
    LowerWhole(hrp, rest);
    DecodeSplit(s, hrp, rest);
    AtForA();
    PrefixErrorRefusedUnless(s, 0, 'a');
  }

  lemma AtForA()
    ensures Unnoticed(1022, '@', 'a') && LowerChar('a') == 'a'
  {
    assert Xor(2, 3) == 1 && Xor(0, 1) == 1 by {
      XorHalves(2, 3);
      XorZero(1);
      assert Xor(1, 1) == 0 by { XorSelf(1); }
    }
  }

  lemma LowerAts(hrp: string)
    requires forall i :: 0 <= i < |hrp| ==> hrp[i] == '@'
    ensures Ascii(hrp) && Lower(hrp) == hrp
  {
  }
}
