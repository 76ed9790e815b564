/** The bech32 codec (app/bech32.odin; BIP-173), on ASCII strings. */
module Bech32 {
  import opened Options
  import opened Wire
  import opened BitRegroup
  import opened Radix
  import opened XorWords
  import opened Bech32Checksum

  const CHARSET: string := "qpzry9x8gf2tvdw0s3jn54khce6mua7l"

  predicate Ascii(s: string) {
    forall i :: 0 <= i < |s| ==> s[i] as int < 128
  }

  function LowerChar(c: char): char {
    if 'A' <= c <= 'Z' then (c as int + 32) as char else c
  }

  function UpperChar(c: char): char {
    if 'a' <= c <= 'z' then (c as int - 32) as char else c
  }

  function Lower(s: string): (r: string)
    ensures |r| == |s|
  {
    seq(|s|, i requires 0 <= i < |s| => LowerChar(s[i]))
  }

  function Upper(s: string): (r: string)
    ensures |r| == |s|
  {
    seq(|s|, i requires 0 <= i < |s| => UpperChar(s[i]))
  }

  predicate OneCase(s: string) {
    s == Lower(s) || s == Upper(s)
  }

  /** The first position of c in s, or -1. */
  function IndexOf(s: string, c: char): (r: int)
    ensures -1 <= r < |s|
    ensures r == -1 <==> c !in s
    ensures r >= 0 ==> s[r] == c && c !in s[..r]
  {
    if s == "" then -1
    else if s[0] == c then 0
    else
      var r := IndexOf(s[1..], c);
      assert r >= 0 ==> s[..r + 1] == [s[0]] + s[1..][..r];
      if r < 0 then -1 else r + 1
  }

  /** The last position of c in s, or -1. */
  function LastIndexOf(s: string, c: char): (r: int)
    ensures -1 <= r < |s|
    ensures r >= 0 ==> s[r] == c && c !in s[r + 1..]
    ensures r == -1 <==> c !in s
  {
    if s == "" then -1
    else if s[|s| - 1] == c then |s| - 1
    else
      var r := LastIndexOf(s[..|s| - 1], c);
      assert s == s[..|s| - 1] + [s[|s| - 1]];
      assert r >= 0 ==> s[r + 1..] == s[..|s| - 1][r + 1..] + [s[|s| - 1]];
      r
  }

  lemma AbsentFrom(s: string, c: char, k: nat)
    requires k <= |s| && c !in s[k..]
    ensures forall j :: k <= j < |s| ==> s[j] != c
  {
    forall j | k <= j < |s|
      ensures s[j] != c
    {
      assert s[j] == s[k..][j - k];
    }
  }

  lemma LastIndexUnique(s: string, c: char, r: nat)
    requires r < |s| && s[r] == c && c !in s[r + 1..]
    ensures LastIndexOf(s, c) == r
  {
    AbsentFrom(s, c, r + 1);
    var l := LastIndexOf(s, c);
    if l >= 0 {
      AbsentFrom(s, c, l + 1);
    }
  }

  predicate Symbols(v: seq<int>) {
    AllBelow(v, 32)
  }

  function Chars(v: seq<int>): (s: string)
    requires Symbols(v)
    ensures |s| == |v|
  {
    seq(|v|, i requires 0 <= i < |v| => CHARSET[v[i]])
  }

  predicate InCharset(c: char) {
    IndexOf(CHARSET, c) >= 0
  }

  /** The symbol values of a data part, if all its characters belong to the charset. */
  function Indices(s: string): Option<seq<int>> {
    if forall i :: 0 <= i < |s| ==> InCharset(s[i])
    then Some(seq(|s|, i requires 0 <= i < |s| => IndexOf(CHARSET, s[i])))
    else None
  }

  function HrpExpand(hrp: string): (v: seq<u8>)
    requires Ascii(hrp)
    ensures |v| == 2 * |hrp| + 1
  {
    seq(|hrp|, i requires 0 <= i < |hrp| => hrp[i] as int / 32) + [0]
    + seq(|hrp|, i requires 0 <= i < |hrp| => hrp[i] as int % 32)
  }

  /** Values i of the two halves around the zero spell the character. */
  predicate Spelled(v: seq<u8>, n: nat, i: nat, c: char)
    requires i < n && |v| == 2 * n + 1
  {
    v[i] < 4 && v[n + 1 + i] < 32 && 32 * v[i] as int + v[n + 1 + i] as int == c as int
  }

  /** The expansion: the high parts of all characters, a zero, their low parts. */
  lemma ExpansionSpells(hrp: string)
    requires Ascii(hrp)
    ensures
      var v := HrpExpand(hrp);
      v[|hrp|] == 0 && forall i :: 0 <= i < |hrp| ==> Spelled(v, |hrp|, i, hrp[i])
  {
    var v := HrpExpand(hrp);
    forall i | 0 <= i < |hrp|
      ensures Spelled(v, |hrp|, i, hrp[i])
    {
      assert v[i] == hrp[i] as int / 32 && v[|hrp| + 1 + i] == hrp[i] as int % 32;
    }
  }

  function Payload(data: seq<u8>): (five: seq<u8>)
    ensures Symbols(five) && Regroup(data, 8, 5, true) == Some(five)
    ensures Regroup(five, 5, 8, false) == Some(data)
  {
    RegroupRoundTrip(data);
    Regroup(data, 8, 5, true).value
  }

  lemma ChecksumIsSymbols(values: seq<u8>)
    ensures Symbols(Checksum(values))
  {
    Sizes();
    DigitsAreDigits(5, 6, Xor(Fold(1, values + Zeros(6)), 1));
  }

  function Encode(hrp: string, data: seq<u8>): string
    requires Ascii(hrp)
  {
    var five := Payload(data);
    ChecksumIsSymbols(HrpExpand(hrp) + five);
    hrp + "1" + Chars(five) + Chars(Checksum(HrpExpand(hrp) + five))
  }

  lemma LowerKeepsAscii(s: string)
    requires Ascii(s)
    ensures Ascii(Lower(s))
  {
  }

  function Decode(s: string): Option<(string, seq<int>)>
    requires Ascii(s)
  {
    var lower := Lower(s);
    var sep := LastIndexOf(lower, '1');
    if !OneCase(s) || sep < 1 || sep + 7 > |lower| then None
    else DecodeParts(lower[..sep], lower[sep + 1..])
  }

  /** Decoding, once the human-readable part and the data part are separated. */
  function DecodeParts(hrp: string, rest: string): Option<(string, seq<int>)>
    requires Ascii(hrp) && |rest| >= 6
  {
    match Indices(rest)
    case None => None
    case Some(five) =>
      if Fold(1, HrpExpand(hrp) + five) != 1 then None
      else
        match Regroup(five[..|five| - 6], 5, 8, false)
        case None => None
        case Some(data) => Some((hrp, data))
  }

  // ----- the imperative form -----

  method HrpExpandInto(hrp: string) returns (out: seq<u8>)
    requires Ascii(hrp)
    ensures out == HrpExpand(hrp)
    ensures out[|hrp|] == 0 && forall i :: 0 <= i < |hrp| ==> Spelled(out, |hrp|, i, hrp[i])
  {
    ExpansionSpells(hrp);
    out := [];
    for i := 0 to |hrp|
      invariant out == HrpExpand(hrp)[..i]
    {
      out := out + [hrp[i] as int / 32];
    }
    out := out + [0];
    for i := 0 to |hrp|
      invariant out == HrpExpand(hrp)[..|hrp| + 1 + i]
    {
      out := out + [hrp[i] as int % 32];
    }
  }

  /** Digits of the final word, read off with shifts; k digits follow digit i. */
  lemma {:induction false} DigitAt(w: nat, n: nat, v: nat, i: nat, k: nat)
    requires n == i + 1 + k
    ensures Digits(w, n, v)[i] == (v / Pow2(w * k)) % Pow2(w)
  {
    if k == 0 {
      assert w * k == 0;
    } else {
      var m: nat := k - 1;
      PowStep(w, m, k);
      DivBelow(v, Pow2(w), v + 1);
      var q := v / Pow2(w);
      DigitAt(w, n - 1, q, i, m);
      DigitsHead(w, n, v, i);
      DivDivTo(v, Pow2(w), Pow2(w * m), Pow2(w * k));
    }
  }

  lemma DigitsHead(w: nat, n: nat, v: int, i: nat)
    requires i < n - 1
    ensures Digits(w, n, v)[i] == Digits(w, n - 1, v / Pow2(w))[i]
  {
  }

  lemma DivDivTo(v: nat, a: nat, b: nat, c: nat)
    requires a > 0 && b > 0 && c == b * a
    ensures c > 0 && (v / a) / b == v / c
  {
    DivDiv(v, a, b);
  }

  method ChecksumChars(polymod: nat) returns (out: string)
    requires polymod < Pow2(30)
    ensures Symbols(Digits(5, 6, polymod)) && out == Chars(Digits(5, 6, polymod))
  {
    Sizes();
    DigitsAreDigits(5, 6, polymod);
    out := "";
    for i := 0 to 6
      invariant out == Chars(Digits(5, 6, polymod))[..i]
    {
      DigitAt(5, 6, polymod, i, 5 - i);
      out := out + [CHARSET[(polymod / Pow2(5 * (5 - i))) % 32]];
    }
  }

  lemma BytesAreDigits(data: seq<u8>)
    ensures AllBelow(data, Pow2(8))
  {
    assert Pow2(8) == 256;
  }

  /** The data part in front of the checksum, character by character. */
  method WriteSymbols(start: string, five: seq<u8>) returns (s: string)
    requires Symbols(five)
    ensures s == start + Chars(five)
  {
    s := start;
    for i := 0 to |five|
      invariant s == start + Chars(five)[..i]
    {
      s := s + [CHARSET[five[i]]];
    }
  }

  /** The checksum word of a message: six zero symbols appended, then the final XOR. */
  method ChecksumWord(body: seq<u8>) returns (polymod: nat)
    ensures polymod < Pow2(30) && Digits(5, 6, polymod) == Checksum(body)
  {
    var values := body;
    for i := 0 to 6
      invariant values == body + Zeros(i)
    {
      values := values + [0];
      assert body + Zeros(i) + [0] == body + Zeros(i + 1);
    }
    var chk := Polymod(values);
    Sizes();
    FoldBelow(1, values);
    XorBelow(chk, 1, 30);
    polymod := Xor(chk, 1);
  }

  method Bech32Encode(hrp: string, data: seq<u8>) returns (s: string)
    requires Ascii(hrp)
    ensures s == Encode(hrp, data)
  {
    BytesAreDigits(data);
    var five, _ := ConvertBits(data, 8, 5, true);
    assert five == Payload(data);
    var values := HrpExpandInto(hrp);
    var polymod := ChecksumWord(values + five);
    s := WriteSymbols(hrp + "1", five);
    var tail := ChecksumChars(polymod);
    s := s + tail;
  }

  method CharsetValues(rest: string) returns (five: seq<u8>, ok: bool)
    ensures Indices(rest) == if ok then Some(five) else None
    ensures Symbols(five)
  {
    five, ok := [], true;
    for i := 0 to |rest|
      invariant |five| == i && Symbols(five)
      invariant forall k :: 0 <= k < i ==> InCharset(rest[k]) && five[k] == IndexOf(CHARSET, rest[k])
    {
      var idx := IndexOf(CHARSET, rest[i]);
      if idx < 0 {
        return five, false;
      }
      five := five + [idx];
    }
    assert Indices(rest).value == five;
  }

  method DecodePartsOf(h: string, rest: string) returns (data: seq<u8>, ok: bool)
    requires Ascii(h) && |rest| >= 6
    ensures DecodeParts(h, rest) == if ok then Some((h, data)) else None
  {
    data := [];
    var five;
    five, ok := CharsetValues(rest);
    if !ok {
      return;
    }
    var values := HrpExpandInto(h);
    var chk := Polymod(values + five);
    if chk != 1 {
      return [], false;
    }
    assert Pow2(5) == 32;
    data, ok := ConvertBits(five[..|five| - 6], 5, 8, false);
  }

  method Bech32Decode(s: string) returns (hrp: string, data: seq<u8>, ok: bool)
    requires Ascii(s)
    ensures Decode(s) == if ok then Some((hrp, data)) else None
  {
    var lower := Lower(s);
    LowerKeepsAscii(s);
    if s != lower && s != Upper(s) {
      return "", [], false;
    }
    var sep := LastIndexOf(lower, '1');
    if sep < 1 || sep + 7 > |lower| {
      return "", [], false;
    }
    hrp := lower[..sep];
    data, ok := DecodePartsOf(hrp, lower[sep + 1..]);
  }
}
