/** What the bech32 codec is for: round trips both ways, and detection of short bursts. */
module Bech32Laws {
  import opened Collections
  import opened Options
  import opened Wire
  import opened BitRegroup
  import opened Radix
  import opened XorWords
  import opened Bech32Checksum
  import opened Bech32

  // ----- characters -----

  /** The symbol value of a charset character, written as the inverse table. */
  function SymbolOf(c: char): int {
    match c
    case 'q' => 0 case 'p' => 1 case 'z' => 2 case 'r' => 3
    case 'y' => 4 case '9' => 5 case 'x' => 6 case '8' => 7
    case 'g' => 8 case 'f' => 9 case '2' => 10 case 't' => 11
    case 'v' => 12 case 'd' => 13 case 'w' => 14 case '0' => 15
    case 's' => 16 case '3' => 17 case 'j' => 18 case 'n' => 19
    case '5' => 20 case '4' => 21 case 'k' => 22 case 'h' => 23
    case 'c' => 24 case 'e' => 25 case '6' => 26 case 'm' => 27
    case 'u' => 28 case 'a' => 29 case '7' => 30 case 'l' => 31
    case _ => -1
  }

  lemma CharsetTable(v: int)
    requires 0 <= v < 32
    ensures SymbolOf(CHARSET[v]) == v
    ensures LowerChar(CHARSET[v]) == CHARSET[v] && CHARSET[v] != '1' && CHARSET[v] as int < 128
  {
  }

  lemma CharsetIndex(v: int)
    requires 0 <= v < 32
    ensures InCharset(CHARSET[v]) && IndexOf(CHARSET, CHARSET[v]) == v
  {
    CharsetTable(v);
    CharsetTable(IndexOf(CHARSET, CHARSET[v]));
  }

  lemma CharsetMember(c: char)
    requires InCharset(c)
    ensures 0 <= IndexOf(CHARSET, c) < 32 && CHARSET[IndexOf(CHARSET, c)] == c
    ensures LowerChar(c) == c && c != '1' && c as int < 128
  {
    CharsetTable(IndexOf(CHARSET, c));
  }

  lemma CharsAreCharset(v: seq<int>)
    requires Symbols(v)
    ensures Ascii(Chars(v)) && Lower(Chars(v)) == Chars(v) && '1' !in Chars(v)
    ensures Indices(Chars(v)) == Some(v)
  {
    forall i | 0 <= i < |v|
      ensures InCharset(CHARSET[v[i]]) && IndexOf(CHARSET, CHARSET[v[i]]) == v[i]
      ensures LowerChar(CHARSET[v[i]]) == CHARSET[v[i]] && CHARSET[v[i]] != '1' && CHARSET[v[i]] as int < 128
    {
      CharsetTable(v[i]);
      CharsetIndex(v[i]);
    }
    assert Indices(Chars(v)).value == v;
  }

  lemma SplitThree<T>(s: seq<T>, k: nat, n: nat)
    requires k + n <= |s|
    ensures s == s[..k] + s[k..k + n] + s[k + n..]
  {
  }

  lemma SplitAround(s: string, c: char, k: nat)
    requires k < |s| && s[k] == c
    ensures s == s[..k] + [c] + s[k + 1..]
  {
  }

  lemma IndicesInverse(s: string)
    requires Indices(s).Some?
    ensures Symbols(Indices(s).value) && |Indices(s).value| == |s| && Chars(Indices(s).value) == s
  {
    forall i | 0 <= i < |s|
      ensures 0 <= IndexOf(CHARSET, s[i]) < 32 && CHARSET[IndexOf(CHARSET, s[i])] == s[i]
    {
      CharsetMember(s[i]);
    }
  }

  lemma LowerTwice(s: string)
    ensures Lower(Lower(s)) == Lower(s)
  {
  }

  /** What one case means: no lower-case letter beside an upper-case one. */
  lemma OneCaseIff(s: string)
    ensures OneCase(s) <==>
            !exists i, j :: 0 <= i < |s| && 0 <= j < |s| && 'a' <= s[i] <= 'z' && 'A' <= s[j] <= 'Z'
  {
    if i :| 0 <= i < |s| && 'A' <= s[i] <= 'Z' {
      assert Lower(s)[i] != s[i];
    } else {
      assert Lower(s) == s;
    }
    if i :| 0 <= i < |s| && 'a' <= s[i] <= 'z' {
      assert Upper(s)[i] != s[i];
    } else {
      assert Upper(s) == s;
    }
  }

  /** The two cases of a text are the two cases of each other. */
  lemma CasesAgree(s: string)
    ensures Lower(Upper(s)) == Lower(s) && Upper(Lower(s)) == Upper(s)
  {
  }

  lemma LowerSlices(s: string, i: nat, j: nat)
    requires i <= j <= |s|
    ensures Lower(s[i..j]) == Lower(s)[i..j]
  {
  }

  lemma LowerJoin(a: string, b: string)
    ensures Lower(a + b) == Lower(a) + Lower(b)
  {
  }

  // ----- round trips -----

  /** The encoder's data part: payload symbols, then the checksum of everything before. */
  function DataPart(hrp: string, data: seq<u8>): (five: seq<u8>)
    requires Ascii(hrp)
    ensures Symbols(five) && |five| >= 6
    ensures five[..|five| - 6] == Payload(data)
  {
    var body := HrpExpand(hrp) + Payload(data);
    ChecksumIsSymbols(body);
    Payload(data) + Checksum(body)
  }

  lemma CharsJoin(a: seq<int>, b: seq<int>)
    requires Symbols(a) && Symbols(b)
    ensures Symbols(a + b) && Chars(a + b) == Chars(a) + Chars(b)
  {
  }

  lemma DataPartChecks(hrp: string, data: seq<u8>)
    requires Ascii(hrp)
    ensures Fold(1, HrpExpand(hrp) + DataPart(hrp, data)) == 1
  {
    var body := HrpExpand(hrp) + Payload(data);
    var c := Checksum(body);
    ChecksumIsSymbols(body);
    ChecksumUnique(body, c);
    JoinAssoc(HrpExpand(hrp), Payload(data), c);
  }

  lemma EncodeShape(hrp: string, data: seq<u8>)
    requires Ascii(hrp)
    ensures Encode(hrp, data) == hrp + "1" + Chars(DataPart(hrp, data))
  {
    var c := Checksum(HrpExpand(hrp) + Payload(data));
    ChecksumIsSymbols(HrpExpand(hrp) + Payload(data));
    CharsJoin(Payload(data), c);
    JoinAssoc(hrp + "1", Chars(Payload(data)), Chars(c));
  }

  lemma AsciiJoin(a: string, b: string)
    requires Ascii(a) && Ascii(b)
    ensures Ascii(a + b)
  {
  }

  lemma DataPartDecodes(hrp: string, data: seq<u8>)
    requires Ascii(hrp)
    ensures |Chars(DataPart(hrp, data))| >= 6
    ensures DecodeParts(hrp, Chars(DataPart(hrp, data))) == Some((hrp, data))
  {
    CharsAreCharset(DataPart(hrp, data));
    DataPartChecks(hrp, data);
  }

  lemma DecodeSplit(s: string, hrp: string, rest: string)
    requires Ascii(s) && s == hrp + "1" + rest && '1' !in rest
    ensures LastIndexOf(s, '1') == |hrp|
    ensures s[..|hrp|] == hrp && s[|hrp| + 1..] == rest
  {
    assert s[|hrp| + 1..] == rest;
    LastIndexUnique(s, '1', |hrp|);
  }

  lemma LowerWhole(hrp: string, rest: string)
    requires Lower(hrp) == hrp && Lower(rest) == rest
    ensures Lower(hrp + "1" + rest) == hrp + "1" + rest
  {
    assert Lower("1") == "1";
    LowerJoin(hrp, "1");
    LowerJoin(hrp + "1", rest);
  }

  lemma DecodeLowerString(s: string, hrp: string, rest: string)
    requires Ascii(s) && s == hrp + "1" + rest && '1' !in rest
    requires Lower(s) == s && Ascii(hrp) && hrp != "" && |rest| >= 6
    ensures Decode(s) == DecodeParts(hrp, rest)
  {
    DecodeSplit(s, hrp, rest);
  }

  lemma DecodedHrpIsLower(s: string)
    requires Ascii(s) && Decode(s).Some?
    ensures Decode(s).value.0 != "" && Lower(Decode(s).value.0) == Decode(s).value.0
  {
    var sep := LastIndexOf(Lower(s), '1');
    LowerTwice(s);
    LowerSlices(Lower(s), 0, sep);
  }

  /** Decoding an encoding gives the arguments back exactly when the human-readable part is
      non-empty and has no upper-case letter. */
  lemma DecodeOfEncode(hrp: string, data: seq<u8>)
    requires Ascii(hrp)
    ensures Ascii(Encode(hrp, data))
    ensures Decode(Encode(hrp, data)) == Some((hrp, data)) <==> hrp != "" && Lower(hrp) == hrp
  {
    var rest := Chars(DataPart(hrp, data));
    CharsAreCharset(DataPart(hrp, data));
    EncodeShape(hrp, data);
    AsciiJoin(hrp, "1");
    AsciiJoin(hrp + "1", rest);
    if hrp != "" && Lower(hrp) == hrp {
      LowerWhole(hrp, rest);
      DecodeLowerString(Encode(hrp, data), hrp, rest);
      DataPartDecodes(hrp, data);
    } else if Decode(Encode(hrp, data)).Some? {
      DecodedHrpIsLower(Encode(hrp, data));
    }
  }

  lemma DecodePartsShape(hrp: string, rest: string) returns (five: seq<u8>)
    requires Ascii(hrp) && |rest| >= 6 && DecodeParts(hrp, rest).Some?
    ensures Indices(rest) == Some(five) && Symbols(five) && |five| == |rest| && rest == Chars(five)
    ensures DecodeParts(hrp, rest).value.0 == hrp
    ensures Some(DecodeParts(hrp, rest).value.1) == Regroup(five[..|five| - 6], 5, 8, false)
    ensures Fold(1, HrpExpand(hrp) + five) == 1
  {
    IndicesInverse(rest);
    five := Indices(rest).value;
  }

  /** A data part that decodes is the one the encoder would write. */
  lemma DecodedDataPart(hrp: string, rest: string)
    requires Ascii(hrp) && |rest| >= 6 && DecodeParts(hrp, rest).Some?
    ensures AllBelow(DecodeParts(hrp, rest).value.1, 256)
    ensures rest == Chars(DataPart(hrp, DecodeParts(hrp, rest).value.1))
  {
    var five := DecodePartsShape(hrp, rest);
    var n := |five| - 6;
    SplitThree(five, 0, n);
    BodyRegroups(five[..n]);
    DataPartUnique(hrp, DecodeParts(hrp, rest).value.1, five[..n], five[n..]);
  }

  lemma BodyRegroups(body: seq<u8>)
    requires Symbols(body) && Regroup(body, 5, 8, false).Some?
    ensures AllBelow(Regroup(body, 5, 8, false).value, 256)
    ensures Payload(Regroup(body, 5, 8, false).value) == body
  {
    assert Pow2(5) == 32 && Pow2(8) == 256;
    RegroupRoundTripBack(body);
  }

  lemma DataPartUnique(hrp: string, data: seq<u8>, body: seq<u8>, c: seq<u8>)
    requires Ascii(hrp) && Payload(data) == body && |c| == 6 && AllBelow(c, 32)
    requires Fold(1, HrpExpand(hrp) + (body + c)) == 1
    ensures body + c == DataPart(hrp, data)
  {
    JoinAssoc(HrpExpand(hrp), body, c);
    ChecksumUnique(HrpExpand(hrp) + body, c);
  }

  /** Whatever decodes is, up to case, the encoding of what it decodes to: padding bits, leftover
      bits and checksum leave no second spelling. */
  lemma EncodeOfDecode(s: string)
    requires Ascii(s) && Decode(s).Some?
    ensures var (hrp, data) := Decode(s).value;
            && Ascii(hrp) && AllBelow(data, 256)
            && Encode(hrp, data) == Lower(s)
  {
    var lower := Lower(s);
    LowerKeepsAscii(s);
    var sep := LastIndexOf(lower, '1');
    var hrp, rest := lower[..sep], lower[sep + 1..];
    DecodedDataPart(hrp, rest);
    EncodeShape(hrp, DecodeParts(hrp, rest).value.1);
    SplitAround(lower, '1', sep);
  }

  // ----- burst errors -----

  lemma DecodeDependsOnLower(s: string, s': string)
    requires Ascii(s) && Ascii(s') && Lower(s) == Lower(s') && OneCase(s) && OneCase(s')
    ensures Decode(s) == Decode(s')
  {
  }

  /** The s' of a burst: characters at positions [at, at+6) of the data part replaced by
      lower-case charset characters (or kept). */
  predicate Burst(s: string, s': string, at: nat) {
    && |s'| == |s| && at + 6 <= |s|
    && LastIndexOf(Lower(s), '1') < at
    && (forall i :: 0 <= i < |s| && !(at <= i < at + 6) ==> s'[i] == s[i])
    && (forall i :: at <= i < at + 6 ==> s'[i] == s[i] || InCharset(s'[i]))
  }

  lemma BurstKeepsSeparator(s: string, s': string, at: nat)
    requires Ascii(s) && Burst(s, s', at) && Decode(s).Some?
    ensures Ascii(s') && LastIndexOf(Lower(s'), '1') == LastIndexOf(Lower(s), '1')
  {
    var sep := LastIndexOf(Lower(s), '1');
    AbsentFrom(Lower(s), '1', sep + 1);
    forall i | 0 <= i < |s'|
      ensures s'[i] as int < 128
      ensures i > sep ==> LowerChar(s'[i]) != '1'
    {
      if at <= i < at + 6 && s'[i] != s[i] {
        CharsetMember(s'[i]);
      } else {
        assert i > sep ==> Lower(s)[i] != '1';
      }
    }
    LastIndexUnique(Lower(s'), '1', sep);
  }

  predicate SameOutsideWindow(a: string, b: string, k: int) {
    |a| == |b| && 0 <= k && k + 6 <= |a| && forall i :: 0 <= i < |a| && !(k <= i < k + 6) ==> a[i] == b[i]
  }

  /** Two accepted data parts that differ only inside a window of six are equal. */
  lemma BurstParts(hrp: string, rest: string, rest': string, k: nat)
    requires Ascii(hrp) && SameOutsideWindow(rest, rest', k)
    requires DecodeParts(hrp, rest).Some? && DecodeParts(hrp, rest').Some?
    ensures rest == rest'
  {
    var five := DecodePartsShape(hrp, rest);
    var five' := DecodePartsShape(hrp, rest');
    SameOutside(rest, rest', five, five', k);
    SplitThree(five, k, 6);
    SplitThree(five', k, 6);
    SliceSymbols(five, k);
    SliceSymbols(five', k);
    BurstFold(HrpExpand(hrp), five[..k], five[k..k + 6], five'[k..k + 6], five[k + 6..]);
  }

  lemma SliceSymbols(five: seq<u8>, k: nat)
    requires Symbols(five) && k + 6 <= |five|
    ensures AllBelow(five[k..k + 6], 32)
  {
  }

  lemma SameOutside(rest: string, rest': string, five: seq<u8>, five': seq<u8>, k: nat)
    requires Indices(rest) == Some(five) && Indices(rest') == Some(five')
    requires SameOutsideWindow(rest, rest', k)
    ensures |five| == |five'| == |rest| && five[..k] == five'[..k] && five[k + 6..] == five'[k + 6..]
  {
  }

  lemma BurstFold(expand: seq<u8>, head: seq<u8>, w: seq<u8>, w': seq<u8>, tail: seq<u8>)
    requires |w| == |w'| == 6 && AllBelow(w, 32) && AllBelow(w', 32)
    requires Fold(1, expand + (head + w + tail)) == Fold(1, expand + (head + w' + tail))
    ensures w == w'
  {
    JoinAssoc(expand, head + w, tail);
    JoinAssoc(expand, head, w);
    JoinAssoc(expand, head + w', tail);
    JoinAssoc(expand, head, w');
    Sizes();
    BurstChangesFold(1, expand + head, w, w', tail);
  }

  lemma LowerOutside(s: string, s': string, at: nat, sep: nat)
    requires sep < at && at + 6 <= |s| == |s'|
    requires forall i :: 0 <= i < |s| && !(at <= i < at + 6) ==> s'[i] == s[i]
    ensures Lower(s')[..sep] == Lower(s)[..sep]
    ensures SameOutsideWindow(Lower(s)[sep + 1..], Lower(s')[sep + 1..], at - sep - 1)
  {
  }

  /** If both strings decode, the burst did not change any symbol. */
  lemma BurstBothDecode(s: string, s': string, at: nat)
    requires Ascii(s) && Ascii(s') && Burst(s, s', at)
    requires Decode(s).Some? && Decode(s').Some?
    ensures Lower(s') == Lower(s)
  {
    BurstKeepsSeparator(s, s', at);
    var low, low' := Lower(s), Lower(s');
    LowerKeepsAscii(s);
    LowerKeepsAscii(s');
    var sep := LastIndexOf(low, '1');
    LowerOutside(s, s', at, sep);
    BurstParts(low[..sep], low[sep + 1..], low'[sep + 1..], at - sep - 1);
    SplitAround(low, '1', sep);
    SplitAround(low', '1', sep);
  }

  /** Burst detection at any length: after characters in a window of six have been replaced by
      lower-case charset characters, the string still decodes exactly when no character changed
      beyond its case and the result is not of mixed case. */
  lemma BurstDetection(s: string, s': string, at: nat)
    requires Ascii(s) && Decode(s).Some? && Burst(s, s', at)
    ensures Ascii(s')
    ensures Decode(s').Some? <==> Lower(s') == Lower(s) && OneCase(s')
  {
    BurstKeepsSeparator(s, s', at);
    if Decode(s').Some? {
      BurstBothDecode(s, s', at);
    }
    if Lower(s') == Lower(s) && OneCase(s') {
      DecodeDependsOnLower(s, s');
    }
  }

  /** For a lower-case string every real change in such a window is rejected. */
  lemma LowerCaseBurstRejected(s: string, s': string, at: nat)
    requires Ascii(s) && Decode(s).Some? && Lower(s) == s && Burst(s, s', at) && s' != s
    ensures Ascii(s') && Decode(s') == None
  {
    hide Decode;
    BurstDetection(s, s', at);
    forall i | 0 <= i < |s'|
      ensures LowerChar(s'[i]) == s'[i]
    {
      if at <= i < at + 6 && s'[i] != s[i] {
        CharsetMember(s'[i]);
      } else {
        assert s'[i] == Lower(s)[i];
      }
    }
    assert Lower(s') == s';
  }

  lemma DataPartInCharset(s: string)
    requires Ascii(s) && Decode(s).Some?
    ensures forall i :: LastIndexOf(Lower(s), '1') < i < |s| ==> InCharset(Lower(s)[i])
  {
    LowerKeepsAscii(s);
    var sep := LastIndexOf(Lower(s), '1');
    var rest := Lower(s)[sep + 1..];
    assert Indices(rest).Some?;
    forall i | sep < i < |s|
      ensures InCharset(Lower(s)[i])
    {
      assert Lower(s)[i] == rest[i - sep - 1];
    }
  }

  lemma LoweredIsBurst(s: string, at: nat)
    requires at + 6 <= |s| && LastIndexOf(Lower(s), '1') < at
    requires forall i :: LastIndexOf(Lower(s), '1') < i < |s| ==> InCharset(Lower(s)[i])
    requires forall i :: 0 <= i < |s| && !(at <= i < at + 6) ==> LowerChar(s[i]) == s[i]
    ensures Burst(s, Lower(s), at)
  {
    hide LastIndexOf, InCharset, LowerChar;
  }

  /** The one family that slips through: an upper-case string with all its letters in the window,
      lower-cased. */
  lemma CaseOnlyBurstAccepted(s: string, at: nat)
    requires Ascii(s) && Decode(s).Some? && Upper(s) == s && at + 6 <= |s|
    requires LastIndexOf(Lower(s), '1') < at
    requires forall i :: 0 <= i < |s| && !(at <= i < at + 6) ==> LowerChar(s[i]) == s[i]
    ensures Burst(s, Lower(s), at) && Ascii(Lower(s)) && Decode(Lower(s)) == Decode(s)
  {
    hide Decode, Burst, LastIndexOf, Lower, InCharset;
    DataPartInCharset(s);
    LoweredIsBurst(s, at);
    LowerKeepsAscii(s);
    LowerTwice(s);
    DecodeDependsOnLower(s, Lower(s));
  }
}
