/** Release versions and their order (app/appimage_update_policy.h:6-58). */
module Version {
  import opened Options

  const U64_MAX := 0xFFFF_FFFF_FFFF_FFFF

  predicate IsDigit(c: char) {
    '0' <= c <= '9'
  }

  function DigitValue(c: char): int {
    c as int - '0' as int
  }

  predicate DigitsIn(text: string, i: nat, e: nat) {
    i <= e <= |text| && forall k :: i <= k < e ==> IsDigit(text[k])
  }

  /** The number written between positions i and e. */
  function Value(text: string, i: nat, e: nat): (v: nat)
    requires DigitsIn(text, i, e)
    decreases e - i
  {
    if i == e then 0 else Value(text, i, e - 1) * 10 + DigitValue(text[e - 1])
  }

  /** Where the run of digits starting at i ends. */
  function DigitsEnd(text: string, i: nat): (e: nat)
    requires i <= |text|
    ensures DigitsIn(text, i, e) && (e < |text| ==> !IsDigit(text[e]))
    decreases |text| - i
  {
    if i < |text| && IsDigit(text[i]) then DigitsEnd(text, i + 1) else i
  }

  /** A number at position i: its value and the position after it; None if there is no digit or the
      value exceeds 64 bits. */
  function NumberAt(text: string, i: nat): (r: Option<(nat, nat)>)
    requires i <= |text|
    ensures r.Some? ==> i < r.value.1 <= |text| && r.value.0 <= U64_MAX
  {
    var e := DigitsEnd(text, i);
    if e == i || Value(text, i, e) > U64_MAX then None else Some((Value(text, i, e), e))
  }

  predicate Sees(text: string, i: nat, mark: string) {
    i + |mark| <= |text| && text[i..i + |mark|] == mark
  }

  type Fields = f: seq<nat> | |f| == 4 witness [0, 0, 0, 0]

  predicate InRange(f: Fields) {
    f[0] >= 2000 && 1 <= f[1] <= 12 && 1 <= f[2] <= 31
  }

  function Checked(f: Fields): Option<Fields> {
    if InRange(f) then Some(f) else None
  }

  /** A version text: year.month.day, optionally followed by +number or -build.number. */
  function Parse(text: string): Option<Fields> {
    match NumberAt(text, 0)
    case None => None
    case Some((year, e)) => if Sees(text, e, ".") then AfterYear(text, e + 1, year) else None
  }

  function AfterYear(text: string, i: nat, year: nat): Option<Fields>
    requires i <= |text|
  {
    match NumberAt(text, i)
    case None => None
    case Some((month, e)) => if Sees(text, e, ".") then AfterMonth(text, e + 1, year, month) else None
  }

  function AfterMonth(text: string, i: nat, year: nat, month: nat): Option<Fields>
    requires i <= |text|
  {
    match NumberAt(text, i)
    case None => None
    case Some((day, e)) =>
      if e == |text| then Checked([year, month, day, 0])
      else if Sees(text, e, "+") then AfterMark(text, e + 1, year, month, day)
      else if Sees(text, e, "-build.") then AfterMark(text, e + 7, year, month, day)
      else None
  }

  function AfterMark(text: string, i: nat, year: nat, month: nat, day: nat): Option<Fields>
    requires i <= |text|
  {
    match NumberAt(text, i)
    case Some((build, e)) => if e == |text| then Checked([year, month, day, build]) else None
    case None => None
  }

  lemma {:induction false} ValueGrows(text: string, i: nat, k: nat, e: nat)
    requires DigitsIn(text, i, e) && i <= k <= e
    ensures Value(text, i, k) <= Value(text, i, e)
    decreases e - k
  {
    if k < e {
      ValueGrows(text, i, k, e - 1);
    }
  }

  lemma {:induction false} RunEnds(text: string, i: nat, e: nat)
    requires DigitsIn(text, i, e) && (e < |text| ==> !IsDigit(text[e]))
    ensures DigitsEnd(text, i) == e
    decreases e - i
  {
    if i < e {
      RunEnds(text, i + 1, e);
    }
  }

  /** The digit loop: stops early, without overflowing, once the value leaves 64 bits. */
  method ReadNumber(text: string, i: nat) returns (ok: bool, value: nat, next: nat)
    requires i <= |text|
    ensures NumberAt(text, i) == if ok then Some((value, next)) else None
    ensures ok ==> next <= |text|
  {
    value, next := 0, i;
    if i == |text| || !IsDigit(text[i]) {
      return false, 0, i;
    }
    while next < |text| && IsDigit(text[next])
      invariant DigitsIn(text, i, next) && next <= DigitsEnd(text, i)
      invariant value == Value(text, i, next) <= U64_MAX
    {
      var digit := DigitValue(text[next]);
      RunGoesOn(text, i, next);
      if value > (U64_MAX - digit) / 10 {
        ValueGrows(text, i, next + 1, DigitsEnd(text, i));
        return false, 0, i;
      }
      value := value * 10 + digit;
      next := next + 1;
    }
    RunEnds(text, i, next);
    return true, value, next;
  }

  lemma RunGoesOn(text: string, i: nat, next: nat)
    requires i <= next < |text| && IsDigit(text[next]) && next <= DigitsEnd(text, i)
    ensures next < DigitsEnd(text, i)
  {
  }

  /** What is left to parse once some fields have been read. */
  function ParseFrom(text: string, i: nat, out: seq<nat>): Option<Fields>
    requires i <= |text| && |out| < 4
    decreases 4 - |out|, 1
  {
    match NumberAt(text, i)
    case None => None
    case Some((v, e)) => AfterField(text, e, out + [v])
  }

  /** What is left to parse behind the field that was read last. */
  function AfterField(text: string, e: nat, out: seq<nat>): Option<Fields>
    requires e <= |text| && 0 < |out| <= 4
    decreases 4 - |out|, 2
  {
    if |out| < 3 then
      if e < |text| && text[e] == '.' then ParseFrom(text, e + 1, out) else None
    else if |out| == 3 then
      if e == |text| then Checked(out + [0])
      else if text[e] == '+' then ParseFrom(text, e + 1, out)
      else if Sees(text, e, "-build.") then ParseFrom(text, e + 7, out)
      else None
    else if e < |text| then None else Checked(out)
  }

  lemma OneCharMark(text: string, i: nat, c: char)
    ensures Sees(text, i, [c]) <==> i < |text| && text[i] == c
  {
  }

  lemma BuildField(text: string, i: nat, year: nat, month: nat, day: nat)
    requires i <= |text|
    ensures ParseFrom(text, i, [year, month, day]) == AfterMark(text, i, year, month, day)
  {
    match NumberAt(text, i)
    case None =>
    case Some((build, e)) => assert [year, month, day] + [build] == [year, month, day, build];
  }

  lemma DayField(text: string, i: nat, year: nat, month: nat)
    requires i <= |text|
    ensures ParseFrom(text, i, [year, month]) == AfterMonth(text, i, year, month)
  {
    match NumberAt(text, i)
    case None =>
    case Some((day, e)) =>
      assert [year, month] + [day] == [year, month, day];
      assert [year, month, day] + [0] == [year, month, day, 0];
      OneCharMark(text, e, '+');
      if e < |text| {
        BuildField(text, e + 1, year, month, day);
      }
      if Sees(text, e, "-build.") {
        BuildField(text, e + 7, year, month, day);
      }
  }

  lemma MonthField(text: string, i: nat, year: nat)
    requires i <= |text|
    ensures ParseFrom(text, i, [year]) == AfterYear(text, i, year)
  {
    match NumberAt(text, i)
    case None =>
    case Some((month, e)) =>
      assert [year] + [month] == [year, month];
      OneCharMark(text, e, '.');
      if e < |text| {
        DayField(text, e + 1, year, month);
      }
  }

  /** The field-by-field loop and the grammar agree. */
  lemma ParseFieldByField(text: string)
    ensures ParseFrom(text, 0, []) == Parse(text)
  {
    match NumberAt(text, 0)
    case None =>
    case Some((year, e)) =>
      assert [] + [year] == [year];
      OneCharMark(text, e, '.');
      if e < |text| {
        MonthField(text, e + 1, year);
      }
  }

  /** wn_appimage_version: one turn of the loop per field. */
  method ParseVersion(text: string) returns (ok: bool, fields: Fields)
    ensures Parse(text) == if ok then Some(fields) else None
  {
    hide Parse, NumberAt, DigitsEnd, Value;
    ParseFieldByField(text);
    fields := [0, 0, 0, 0];
    if text == "" {
      return false, fields;
    }
    ghost var goal := Parse(text);
    var out: seq<nat>, at: nat := [], 0;
    while |out| < 4
      invariant |out| <= 4 && at <= |text|
      invariant goal == if |out| < 4 then ParseFrom(text, at, out) else Checked(out)
      decreases 4 - |out|
    {
      var good, value, next := ReadNumber(text, at);
      if !good {
        return false, fields;
      }
      var field := |out|;
      out, at := out + [value], next;
      assert goal == AfterField(text, at, out);
      if field < 2 {
        if at == |text| || text[at] != '.' {
          return false, fields;
        }
        at := at + 1;
      } else if field == 2 {
        if at == |text| {
          out := out + [0];
        } else if text[at] == '+' {
          at := at + 1;
        } else if Sees(text, at, "-build.") {
          at := at + 7;
        } else {
          return false, fields;
        }
      } else if at < |text| {
        return false, fields;
      }
    }
    return InRange(out), out;
  }

  // ----- written versions are read -----

  /** A number in decimal. */
  function Decimal(n: nat): (s: string)
    ensures s != "" && forall k :: 0 <= k < |s| ==> IsDigit(s[k])
  {
    var digit := ['0' + (n % 10) as char];
    if n < 10 then digit else Decimal(n / 10) + digit
  }

  /** The same with any number of zeros in front. */
  function Written(zeros: nat, n: nat): (s: string)
    ensures s != "" && forall k :: 0 <= k < |s| ==> IsDigit(s[k])
  {
    if zeros == 0 then Decimal(n) else "0" + Written(zeros - 1, n)
  }

  /** Digits read at position i of a text are worth what they are worth by themselves. */
  lemma {:induction false} ValueMoves(text: string, i: nat, s: string, n: nat)
    requires n <= |s| && i + |s| <= |text| && text[i..i + |s|] == s && forall k :: 0 <= k < |s| ==> IsDigit(s[k])
    ensures DigitsIn(text, i, i + n) && DigitsIn(s, 0, n) && Value(text, i, i + n) == Value(s, 0, n)
    decreases n
  {
    forall k | i <= k < i + |s|
      ensures text[k] == s[k - i]
    {
      assert text[i..i + |s|][k - i] == text[k];
    }
    if n > 0 {
      ValueMoves(text, i, s, n - 1);
    }
  }

  lemma {:induction false} ValueOfDecimal(n: nat)
    ensures DigitsIn(Decimal(n), 0, |Decimal(n)|) && Value(Decimal(n), 0, |Decimal(n)|) == n
    decreases n
  {
    var s := Decimal(n);
    var m: nat := |s| - 1;
    assert DigitValue(s[m]) == n % 10;
    if n < 10 {
      assert Value(s, 0, 0) == 0;
    } else {
      var t := Decimal(n / 10);
      ValueOfDecimal(n / 10);
      assert s[0..0 + |t|] == t;
      ValueMoves(s, 0, t, m);
    }
  }

  lemma {:induction false} ZeroInFront(s: string, n: nat)
    requires n <= |s| && forall k :: 0 <= k < |s| ==> IsDigit(s[k])
    ensures DigitsIn("0" + s, 0, n + 1) && DigitsIn(s, 0, n) && Value("0" + s, 0, n + 1) == Value(s, 0, n)
    decreases n
  {
    if n > 0 {
      ZeroInFront(s, n - 1);
    } else {
      assert Value("0" + s, 0, 0) == 0;
    }
  }

  lemma {:induction false} ValueOfWritten(zeros: nat, n: nat)
    ensures var s := Written(zeros, n); DigitsIn(s, 0, |s|) && Value(s, 0, |s|) == n
    decreases zeros
  {
    if zeros == 0 {
      ValueOfDecimal(n);
    } else {
      ValueOfWritten(zeros - 1, n);
      ZeroInFront(Written(zeros - 1, n), |Written(zeros - 1, n)|);
    }
  }

  /** A written number is read, up to the character behind it. */
  lemma NumberReads(text: string, i: nat, zeros: nat, n: nat)
    requires var s := Written(zeros, n); i + |s| <= |text| && text[i..i + |s|] == s
    requires var e := i + |Written(zeros, n)|; e < |text| ==> !IsDigit(text[e])
    requires n <= U64_MAX
    ensures NumberAt(text, i) == Some((n, i + |Written(zeros, n)|))
  {
    hide Written, Value;
    var s := Written(zeros, n);
    ValueOfWritten(zeros, n);
    ValueMoves(text, i, s, |s|);
    RunEnds(text, i, i + |s|);
  }

  /** How the build number may follow: not at all, behind +, or behind -build. */
  datatype Suffix = NoBuild | Plus(zeros: nat, build: nat) | Build(zeros: nat, build: nat)

  function SuffixText(x: Suffix): string {
    match x
    case NoBuild => ""
    case Plus(zeros, build) => "+" + Written(zeros, build)
    case Build(zeros, build) => "-build." + Written(zeros, build)
  }

  function BuildOf(x: Suffix): nat {
    if x.NoBuild? then 0 else x.build
  }

  /** A written version is read as its fields, zeros in front of a number making no difference. */
  lemma WrittenParses(zeros: seq<nat>, year: nat, month: nat, day: nat, x: Suffix)
    requires |zeros| == 3 && 2000 <= year <= U64_MAX && 1 <= month <= 12 && 1 <= day <= 31 && BuildOf(x) <= U64_MAX
    ensures
      Parse(Written(zeros[0], year) + "." + Written(zeros[1], month) + "." + Written(zeros[2], day) + SuffixText(x))
      == Some([year, month, day, BuildOf(x)])
  {
    hide Written, NumberAt, SuffixText;
    var a, b, c, d := Written(zeros[0], year), Written(zeros[1], month), Written(zeros[2], day), SuffixText(x);
    var text := a + "." + b + "." + c + d;
    var i, j: nat := |a| + 1, |a| + 1 + |b| + 1;
    var k: nat := j + |c|;
    Pieces(a, b, c, d, text, i, j, k);
    SuffixStarts(x);
    NumberReads(text, 0, zeros[0], year);
    NumberReads(text, i, zeros[1], month);
    NumberReads(text, j, zeros[2], day);
    OneCharMark(text, |a|, '.');
    OneCharMark(text, i + |b|, '.');
    SuffixReads(text, k, x);
  }

  lemma Pieces(a: string, b: string, c: string, d: string, text: string, i: nat, j: nat, k: nat)
    requires text == a + "." + b + "." + c + d && i == |a| + 1 && j == i + |b| + 1 && k == j + |c|
    ensures k <= |text| && text[0..|a|] == a && text[|a|] == '.' && text[i..i + |b|] == b && text[i + |b|] == '.'
    ensures text[j..k] == c && text[k..] == d && (k < |text| ==> d != "" && text[k] == d[0])
  {
    assert text == a + ("." + (b + ("." + (c + d))));
  }

  lemma SuffixStarts(x: Suffix)
    ensures SuffixText(x) != "" ==> !IsDigit(SuffixText(x)[0])
  {
  }

  lemma SuffixReads(text: string, k: nat, x: Suffix)
    requires k <= |text| && text[k..] == SuffixText(x) && BuildOf(x) <= U64_MAX
    ensures x.NoBuild? <==> k == |text|
    ensures x.Plus? ==> Sees(text, k, "+") && NumberAt(text, k + 1) == Some((x.build, |text|))
    ensures x.Build? ==> !Sees(text, k, "+") && Sees(text, k, "-build.")
    ensures x.Build? ==> NumberAt(text, k + 7) == Some((x.build, |text|))
  {
    hide Written, NumberAt;
    OneCharMark(text, k, '+');
    match x
    case NoBuild =>
    case Plus(zeros, build) =>
      assert text[k] == text[k..][0] == '+';
      assert text[k + 1..k + 1 + |Written(zeros, build)|] == text[k..][1..] == Written(zeros, build);
      NumberReads(text, k + 1, zeros, build);
    case Build(zeros, build) =>
      assert text[k] == text[k..][0] == '-';
      assert text[k..k + 7] == text[k..][..7] == "-build.";
      assert text[k + 7..k + 7 + |Written(zeros, build)|] == text[k..][7..] == Written(zeros, build);
      NumberReads(text, k + 7, zeros, build);
  }

  // ----- the order -----

  /** Lexicographic: the first field that differs decides. */
  predicate Less(a: Fields, b: Fields) {
    || a[0] < b[0]
    || (a[0] == b[0] && (a[1] < b[1]
    || (a[1] == b[1] && (a[2] < b[2]
    || (a[2] == b[2] && a[3] < b[3])))))
  }

  /** wn_appimage_newer: both texts are release versions and the second is strictly later. */
  predicate Newer(old_: string, new_: string) {
    Parse(old_).Some? && Parse(new_).Some? && Less(Parse(old_).value, Parse(new_).value)
  }

  method AppImageNewer(old_: string, new_: string) returns (newer: bool)
    ensures newer == Newer(old_, new_)
  {
    var good, a := ParseVersion(old_);
    if !good {
      return false;
    }
    var b;
    good, b := ParseVersion(new_);
    if !good {
      return false;
    }
    for i := 0 to 4
      invariant forall j :: 0 <= j < i ==> a[j] == b[j]
    {
      if b[i] != a[i] {
        return b[i] > a[i];
      }
    }
    return false;
  }

  /** Newer means: both are release versions, and at the first field that differs the second is larger. */
  lemma NewerByFirstDifference(old_: string, new_: string)
    ensures Newer(old_, new_) <==>
      && Parse(old_).Some? && Parse(new_).Some?
      && var a, b := Parse(old_).value, Parse(new_).value;
         exists k: nat :: k < 4 && a[k] < b[k] && forall j :: 0 <= j < k ==> a[j] == b[j]
  {
    if Parse(old_).Some? && Parse(new_).Some? {
      var a, b := Parse(old_).value, Parse(new_).value;
      FirstDifference(a, b);
    }
  }

  lemma FirstDifference(a: Fields, b: Fields)
    ensures Less(a, b) <==> exists k: nat :: k < 4 && a[k] < b[k] && forall j :: 0 <= j < k ==> a[j] == b[j]
  {
    if Less(a, b) {
      var k: nat := if a[0] != b[0] then 0 else if a[1] != b[1] then 1 else if a[2] != b[2] then 2 else 3;
      assert k < 4 && a[k] < b[k] && forall j :: 0 <= j < k ==> a[j] == b[j];
    } else if k: nat :| k < 4 && a[k] < b[k] && forall j :: 0 <= j < k ==> a[j] == b[j] {
      assert a[0] == b[0] || k == 0;
    }
  }

  /** The order is strict, transitive, and total up to equal fields. */
  lemma NewerIsStrictOrder(a: string, b: string, c: string)
    ensures !Newer(a, a)
    ensures Newer(a, b) ==> !Newer(b, a)
    ensures Newer(a, b) && Newer(b, c) ==> Newer(a, c)
    ensures Parse(a).Some? && Parse(b).Some? && Parse(a) != Parse(b) ==> Newer(a, b) || Newer(b, a)
  {
    if Parse(a).Some? && Parse(b).Some? {
      var x, y := Parse(a).value, Parse(b).value;
      if x[0] == y[0] && x[1] == y[1] && x[2] == y[2] && x[3] == y[3] {
        assert x == y;
      }
    }
  }
}
