/** The grammar of UTF-8, section 4 of RFC 3629, and the recogniser for proxy credentials
    (app/proxy_credentials.h:9-55). */
module Utf8 {
  import opened Wire

  type Bytes = seq<u8>

  predicate Tail(b: u8) {
    0x80 <= b <= 0xBF
  }

  /** The bytes from i on start with a UTF8-char of k bytes, by the alternatives of the grammar. */
  predicate CharAt(s: Bytes, i: nat, k: nat) {
    i + k <= |s| &&
    match k {
      case 1 => s[i] <= 0x7F
      case 2 => 0xC2 <= s[i] <= 0xDF && Tail(s[i + 1])
      case 3 =>
        || (s[i] == 0xE0 && 0xA0 <= s[i + 1] <= 0xBF && Tail(s[i + 2]))
        || (0xE1 <= s[i] <= 0xEC && Tail(s[i + 1]) && Tail(s[i + 2]))
        || (s[i] == 0xED && 0x80 <= s[i + 1] <= 0x9F && Tail(s[i + 2]))
        || (0xEE <= s[i] <= 0xEF && Tail(s[i + 1]) && Tail(s[i + 2]))
      case 4 =>
        || (s[i] == 0xF0 && 0x90 <= s[i + 1] <= 0xBF && Tail(s[i + 2]) && Tail(s[i + 3]))
        || (0xF1 <= s[i] <= 0xF3 && Tail(s[i + 1]) && Tail(s[i + 2]) && Tail(s[i + 3]))
        || (s[i] == 0xF4 && 0x80 <= s[i + 1] <= 0x8F && Tail(s[i + 2]) && Tail(s[i + 3]))
      case _ => false
    }
  }

  /** The bytes between two positions are a sequence of characters. */
  predicate Characters(s: Bytes, from: nat, to: nat)
    requires from <= to <= |s|
    decreases |s| - from
  {
    from == to || exists k: nat :: 1 <= k <= to - from && CharAt(s, from, k) && Characters(s, from + k, to)
  }

  lemma OneLength(s: Bytes, i: nat, k: nat, n: nat)
    requires CharAt(s, i, k) && CharAt(s, i, n)
    ensures k == n
  {
  }

  lemma Consume(s: Bytes, i: nat, k: nat, to: nat)
    requires CharAt(s, i, k) && i + k <= to <= |s|
    ensures Characters(s, i, to) == Characters(s, i + k, to)
  {
    if Characters(s, i, to) {
      var n: nat :| 1 <= n <= to - i && CharAt(s, i, n) && Characters(s, i + n, to);
      OneLength(s, i, k, n);
    } else {
      assert k >= 1;
    }
  }

  /** wn_proxy_credential_valid: 1 to 255 bytes that are UTF-8. */
  method CredentialValid(value: Bytes) returns (valid: bool)
    ensures valid <==> 1 <= |value| <= 255 && Characters(value, 0, |value|)
  {
    var length := |value|;
    if length == 0 || length > 255 {
      return false;
    }
    var i: nat := 0;
    while i < length
      invariant i <= length && Characters(value, 0, length) == Characters(value, i, length)
    {
      var start := i;
      var first := value[i];
      i := i + 1;
      if first < 0x80 {
        Consume(value, start, 1, length);
        continue;
      }
      var need: nat, low: u8, high: u8 := 0, 0x80, 0xBF;
      if 0xC2 <= first <= 0xDF {
        need := 1;
      } else if 0xE0 <= first <= 0xEF {
        need := 2;
        low := if first == 0xE0 then 0xA0 else low;
        high := if first == 0xED then 0x9F else high;
      } else if 0xF0 <= first <= 0xF4 {
        need := 3;
        low := if first == 0xF0 then 0x90 else low;
        high := if first == 0xF4 then 0x8F else high;
      } else {
        return false;
      }
      if length - i < need || value[i] < low || value[i] > high {
        return false;
      }
      i := i + 1;
      var rest := need - 1;
      while rest > 0
        invariant rest < need && i == start + 1 + need - rest <= length - rest
        invariant forall j :: start + 2 <= j < i ==> Tail(value[j])
      {
        if value[i] < 0x80 || value[i] > 0xBF {
          return false;
        }
        i := i + 1;
        rest := rest - 1;
      }
      Consume(value, start, need + 1, length);
    }
    return true;
  }

  // ----- what the characters stand for -----

  /** A character number: up to 10FFFF, and none of the UTF-16 surrogates. */
  type Scalar = c: int | 0 <= c < 0xD800 || 0xE000 <= c <= 0x10FFFF

  /** The encoding of a character number, by the table of section 3. */
  function Encoded(c: Scalar): Bytes {
    if c < 0x80 then [c]
    else if c < 0x800 then [0xC0 + c / 0x40, 0x80 + c % 0x40]
    else if c < 0x1_0000 then [0xE0 + c / 0x1000, 0x80 + c / 0x40 % 0x40, 0x80 + c % 0x40]
    else [0xF0 + c / 0x4_0000, 0x80 + c / 0x1000 % 0x40, 0x80 + c / 0x40 % 0x40, 0x80 + c % 0x40]
  }

  /** The number with these digits to the base 64. */
  function Number(a: int, b: int, c: int, d: int): int {
    ((a * 0x40 + b) * 0x40 + c) * 0x40 + d
  }

  /** The character number that k bytes spell. */
  function Decoded(s: Bytes, i: nat, k: nat): int
    requires i + k <= |s|
  {
    match k
    case 1 => s[i]
    case 2 => Number(0, 0, s[i] as int - 0xC0, s[i + 1] as int - 0x80)
    case 3 => Number(0, s[i] as int - 0xE0, s[i + 1] as int - 0x80, s[i + 2] as int - 0x80)
    case 4 => Number(s[i] as int - 0xF0, s[i + 1] as int - 0x80, s[i + 2] as int - 0x80, s[i + 3] as int - 0x80)
    case _ => -1
  }

  lemma Digits(a: nat, b: nat, c: nat, d: nat)
    requires b < 0x40 && c < 0x40 && d < 0x40
    ensures
      var n := Number(a, b, c, d);
      && n % 0x40 == d && n / 0x40 == Number(0, a, b, c)
      && n / 0x40 % 0x40 == c && n / 0x1000 == Number(0, 0, a, b)
      && n / 0x1000 % 0x40 == b && n / 0x4_0000 == a
  {
  }

  /** The grammar's alternatives are the encodings of the character numbers. */
  lemma CharIsEncoding(s: Bytes, i: nat, k: nat)
    requires CharAt(s, i, k)
    ensures
      var c := Decoded(s, i, k);
      (0 <= c < 0xD800 || 0xE000 <= c <= 0x10FFFF) && s[i..i + k] == Encoded(c)
  {
    match k
    case 1 =>
    case 2 => Digits(0, 0, s[i] - 0xC0, s[i + 1] - 0x80);
    case 3 => CharOfThree(s, i);
    case 4 => CharOfFour(s, i);
    case _ =>
  }

  lemma CharOfThree(s: Bytes, i: nat)
    requires CharAt(s, i, 3)
    ensures
      var c := Decoded(s, i, 3);
      (0x800 <= c < 0xD800 || 0xE000 <= c < 0x1_0000) && s[i..i + 3] == Encoded(c)
  {
    hide Number;
    var a, b, c := s[i] - 0xE0, s[i + 1] - 0x80, s[i + 2] - 0x80;
    ThreeRange(a, b, c);
    Digits(0, a, b, c);
  }

  lemma ThreeRange(a: int, b: int, c: int)
    requires 0 <= a < 0x10 && 0 <= b < 0x40 && 0 <= c < 0x40
    requires (a == 0 ==> b >= 0x20) && (a == 0xD ==> b < 0x20)
    ensures 0x800 <= Number(0, a, b, c) < 0xD800 || 0xE000 <= Number(0, a, b, c) < 0x1_0000
    ensures Number(0, 0, 0, a) == a
  {
  }

  lemma CharOfFour(s: Bytes, i: nat)
    requires CharAt(s, i, 4)
    ensures
      var c := Decoded(s, i, 4);
      0x1_0000 <= c <= 0x10FFFF && s[i..i + 4] == Encoded(c)
  {
    hide Number;
    var a, b, c, d := s[i] - 0xF0, s[i + 1] - 0x80, s[i + 2] - 0x80, s[i + 3] - 0x80;
    FourRange(a, b, c, d);
    Digits(a, b, c, d);
  }

  lemma FourRange(a: int, b: int, c: int, d: int)
    requires 0 <= a < 5 && 0 <= b < 0x40 && 0 <= c < 0x40 && 0 <= d < 0x40
    requires (a == 0 ==> b >= 0x10) && (a == 4 ==> b < 0x10)
    ensures 0x1_0000 <= Number(a, b, c, d) <= 0x10FFFF
  {
  }

  lemma EncodingIsChar(s: Bytes, i: nat, c: Scalar)
    requires i + |Encoded(c)| <= |s| && s[i..i + |Encoded(c)|] == Encoded(c)
    ensures CharAt(s, i, |Encoded(c)|)
  {
    var k := |Encoded(c)|;
    assert forall j :: 0 <= j < k ==> s[i + j] == s[i..i + k][j] == Encoded(c)[j];
  }

  function Text(cs: seq<Scalar>): Bytes {
    if cs == [] then [] else Encoded(cs[0]) + Text(cs[1..])
  }

  ghost predicate Spells(s: Bytes) {
    exists cs :: s == Text(cs)
  }

  lemma IsText(s: Bytes, cs: seq<Scalar>)
    requires s == Text(cs)
    ensures Spells(s)
  {
  }

  lemma {:induction false} TextIsCharacters(s: Bytes, from: nat, cs: seq<Scalar>)
    requires from <= |s| && s[from..] == Text(cs)
    ensures Characters(s, from, |s|)
    decreases |cs|
  {
    hide CharAt, Encoded;
    if cs != [] {
      var x := Encoded(cs[0]);
      SplitFirst(s, from, x, Text(cs[1..]));
      EncodingIsChar(s, from, cs[0]);
      TextIsCharacters(s, from + |x|, cs[1..]);
      EncodedIsSome(cs[0]);
    }
  }

  lemma SplitFirst(s: Bytes, from: nat, x: Bytes, y: Bytes)
    requires from <= |s| && s[from..] == x + y
    ensures from + |x| <= |s| && s[from..from + |x|] == x && s[from + |x|..] == y
  {
    assert |s| - from == |x| + |y|;
    assert s[from..][..|x|] == x && s[from..][|x|..] == y;
  }

  lemma EncodedIsSome(c: Scalar)
    ensures 1 <= |Encoded(c)| <= 4
  {
  }

  lemma {:induction false} CharactersSpell(s: Bytes, from: nat) returns (cs: seq<Scalar>)
    requires from <= |s| && Characters(s, from, |s|)
    ensures s[from..] == Text(cs)
    decreases |s| - from
  {
    hide CharAt, Encoded, Decoded;
    if from == |s| {
      cs := [];
    } else {
      var k: nat :| 1 <= k <= |s| - from && CharAt(s, from, k) && Characters(s, from + k, |s|);
      CharIsEncoding(s, from, k);
      var rest := CharactersSpell(s, from + k);
      cs := [Decoded(s, from, k)] + rest;
      assert cs[1..] == rest;
      assert s[from..] == s[from..from + k] + s[from + k..];
    }
  }

  /** The recogniser's language: the encodings of sequences of character numbers. */
  lemma CharactersIffText(s: Bytes)
    ensures Characters(s, 0, |s|) <==> Spells(s)
  {
    assert s[0..] == s;
    if Characters(s, 0, |s|) {
      var cs := CharactersSpell(s, 0);
    } else if Spells(s) {
      var cs :| s == Text(cs);
      TextIsCharacters(s, 0, cs);
    }
  }

  // ----- where characters start -----

  lemma StartIsNoTail(s: Bytes, i: nat, to: nat)
    requires i < to <= |s| && Characters(s, i, to)
    ensures !Tail(s[i])
  {
  }

  /** Cutting a text before a byte that is no tail cuts between characters. */
  lemma {:induction false} CutHere(s: Bytes, i: nat, cut: nat)
    requires i <= cut <= |s| && Characters(s, i, |s|) && (cut == |s| || !Tail(s[cut]))
    ensures Characters(s, i, cut) && Characters(s, cut, |s|)
    decreases |s| - i
  {
    if i < cut {
      var k: nat :| 1 <= k <= |s| - i && CharAt(s, i, k) && Characters(s, i + k, |s|);
      assert forall j :: i < j < i + k ==> Tail(s[j]);
      CutHere(s, i + k, cut);
    }
  }

  /** A character that begins somewhere in a text is followed by another, or by the end. */
  lemma AfterChar(s: Bytes, i: nat, k: nat)
    requires CharAt(s, i, k) && Characters(s, i, |s|)
    ensures i + k == |s| || !Tail(s[i + k])
  {
    Consume(s, i, k, |s|);
    if i + k < |s| {
      StartIsNoTail(s, i + k, |s|);
    }
  }

  /** No character is longer than four bytes. */
  lemma {:induction false} NoFourTails(s: Bytes, i: nat, j: nat)
    requires i <= j && j + 3 < |s| && Characters(s, i, |s|)
    ensures !(Tail(s[j]) && Tail(s[j + 1]) && Tail(s[j + 2]) && Tail(s[j + 3]))
    decreases |s| - i
  {
    var k: nat :| 1 <= k <= |s| - i && CharAt(s, i, k) && Characters(s, i + k, |s|);
    StartIsNoTail(s, i, |s|);
    AfterChar(s, i, k);
    if i + k <= j {
      NoFourTails(s, i + k, j);
    }
  }
}
