/** Positional numerals: the integer a digit string denotes, and the digits of an integer.
    The bit regrouping of bech32 is specified with these instead of with its accumulator. */
module Radix {

  function Pow2(n: nat): (r: nat)
    ensures r > 0
  {
    if n == 0 then 1 else 2 * Pow2(n - 1)
  }

  predicate AllBelow(s: seq<int>, base: nat) {
    forall i :: 0 <= i < |s| ==> 0 <= s[i] < base
  }

  /** The big-endian value of a string of w-bit digits. */
  function Value(w: nat, s: seq<int>): int {
    if s == [] then 0 else Value(w, s[..|s| - 1]) * Pow2(w) + s[|s| - 1]
  }

  /** The n low w-bit digits of v, most significant first. */
  function Digits(w: nat, n: nat, v: int): (r: seq<int>)
    ensures |r| == n
  {
    if n == 0 then [] else Digits(w, n - 1, v / Pow2(w)) + [v % Pow2(w)]
  }

  lemma {:induction false} Pow2Add(a: nat, b: nat)
    ensures Pow2(a + b) == Pow2(a) * Pow2(b)
  {
    if a > 0 {
      Pow2Add(a - 1, b);
      assert 2 * (Pow2(a - 1) * Pow2(b)) == (2 * Pow2(a - 1)) * Pow2(b);
    }
  }

  lemma MulLe(a: int, b: int, c: int)
    requires a <= b && 0 <= c
    ensures a * c <= b * c
  {
    assert (b - a) * c >= 0;
  }

  lemma MulAddLeft(a: int, b: int, c: int)
    ensures (a + b) * c == a * c + b * c
  {
  }

  lemma MulAssoc(a: int, b: int, c: int)
    ensures (a * b) * c == a * (b * c)
  {
  }

  lemma DivModUnique(v: int, d: int, q: int, r: int)
    requires d > 0 && 0 <= r < d && v == q * d + r
    ensures v / d == q && v % d == r
  {
    var q', r' := v / d, v % d;
    assert v == d * q' + r' && 0 <= r' < d;
    if q' < q {
      MulLe(q' + 1, q, d);
      MulAddLeft(q', 1, d);
    } else if q < q' {
      MulLe(q + 1, q', d);
      MulAddLeft(q, 1, d);
    }
  }

  lemma {:induction false} DigitsAreDigits(w: nat, n: nat, v: int)
    ensures AllBelow(Digits(w, n, v), Pow2(w))
  {
    if n > 0 {
      DigitsAreDigits(w, n - 1, v / Pow2(w));
    }
  }

  lemma {:induction false} ValueBound(w: nat, s: seq<int>)
    requires AllBelow(s, Pow2(w))
    ensures 0 <= Value(w, s) < Pow2(w * |s|)
  {
    if s == [] {
      assert w * |s| == 0;
    } else {
      var init, p := s[..|s| - 1], Pow2(w);
      ValueBound(w, init);
      assert w * |s| == w * |init| + w;
      Pow2Add(w * |init|, w);
      MulLe(Value(w, init) + 1, Pow2(w * |init|), p);
      MulAddLeft(Value(w, init), 1, p);
      MulLe(0, Value(w, init), p);
    }
  }

  /** A digit string is determined by its length and its value. */
  lemma {:induction false} DigitsOfValue(w: nat, s: seq<int>)
    requires AllBelow(s, Pow2(w))
    ensures Value(w, s) >= 0 && Digits(w, |s|, Value(w, s)) == s
  {
    ValueBound(w, s);
    if s != [] {
      var init := s[..|s| - 1];
      ValueBound(w, init);
      DivModUnique(Value(w, s), Pow2(w), Value(w, init), s[|s| - 1]);
      DigitsOfValue(w, init);
    }
  }

  lemma ValueSnoc(w: nat, s: seq<int>, d: int)
    ensures Value(w, s + [d]) == Value(w, s) * Pow2(w) + d
  {
    assert (s + [d])[..|s|] == s;
  }

  lemma Recompose(v: int, d: int)
    requires d > 0
    ensures v == (v / d) * d + v % d
  {
  }

  lemma PowStep(w: nat, m: nat, n: nat)
    requires n == m + 1
    ensures Pow2(w * n) == Pow2(w * m) * Pow2(w)
  {
    assert w * n == w * m + w;
    Pow2Add(w * m, w);
  }

  lemma {:induction false} ValueOfDigits(w: nat, n: nat, v: nat)
    requires v < Pow2(w * n)
    ensures Value(w, Digits(w, n, v)) == v
  {
    if n == 0 {
      assert w * n == 0;
    } else {
      var m: nat := n - 1;
      PowStep(w, m, n);
      DivBelow(v, Pow2(w), Pow2(w * m));
      ValueOfDigits(w, n - 1, v / Pow2(w));
      ValueSnoc(w, Digits(w, n - 1, v / Pow2(w)), v % Pow2(w));
      Recompose(v, Pow2(w));
    }
  }

  lemma DivBelow(v: nat, d: nat, k: nat)
    requires d > 0 && v < k * d
    ensures 0 <= v / d < k
  {
    assert v == d * (v / d) + v % d;
    if k <= v / d {
      MulLe(k, v / d, d);
    }
  }

  lemma DivDiv(v: nat, a: nat, b: nat)
    requires a > 0 && b > 0
    ensures a * b > 0 && (v / a) / b == v / (a * b)
  {
    var q := v / a;
    Recompose(v, a);
    Recompose(q, b);
    MulAddLeft((q / b) * b, q % b, a);
    MulAssoc(q / b, b, a);
    MulLe(q % b + 1, b, a);
    MulAddLeft(q % b, 1, a);
    MulLe(0, q % b, a);
    MulLe(1, a, b);
    DivModUnique(v, a * b, q / b, (q % b) * a + v % a);
  }

  /** a mod 2^(x+y), taken apart into its y high bits and its x low bits. */
  lemma ModSplit(a: nat, x: nat, y: nat)
    ensures a % Pow2(x + y) == ((a / Pow2(x)) % Pow2(y)) * Pow2(x) + a % Pow2(x)
  {
    Pow2Add(x, y);
    var p, q := Pow2(x), Pow2(y);
    ModSplitAt(a, p, q, a / p, a / p / q);
  }

  lemma ModSplitAt(a: nat, p: nat, q: nat, h: int, hq: int)
    requires p > 0 && q > 0 && h == a / p && hq == h / q
    ensures p * q > 0 && a % (p * q) == (h % q) * p + a % p
  {
    var hr := h % q;
    assert a == p * h + a % p;
    assert h == q * hq + hr;
    calc {
      h * p;
      { MulAddLeft(q * hq, hr, p); }
      (q * hq) * p + hr * p;
      { MulAssoc(hq, q, p); }
      hq * (q * p) + hr * p;
    }
    MulLe(hr + 1, q, p);
    MulAddLeft(hr, 1, p);
    MulLe(0, hr, p);
    MulLe(1, p, q);
    DivModUnique(a, p * q, hq, hr * p + a % p);
  }

  /** Reducing modulo a larger power of two first changes nothing. */
  lemma ModMod(a: nat, x: nat, y: nat)
    ensures (a % Pow2(x + y)) % Pow2(x) == a % Pow2(x)
  {
    ModSplit(a, x, y);
    var h := (a / Pow2(x)) % Pow2(y);
    DivModUnique(a % Pow2(x + y), Pow2(x), h, a % Pow2(x));
  }
}
