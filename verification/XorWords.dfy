/** Exclusive or of unsigned words, on their values. */
module XorWords {
  import opened Radix

  function Xor(a: nat, b: nat): nat {
    if a == 0 && b == 0 then 0 else 2 * Xor(a / 2, b / 2) + (a + b) % 2
  }

  lemma {:induction false} XorZero(a: nat)
    ensures Xor(a, 0) == a && Xor(0, a) == a
  {
    if a != 0 {
      XorZero(a / 2);
    }
  }

  lemma {:induction false} XorSelf(a: nat)
    ensures Xor(a, a) == 0
  {
    if a != 0 {
      XorSelf(a / 2);
    }
  }

  lemma {:induction false} XorComm(a: nat, b: nat)
    ensures Xor(a, b) == Xor(b, a)
  {
    if a != 0 || b != 0 {
      XorComm(a / 2, b / 2);
    }
  }

  lemma Parity(a: nat, b: nat, c: nat)
    ensures ((a + b) % 2 + c) % 2 == (a + (b + c) % 2) % 2
  {
  }

  /** Both groupings have the same low bit. */
  lemma AssocLowBit(a: nat, b: nat, c: nat, ab: nat, bc: nat)
    requires ab % 2 == (a + b) % 2 && bc % 2 == (b + c) % 2
    ensures (ab + c) % 2 == (a + bc) % 2
  {
    Parity(a, b, c);
    SumParity(ab, a + b, c);
    SumParity(bc, b + c, a);
  }

  lemma {:induction false} XorAssoc(a: nat, b: nat, c: nat)
    ensures Xor(Xor(a, b), c) == Xor(a, Xor(b, c))
  {
    if a != 0 || b != 0 || c != 0 {
      XorAssoc(a / 2, b / 2, c / 2);
      XorHalves(a, b);
      XorHalves(b, c);
      var ab, bc := Xor(a, b), Xor(b, c);
      AssocLowBit(a, b, c, ab, bc);
      XorHalves(ab, c);
      XorHalves(a, bc);
      HalvesEqual(Xor(ab, c), Xor(a, bc));
    }
  }

  lemma SumParity(x: nat, y: nat, z: nat)
    requires x % 2 == y % 2
    ensures (x + z) % 2 == (y % 2 + z) % 2
  {
  }

  lemma HalvesEqual(x: nat, y: nat)
    requires x / 2 == y / 2 && x % 2 == y % 2
    ensures x == y
  {
  }

  lemma XorHalves(a: nat, b: nat)
    ensures Xor(a, b) / 2 == Xor(a / 2, b / 2) && Xor(a, b) % 2 == (a + b) % 2
  {
  }

  lemma {:induction false} XorEqual(a: nat, b: nat)
    requires Xor(a, b) == 0
    ensures a == b
  {
    if a != 0 || b != 0 {
      XorEqual(a / 2, b / 2);
    }
  }

  lemma XorCancel(a: nat, b: nat)
    ensures Xor(a, Xor(a, b)) == b && Xor(Xor(a, b), b) == a
  {
    XorAssoc(a, a, b);
    XorSelf(a);
    XorZero(b);
    XorAssoc(a, b, b);
    XorSelf(b);
    XorZero(a);
  }

  lemma XorInterchange(a: nat, b: nat, c: nat, d: nat)
    ensures Xor(Xor(a, b), Xor(c, d)) == Xor(Xor(a, c), Xor(b, d))
  {
    XorAssoc(a, b, Xor(c, d));
    XorAssoc(b, c, d);
    XorComm(b, c);
    XorAssoc(c, b, d);
    XorAssoc(a, c, Xor(b, d));
  }

  lemma {:induction false} XorBelow(a: nat, b: nat, n: nat)
    requires a < Pow2(n) && b < Pow2(n)
    ensures Xor(a, b) < Pow2(n)
  {
    if n > 0 {
      XorBelow(a / 2, b / 2, n - 1);
      XorHalves(a, b);
    } else {
      XorZero(0);
    }
  }

  lemma Half(u: nat, r: nat, x: nat)
    requires x == 2 * u + r
    ensures x / 2 == u + r / 2 && x % 2 == r % 2
  {
  }

  lemma XorSplitStep(u: nat, r: nat, v: nat, s: nat, x: nat, y: nat, w: int)
    requires x == 2 * u + r && y == 2 * v + s
    requires Xor(u + r / 2, v + s / 2) == w + Xor(r / 2, s / 2)
    ensures Xor(x, y) == 2 * w + Xor(r, s)
  {
    Half(u, r, x);
    Half(v, s, y);
    XorHalves(x, y);
    XorHalves(r, s);
    Half(u + v, r + s, x + y);
  }

  lemma DoubleTimes(a: nat, k: nat) returns (u: nat)
    requires k > 0
    ensures u == a * Pow2(k - 1) && a * Pow2(k) == 2 * u
  {
    u := a * Pow2(k - 1);
    MulAssoc(a, 2, Pow2(k - 1));
  }

  /** Exclusive or acts on high and low bits separately. */
  lemma {:induction false} XorSplit(k: nat, a: nat, r: nat, b: nat, s: nat, x: nat, y: nat)
    requires r < Pow2(k) && s < Pow2(k)
    requires x == a * Pow2(k) + r && y == b * Pow2(k) + s
    ensures Xor(x, y) == Xor(a, b) * Pow2(k) + Xor(r, s)
  {
    if k == 0 {
      XorZero(0);
    } else {
      var u := DoubleTimes(a, k);
      var v := DoubleTimes(b, k);
      var w := DoubleTimes(Xor(a, b), k);
      XorSplit(k - 1, a, r / 2, b, s / 2, u + r / 2, v + s / 2);
      XorSplitStep(u, r, v, s, x, y, w);
    }
  }

  lemma XorQuotient(k: nat, xq: nat, xr: nat, yq: nat, yr: nat, x: nat, y: nat)
    requires xr < Pow2(k) && yr < Pow2(k)
    requires x == xq * Pow2(k) + xr && y == yq * Pow2(k) + yr
    ensures Xor(x, y) / Pow2(k) == Xor(xq, yq) && Xor(x, y) % Pow2(k) == Xor(xr, yr)
  {
    XorSplit(k, xq, xr, yq, yr, x, y);
    XorBelow(xr, yr, k);
    DivModUnique(Xor(x, y), Pow2(k), Xor(xq, yq), Xor(xr, yr));
  }

  lemma DivNat(x: nat, p: nat) returns (q: nat)
    requires p > 0
    ensures q == x / p && x == q * p + x % p
  {
    Recompose(x, p);
    q := x / p;
  }

  lemma XorDivMod(k: nat, x: nat, y: nat)
    ensures x / Pow2(k) >= 0 && y / Pow2(k) >= 0
    ensures Xor(x, y) / Pow2(k) == Xor(x / Pow2(k), y / Pow2(k))
    ensures Xor(x, y) % Pow2(k) == Xor(x % Pow2(k), y % Pow2(k))
  {
    var xq := DivNat(x, Pow2(k));
    var yq := DivNat(y, Pow2(k));
    XorQuotient(k, xq, x % Pow2(k), yq, y % Pow2(k), x, y);
  }

  lemma XorShift(k: nat, x: nat, y: nat)
    ensures x * Pow2(k) >= 0 && y * Pow2(k) >= 0
    ensures Xor(x * Pow2(k), y * Pow2(k)) == Xor(x, y) * Pow2(k)
  {
    MulLe(0, x, Pow2(k));
    MulLe(0, y, Pow2(k));
    XorSplit(k, x, 0, y, 0, x * Pow2(k), y * Pow2(k));
    XorZero(0);
  }

  // ----- bits -----

  predicate Bit(b: nat, i: nat) {
    (b / Pow2(i)) % 2 == 1
  }

  /** Exclusive or acts on each bit by itself. */
  lemma BitLinear(a: nat, b: nat, i: nat)
    ensures Bit(Xor(a, b), i) == (Bit(a, i) != Bit(b, i))
  {
    XorDivMod(i, a, b);
    var x: nat, y: nat := a / Pow2(i), b / Pow2(i);
    XorHalves(x, y);
    OddSum(x, y);
  }

  lemma OddSum(x: nat, y: nat)
    ensures ((x + y) % 2 == 1) == ((x % 2 == 1) != (y % 2 == 1))
  {
  }

  lemma BitAbove(b: nat, i: nat)
    ensures Bit(b, i + 1) == Bit(b / 2, i)
  {
    DivDiv(b, 2, Pow2(i));
  }

  lemma ZeroHasNoBits(j: nat)
    ensures !Bit(0, j)
  {
    DivModUnique(0, Pow2(j), 0, 0);
  }

  lemma LowestBit(b: nat)
    ensures Bit(b, 0) == (b % 2 == 1)
  {
  }

  /** A number below 2^n is determined by its n low bits. */
  lemma {:induction false} SameBits(a: nat, b: nat, n: nat)
    requires a < Pow2(n) && b < Pow2(n)
    requires forall i :: 0 <= i < n ==> Bit(a, i) == Bit(b, i)
    ensures a == b
    decreases n
  {
    if n > 0 {
      LowestBit(a);
      LowestBit(b);
      assert Bit(a, 0) == Bit(b, 0);
      forall i | 0 <= i < n - 1
        ensures Bit(a / 2, i) == Bit(b / 2, i)
      {
        BitAbove(a, i);
        BitAbove(b, i);
        assert Bit(a, i + 1) == Bit(b, i + 1);
      }
      SameBits(a / 2, b / 2, n - 1);
    }
  }

  lemma BitOfQuotient(n: nat, i: nat, j: nat)
    ensures n / Pow2(i) >= 0 && Bit(n / Pow2(i), j) == Bit(n, i + j)
  {
    DivDiv(n, Pow2(i), Pow2(j));
    Pow2Add(i, j);
    var q := DivNat(n, Pow2(i));
  }

  lemma {:induction false} LowBitsOf(n: nat, w: nat, j: nat)
    requires j < w
    ensures n % Pow2(w) >= 0 && Bit(n % Pow2(w), j) == Bit(n, j)
    decreases j
  {
    hide Bit;
    var m: nat := n % Pow2(w);
    ModHalf(n, Pow2(w - 1));
    LowestBit(n);
    LowestBit(m);
    if j > 0 {
      LowBitsOf(n / 2, w - 1, j - 1);
      BitAbove(n, j - 1);
      BitAbove(m, j - 1);
    }
  }

  lemma ModHalf(n: nat, p: nat)
    requires p > 0
    ensures n % (2 * p) / 2 == n / 2 % p && n % (2 * p) % 2 == n % 2
  {
    var q := DivNat(n, 2 * p);
    var r: nat := n % (2 * p);
    assert q * (2 * p) == 2 * (q * p) by { MulAssoc(q, 2, p); MulAssoc(2, q, p); }
    DivModUnique(n / 2, p, q, r / 2);
  }
}
