/** Regrouping, bit by bit: the output digits carry the bits of the input digits, highest first and in
    order (app/bech32.odin:38-67). */
module BitStream {
  import opened Options
  import opened Radix
  import opened XorWords
  import opened BitRegroup

  /** Bit k of a string of w-bit digits, counted from the front. */
  predicate StreamBit(w: nat, s: seq<nat>, k: nat)
    requires w > 0 && k < w * |s|
  {
    Inside(w, |s|, k);
    Bit(s[k / w], w - 1 - k % w)
  }

  lemma Inside(w: nat, n: nat, k: nat)
    requires w > 0 && k < w * n
    ensures k / w < n && k % w < w
  {
    DivBelow(k, w, n);
  }

  lemma {:induction false} BitOfJoin(v: nat, d: nat, w: nat, i: nat)
    requires d < Pow2(w)
    ensures v * Pow2(w) + d >= 0 && Bit(v * Pow2(w) + d, i) == if i < w then Bit(d, i) else Bit(v, i - w)
  {
    hide Bit;
    MulLe(0, v, Pow2(w));
    var n := v * Pow2(w) + d;
    DivModUnique(n, Pow2(w), v, d);
    if i < w {
      LowBitsOf(n, w, i);
    } else {
      BitOfQuotient(n, w, i - w);
    }
  }

  /** The number that digits denote has their bits. */
  lemma {:induction false} ValueBits(w: nat, s: seq<nat>, k: nat)
    requires w > 0 && AllBelow(s, Pow2(w)) && k < w * |s|
    ensures Value(w, s) >= 0 && Bit(Value(w, s), w * |s| - 1 - k) == StreamBit(w, s, k)
    decreases |s|
  {
    hide Bit, StreamBit, Value, AllBelow;
    var n: nat := |s| - 1;
    LastDigit(w, s, k);
    if k < w * n {
      ValueBits(w, s[..n], k);
    }
  }

  /** The last digit has the last w bits, and the digits before it the others. */
  lemma {:induction false} LastDigit(w: nat, s: seq<nat>, k: nat)
    requires w > 0 && AllBelow(s, Pow2(w)) && k < w * |s|
    ensures
      var n := |s| - 1;
      && n >= 0 && AllBelow(s[..n], Pow2(w)) && Value(w, s) >= 0 && Value(w, s[..n]) >= 0
      && if k < w * n
         then Bit(Value(w, s), w * |s| - 1 - k) == Bit(Value(w, s[..n]), w * n - 1 - k)
              && StreamBit(w, s, k) == StreamBit(w, s[..n], k)
         else Bit(Value(w, s), w * |s| - 1 - k) == StreamBit(w, s, k)
  {
    hide Bit, Pow2;
    ValueBound(w, s);
    var n: nat := |s| - 1;
    var init, d := s[..n], s[n];
    ValueBound(w, init);
    assert w * |s| == w * n + w;
    BitOfJoin(Value(w, init), d, w, w * |s| - 1 - k);
    if k < w * n {
      Inside(w, n, k);
    } else {
      DivModUnique(k, w, n, k - w * n);
    }
  }

  /** What regrouping gives: every input bit in its place and zero bits behind; without padding the
      bits that do not fill a digit are fewer than an input digit has, and all zero. */
  predicate SameStream(data: seq<nat>, from: nat, out: seq<nat>, to: nat)
    requires from > 0 && to > 0
  {
    && (forall k :: 0 <= k < to * |out| && k < from * |data| ==> StreamBit(to, out, k) == StreamBit(from, data, k))
    && (forall k :: from * |data| <= k < to * |out| ==> !StreamBit(to, out, k))
    && (forall k :: to * |out| <= k < from * |data| ==> !StreamBit(from, data, k))
  }

  lemma NoBitsBelow(v: nat, n: nat)
    ensures v % Pow2(n) >= 0 && (v % Pow2(n) == 0 <==> forall i :: 0 <= i < n ==> !Bit(v, i))
  {
    hide Bit;
    var r: nat := v % Pow2(n);
    forall i | 0 <= i < n
      ensures Bit(r, i) == Bit(v, i)
    {
      LowBitsOf(v, n, i);
    }
    forall i | 0 <= i < n
      ensures !Bit(0, i)
    {
      ZeroHasNoBits(i);
    }
    if forall i :: 0 <= i < n ==> !Bit(v, i) {
      SameBits(r, 0, n);
    }
  }

  lemma PaddedBit(data: seq<nat>, from: nat, out: seq<nat>, to: nat, p: nat, n: nat, m: nat, k: nat)
    requires from > 0 && to > 0 && AllBelow(data, Pow2(from)) && AllBelow(out, Pow2(to))
    requires n == from * |data| && m == to * |out| && m == n + p && k < m
    requires Value(to, out) == Value(from, data) * Pow2(p)
    ensures StreamBit(to, out, k) == (k < n && StreamBit(from, data, k))
  {
    hide Bit, StreamBit, Value, Pow2, AllBelow;
    ValueBound(from, data);
    ValueBits(to, out, k);
    BitOfJoin(Value(from, data), 0, p, m - 1 - k);
    if k < n {
      ValueBits(from, data, k);
    } else {
      ZeroHasNoBits(m - 1 - k);
    }
  }

  /** The padded output as a number: the input's, with p zero bits behind. */
  lemma PaddedBits(data: seq<nat>, from: nat, out: seq<nat>, to: nat, p: nat, n: nat, m: nat)
    requires from > 0 && to > 0 && AllBelow(data, Pow2(from)) && AllBelow(out, Pow2(to))
    requires n == from * |data| && m == to * |out| && m == n + p
    requires Value(to, out) == Value(from, data) * Pow2(p)
    ensures SameStream(data, from, out, to)
  {
    hide Bit, StreamBit, Value, Pow2, AllBelow;
    forall k | 0 <= k < m
      ensures StreamBit(to, out, k) == (k < n && StreamBit(from, data, k))
    {
      PaddedBit(data, from, out, to, p, n, m, k);
    }
  }

  lemma CutBit(data: seq<nat>, from: nat, out: seq<nat>, to: nat, left: nat, n: nat, m: nat, k: nat)
    requires from > 0 && to > 0 && AllBelow(data, Pow2(from)) && AllBelow(out, Pow2(to))
    requires n == from * |data| && m == to * |out| && n == m + left && k < n && Value(from, data) >= 0
    requires Value(to, out) == Value(from, data) / Pow2(left) && Value(from, data) % Pow2(left) == 0
    ensures StreamBit(from, data, k) == (k < m && StreamBit(to, out, k))
  {
    hide Bit, StreamBit, Value, Pow2, AllBelow;
    NoBitsBelow(Value(from, data), left);
    ValueBits(from, data, k);
    if k < m {
      ValueBits(to, out, k);
      BitOfQuotient(Value(from, data), left, m - 1 - k);
    } else {
      assert !Bit(Value(from, data), n - 1 - k);
    }
  }

  /** The output without padding: the input's number without its low bits, which are zero. */
  lemma CutBits(data: seq<nat>, from: nat, out: seq<nat>, to: nat, left: nat, n: nat, m: nat)
    requires from > 0 && to > 0 && AllBelow(data, Pow2(from)) && AllBelow(out, Pow2(to))
    requires n == from * |data| && m == to * |out| && n == m + left && Value(from, data) >= 0
    requires Value(to, out) == Value(from, data) / Pow2(left) && Value(from, data) % Pow2(left) == 0
    ensures SameStream(data, from, out, to)
  {
    hide Bit, StreamBit, Value, Pow2, AllBelow;
    forall k | 0 <= k < n
      ensures StreamBit(from, data, k) == (k < m && StreamBit(to, out, k))
    {
      CutBit(data, from, out, to, left, n, m, k);
    }
  }

  lemma Lengths(n: nat, to: nat) returns (q: nat, left: nat)
    requires to > 0
    ensures q == n / to && left == n % to && left < to && n == to * q + left && to * (q + 1) == to * q + to
  {
    q, left := n / to, n % to;
    Recompose(n, to);
  }

  lemma QuotientFits(v: nat, a: nat, left: nat)
    requires v < Pow2(a + left)
    ensures v / Pow2(left) < Pow2(a)
  {
    Pow2Add(a, left);
    DivBelow(v, Pow2(left), Pow2(a));
  }

  lemma Cut(data: seq<nat>, from: nat, to: nat, n: nat, q: nat, left: nat)
    requires from > 0 && to > 0 && AllBelow(data, Pow2(from)) && n == from * |data| && n == to * q + left
    requires Value(from, data) >= 0 && Value(from, data) % Pow2(left) == 0
    ensures
      var out := Digits(to, q, Value(from, data) / Pow2(left));
      AllBelow(out, Pow2(to)) && SameStream(data, from, out, to)
  {
    hide SameStream, Value, Digits, Pow2, AllBelow;
    ValueBound(from, data);
    QuotientFits(Value(from, data), to * q, left);
    var w := DivNat(Value(from, data), Pow2(left));
    DigitsAreDigits(to, q, w);
    ValueOfDigits(to, q, w);
    CutBits(data, from, Digits(to, q, w), to, left, n, to * q);
  }

  lemma Padded(data: seq<nat>, from: nat, to: nat, n: nat, q: nat, p: nat, v: nat)
    requires from > 0 && to > 0 && AllBelow(data, Pow2(from)) && n == from * |data| && to * q == n + p
    requires Value(from, data) >= 0 && v == Value(from, data) * Pow2(p)
    ensures
      var out := Digits(to, q, v);
      AllBelow(out, Pow2(to)) && SameStream(data, from, out, to)
  {
    hide SameStream, Value, Digits, Pow2, AllBelow;
    ValueBound(from, data);
    ScaledBound(Value(from, data), n, p, to * q);
    DigitsAreDigits(to, q, v);
    ValueOfDigits(to, q, v);
    PaddedBits(data, from, Digits(to, q, v), to, p, n, to * q);
  }

  /** Regrouping gives the same bit stream in digits of the other width: as many digits as it takes
      with padding; without, as many as the bits fill. */
  lemma RegroupKeepsBits(data: seq<nat>, from: nat, to: nat, pad: bool)
    requires from > 0 && to > 0 && AllBelow(data, Pow2(from)) && Regroup(data, from, to, pad).Some?
    ensures
      var out := Regroup(data, from, to, pad).value;
      && AllBelow(out, Pow2(to)) && SameStream(data, from, out, to)
      && if pad then from * |data| <= to * |out| < from * |data| + to
         else to * |out| <= from * |data| < to * |out| + from
  {
    hide SameStream, Value, Digits, Pow2, AllBelow;
    var n := |data| * from;
    var q, left := Lengths(n, to);
    ValueBound(from, data);
    if !pad {
      Cut(data, from, to, n, q, left);
    } else if left == 0 {
      NoPadding(Value(from, data));
      Padded(data, from, to, n, q, 0, Value(from, data));
    } else {
      MulLe(0, Value(from, data), Pow2(to - left));
      Padded(data, from, to, n, q + 1, to - left, Value(from, data) * Pow2(to - left));
    }
  }

  lemma NoPadding(v: int)
    ensures v * Pow2(0) == v
  {
  }

  /** Without padding it refuses exactly when a whole digit or a set bit would be left over. */
  lemma RegroupRefuses(data: seq<nat>, from: nat, to: nat)
    requires from > 0 && to > 0 && AllBelow(data, Pow2(from))
    ensures
      var n := from * |data|;
      Regroup(data, from, to, false) == None <==>
      (n % to >= from || exists k :: n - n % to <= k < n && StreamBit(from, data, k))
  {
    hide Bit, StreamBit, Value, Digits, Pow2, AllBelow;
    var n := |data| * from;
    var q, left := Lengths(n, to);
    ValueBound(from, data);
    LeftOver(data, from, n, left);
  }

  lemma LeftOver(data: seq<nat>, from: nat, n: nat, left: nat)
    requires from > 0 && AllBelow(data, Pow2(from)) && n == from * |data| && left <= n && Value(from, data) >= 0
    ensures Value(from, data) % Pow2(left) != 0 <==> exists k :: n - left <= k < n && StreamBit(from, data, k)
  {
    hide Bit, StreamBit, Value, Pow2, AllBelow;
    var v: nat := Value(from, data);
    NoBitsBelow(v, left);
    forall k | n - left <= k < n
      ensures StreamBit(from, data, k) == Bit(v, n - 1 - k)
    {
      ValueBits(from, data, k);
    }
    if v % Pow2(left) != 0 {
      var i :| 0 <= i < left && Bit(v, i);
      assert StreamBit(from, data, n - 1 - i);
    }
  }
}
