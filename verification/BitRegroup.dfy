/** 8-to-5 and 5-to-8 bit regrouping with a 32-bit accumulator (app/bech32.odin, convert_bits). */
module BitRegroup {
  import opened Options
  import opened Radix
  import opened Wire

  const U32: int := 0x1_0000_0000

  /** A left shift of a 32-bit word: bits pushed past the top are lost. */
  function Shl32(x: nat, n: nat): (r: nat)
    ensures r < U32
  {
    (x * Pow2(n)) % U32
  }

  /** What regrouping means, on unbounded integers: the input read as one big number, scaled to a
      whole number of output digits, written out again. Without padding the leftover bits must be
      fewer than one input digit and all zero. */
  function Regroup(data: seq<int>, from: nat, to: nat, pad: bool): Option<seq<int>>
    requires from > 0 && to > 0 && AllBelow(data, Pow2(from))
  {
    var total := |data| * from;
    var left := total % to;
    if pad then
      if left == 0 then Some(Digits(to, total / to, Value(from, data)))
      else Some(Digits(to, total / to + 1, Value(from, data) * Pow2(to - left)))
    else if left >= from || Value(from, data) % Pow2(left) != 0 then None
    else Some(Digits(to, total / to, Value(from, data) / Pow2(left)))
  }

  // ----- one accumulator step -----

  lemma Pow2Of32()
    ensures Pow2(32) == U32
  {
    Pow2Add(16, 16);
    Pow2Add(8, 8);
    assert Pow2(8) == 256;
  }

  lemma Pow2Small(n: nat)
    requires n <= 8
    ensures Pow2(n) <= 256
  {
    Pow2Add(n, 8 - n);
    assert Pow2(8) == 256;
    MulLe(1, Pow2(8 - n), Pow2(n));
  }

  lemma ScaledMod(a: nat, x: nat, f: nat)
    ensures (a * Pow2(f)) % Pow2(x + f) == (a % Pow2(x)) * Pow2(f)
  {
    Pow2Add(x, f);
    var p, q := Pow2(x), Pow2(f);
    Recompose(a, p);
    MulAddLeft((a / p) * p, a % p, q);
    MulAssoc(a / p, p, q);
    MulLe(a % p + 1, p, q);
    MulAddLeft(a % p, 1, q);
    MulLe(0, a % p, q);
    DivModUnique(a * q, p * q, a / p, (a % p) * q);
  }

  /** The vacated low bits take the new digit without a carry, so adding it is the source's `|`. */
  lemma NoCarry(acc: nat, from: nat, b: nat)
    requires from <= 32 && b < Pow2(from)
    ensures Shl32(acc, from) % Pow2(from) == 0
    ensures Shl32(acc, from) + b < U32
  {
    var h: nat := 32 - from;
    Pow2Of32();
    ScaledMod(acc, h, from);
    var k := acc % Pow2(h);
    Pow2Add(h, from);
    MulLe(k + 1, Pow2(h), Pow2(from));
    MulAddLeft(k, 1, Pow2(from));
    DivModUnique(k * Pow2(from), Pow2(from), k, 0);
  }

  /** Pushing a digit keeps the low bits exact although the word wraps. */
  lemma PushDigit(acc: nat, bits: nat, from: nat, b: nat)
    requires bits + from <= 32 && b < Pow2(from)
    ensures (Shl32(acc, from) + b) % Pow2(bits + from) == (acc % Pow2(bits)) * Pow2(from) + b
    ensures Shl32(acc, from) + b < U32
  {
    NoCarry(acc, from, b);
    var w := bits + from;
    var x, m := acc * Pow2(from), Pow2(w);
    Pow2Of32();
    ModMod(x, w, 32 - w);
    ScaledMod(acc, bits, from);
    var y := Shl32(acc, from);
    assert y % m == (acc % Pow2(bits)) * Pow2(from);
    Recompose(y, m);
    Pow2Add(bits, from);
    MulLe(acc % Pow2(bits) + 1, Pow2(bits), Pow2(from));
    MulAddLeft(acc % Pow2(bits), 1, Pow2(from));
    MulLe(0, acc % Pow2(bits), Pow2(from));
    DivModUnique(y + b, m, y / m, y % m + b);
  }

  /** The balance kept by the loops: emitted digits, then the bits still in the accumulator. */
  lemma BalancePush(v: int, acc: nat, bits: nat, from: nat, b: nat, n: int)
    requires bits + from <= 32 && b < Pow2(from)
    requires v * Pow2(bits) + acc % Pow2(bits) == n
    ensures v * Pow2(bits + from) + (Shl32(acc, from) + b) % Pow2(bits + from) == n * Pow2(from) + b
  {
    PushDigit(acc, bits, from, b);
    Pow2Add(bits, from);
    MulAddLeft(v * Pow2(bits), acc % Pow2(bits), Pow2(from));
    MulAssoc(v, Pow2(bits), Pow2(from));
  }

  lemma BalanceEmit(v: int, acc: nat, bits: nat, to: nat, n: int)
    requires v * Pow2(bits + to) + acc % Pow2(bits + to) == n
    ensures var d := (acc / Pow2(bits)) % Pow2(to);
            (v * Pow2(to) + d) * Pow2(bits) + acc % Pow2(bits) == n
  {
    ModSplit(acc, bits, to);
    var d := (acc / Pow2(bits)) % Pow2(to);
    Pow2Add(bits, to);
    MulAddLeft(v * Pow2(to), d, Pow2(bits));
    MulAssoc(v, Pow2(to), Pow2(bits));
  }

  /** The final shift and mask looks at exactly the leftover bits. */
  lemma LeftoverBits(acc: nat, bits: nat, to: nat)
    requires bits < to <= 32
    ensures Shl32(acc, to - bits) % Pow2(to) == (acc % Pow2(bits)) * Pow2(to - bits)
    ensures (Shl32(acc, to - bits) % Pow2(to) == 0) <==> (acc % Pow2(bits) == 0)
  {
    var x := acc * Pow2(to - bits);
    Pow2Of32();
    ModMod(x, to, 32 - to);
    ScaledMod(acc, bits, to - bits);
    if acc % Pow2(bits) != 0 {
      MulLe(1, acc % Pow2(bits), Pow2(to - bits));
    }
  }

  lemma Finish(out: seq<int>, to: nat, bits: nat, low: nat, n: nat)
    requires AllBelow(out, Pow2(to)) && low < Pow2(bits)
    requires Value(to, out) * Pow2(bits) + low == n
    ensures n / Pow2(bits) == Value(to, out) && n % Pow2(bits) == low
    ensures Digits(to, |out|, n / Pow2(bits)) == out
  {
    DivModUnique(n, Pow2(bits), Value(to, out), low);
    DigitsOfValue(to, out);
  }

  lemma ScaleSum(v: int, p: int, low: int, q: int)
    ensures (v * p + low) * q == v * (p * q) + low * q
  {
    MulAddLeft(v * p, low, q);
    MulAssoc(v, p, q);
  }

  lemma PadDigit(bits: nat, to: nat, low: nat)
    requires bits <= to && low < Pow2(bits)
    ensures 0 <= low * Pow2(to - bits) < Pow2(to)
  {
    var q := Pow2(to - bits);
    Pow2Add(bits, to - bits);
    MulLe(low + 1, Pow2(bits), q);
    MulAddLeft(low, 1, q);
    MulLe(0, low, q);
  }

  lemma DigitsSnoc(out: seq<int>, to: nat, d: int, full: seq<int>)
    requires AllBelow(out, Pow2(to)) && 0 <= d < Pow2(to) && full == out + [d]
    ensures Value(to, full) == Value(to, out) * Pow2(to) + d
    ensures Digits(to, |full|, Value(to, full)) == full
  {
    ValueSnoc(to, out, d);
    DigitsOfValue(to, full);
  }

  lemma FinishPadded(out: seq<int>, to: nat, bits: nat, low: nat, n: nat)
    requires bits <= to && AllBelow(out, Pow2(to)) && low < Pow2(bits)
    requires Value(to, out) * Pow2(bits) + low == n
    ensures 0 <= low * Pow2(to - bits) < Pow2(to)
    ensures Digits(to, |out| + 1, n * Pow2(to - bits)) == out + [low * Pow2(to - bits)]
  {
    var q := Pow2(to - bits);
    PadDigit(bits, to, low);
    DigitsSnoc(out, to, low * q, out + [low * q]);
    assert n * q == Value(to, out) * Pow2(to) + low * q by {
      Pow2Add(bits, to - bits);
      ScaleSum(Value(to, out), Pow2(bits), low, q);
    }
  }

  /** What the accumulator loops keep: everything consumed is either emitted or still pending. */
  predicate Balanced(out: seq<int>, to: nat, acc: int, bits: int, consumed: int, n: int) {
    && 0 <= acc < U32 && 0 <= bits
    && AllBelow(out, Pow2(to))
    && |out| * to + bits == consumed
    && Value(to, out) * Pow2(bits) + acc % Pow2(bits) == n
  }

  lemma StepPush(out: seq<int>, to: nat, acc: nat, bits: nat, data: seq<int>, i: nat, from: nat)
    requires i < |data| && bits + from <= 32 && 0 <= data[i] < Pow2(from)
    requires Balanced(out, to, acc, bits, i * from, Value(from, data[..i]))
    ensures Balanced(out, to, Shl32(acc, from) + data[i], bits + from,
                     (i + 1) * from, Value(from, data[..i + 1]))
  {
    BalancePush(Value(to, out), acc, bits, from, data[i], Value(from, data[..i]));
    assert data[..i + 1] == data[..i] + [data[i]];
    ValueSnoc(from, data[..i], data[i]);
    MulAddLeft(i, 1, from);
    PushDigit(acc, bits, from, data[i]);
  }

  lemma AppendDigit(out: seq<int>, d: int, to: nat, consumed: int, bits: int)
    requires AllBelow(out, Pow2(to)) && 0 <= d < Pow2(to) && |out| * to + (bits + to) == consumed
    ensures AllBelow(out + [d], Pow2(to)) && |out + [d]| * to + bits == consumed
    ensures Value(to, out + [d]) == Value(to, out) * Pow2(to) + d
  {
    ValueSnoc(to, out, d);
    MulAddLeft(|out|, 1, to);
  }

  lemma StepEmit(out: seq<int>, to: nat, acc: nat, bits: nat, consumed: int, n: int)
    requires Balanced(out, to, acc, bits + to, consumed, n)
    ensures Balanced(out + [(acc / Pow2(bits)) % Pow2(to)], to, acc, bits, consumed, n)
  {
    hide Pow2, Value;
    BalanceEmit(Value(to, out), acc, bits, to, n);
    AppendDigit(out, (acc / Pow2(bits)) % Pow2(to), to, consumed, bits);
  }

  lemma RegroupPadded(data: seq<int>, from: nat, to: nat, k: nat, left: nat)
    requires from > 0 && AllBelow(data, Pow2(from)) && left < to && |data| * from == k * to + left
    ensures Regroup(data, from, to, true) ==
            Some(if left == 0 then Digits(to, k, Value(from, data))
                 else Digits(to, k + 1, Value(from, data) * Pow2(to - left)))
  {
    DivModUnique(|data| * from, to, k, left);
  }

  lemma RegroupUnpadded(data: seq<int>, from: nat, to: nat, k: nat, left: nat)
    requires from > 0 && AllBelow(data, Pow2(from)) && left < to && |data| * from == k * to + left
    ensures Regroup(data, from, to, false) ==
            if left >= from || Value(from, data) % Pow2(left) != 0 then None
            else Some(Digits(to, k, Value(from, data) / Pow2(left)))
  {
    DivModUnique(|data| * from, to, k, left);
  }

  /** The code's closing test and padding agree with Regroup. */
  lemma FinishWithPad(out: seq<int>, to: nat, acc: nat, bits: nat, data: seq<int>, from: nat)
    requires 0 < from && bits < to <= 8 && AllBelow(data, Pow2(from))
    requires Balanced(out, to, acc, bits, |data| * from, Value(from, data))
    ensures 0 <= Shl32(acc, to - bits) % Pow2(to) < 256
    ensures Regroup(data, from, to, true) ==
            Some(if bits > 0 then out + [Shl32(acc, to - bits) % Pow2(to)] else out)
  {
    Pow2Small(to);
    ValueBound(from, data);
    RegroupPadded(data, from, to, |out|, bits);
    LeftoverBits(acc, bits, to);
    if bits == 0 {
      Finish(out, to, 0, 0, Value(from, data));
    } else {
      FinishPadded(out, to, bits, acc % Pow2(bits), Value(from, data));
    }
  }

  lemma FinishWithoutPad(out: seq<int>, to: nat, acc: nat, bits: nat, data: seq<int>, from: nat)
    requires 0 < from && bits < to <= 8 && AllBelow(data, Pow2(from))
    requires Balanced(out, to, acc, bits, |data| * from, Value(from, data))
    ensures Regroup(data, from, to, false) ==
            if bits >= from || Shl32(acc, to - bits) % Pow2(to) != 0 then None else Some(out)
  {
    ValueBound(from, data);
    RegroupUnpadded(data, from, to, |out|, bits);
    LeftoverBits(acc, bits, to);
    Finish(out, to, bits, acc % Pow2(bits), Value(from, data));
  }

  lemma BytesFit(out: seq<int>, to: nat)
    requires to <= 8 && AllBelow(out, Pow2(to))
    ensures AllBelow(out, 256)
  {
    Pow2Small(to);
  }

  /** The inner loop: emit every whole output digit the accumulator holds. */
  method Drain(emitted: seq<u8>, acc: nat, pending: nat, to: nat, ghost consumed: int, ghost n: int)
    returns (out: seq<u8>, bits: nat)
    requires 1 <= to <= 8 && Balanced(emitted, to, acc, pending, consumed, n)
    ensures bits < to && Balanced(out, to, acc, bits, consumed, n)
  {
    out, bits := emitted, pending;
    while bits >= to
      invariant Balanced(out, to, acc, bits, consumed, n)
    {
      bits := bits - to;
      StepEmit(out, to, acc, bits, consumed, n);
      var next := out + [(acc / Pow2(bits)) % Pow2(to)];
      BytesFit(next, to);
      out := next;
    }
  }

  /** The closing step: pad the leftover bits out to a digit, or insist that they are zero. */
  method Close(emitted: seq<u8>, acc: nat, bits: nat, from: nat, to: nat, pad: bool, ghost data: seq<int>)
    returns (out: seq<u8>, ok: bool)
    requires 0 < from && bits < to <= 8 && AllBelow(data, Pow2(from))
    requires Balanced(emitted, to, acc, bits, |data| * from, Value(from, data))
    ensures Regroup(data, from, to, pad) == if ok then Some(out) else None
  {
    if pad {
      FinishWithPad(emitted, to, acc, bits, data, from);
      if bits > 0 {
        var last: u8 := Shl32(acc, to - bits) % Pow2(to);
        return emitted + [last], true;
      }
      return emitted, true;
    }
    FinishWithoutPad(emitted, to, acc, bits, data, from);
    if bits >= from || Shl32(acc, to - bits) % Pow2(to) != 0 {
      return [], false;
    }
    return emitted, true;
  }

  lemma BalancedStart(to: nat, data: seq<int>, from: nat)
    ensures Balanced([], to, 0, 0, 0 * from, Value(from, data[..0]))
  {
  }

  method ConvertBits(data: seq<u8>, from: nat, to: nat, pad: bool) returns (out: seq<u8>, ok: bool)
    requires 1 <= from <= 8 && 1 <= to <= 8
    requires AllBelow(data, Pow2(from))
    ensures Regroup(data, from, to, pad) == if ok then Some(out) else None
  {
    var five: seq<u8>, acc: nat, bits: nat := [], 0, 0;
    BalancedStart(to, data, from);
    for i := 0 to |data|
      invariant bits < to
      invariant Balanced(five, to, acc, bits, i * from, Value(from, data[..i]))
    {
      StepPush(five, to, acc, bits, data, i, from);
      acc := Shl32(acc, from) + data[i];
      five, bits := Drain(five, acc, bits + from, to, (i + 1) * from, Value(from, data[..i + 1]));
    }
    assert data[..|data|] == data;
    out, ok := Close(five, acc, bits, from, to, pad, data);
  }

  // ----- bytes to 5-bit symbols and back -----

  /** The padded encoding, with its number of symbols m and of padding bits p made explicit. */
  lemma PadShape(data: seq<int>) returns (m: nat, p: nat)
    requires AllBelow(data, Pow2(8))
    ensures p < 5 && m * 5 == |data| * 8 + p && Value(8, data) >= 0
    ensures Regroup(data, 8, 5, true) == Some(Digits(5, m, Value(8, data) * Pow2(p)))
  {
    ValueBound(8, data);
    var total := |data| * 8;
    var k, left := total / 5, total % 5;
    RegroupPadded(data, 8, 5, k, left);
    if left == 0 {
      m, p := k, 0;
    } else {
      m, p := k + 1, 5 - left;
    }
  }

  lemma ShiftOut(v: nat, p: nat)
    ensures (v * Pow2(p)) / Pow2(p) == v && (v * Pow2(p)) % Pow2(p) == 0
  {
    DivModUnique(v * Pow2(p), Pow2(p), v, 0);
  }

  lemma ScaledBound(v: nat, a: nat, p: nat, t: nat)
    requires v < Pow2(a) && t == a + p
    ensures v * Pow2(p) < Pow2(t)
  {
    Pow2Add(a, p);
    MulLe(v + 1, Pow2(a), Pow2(p));
    MulAddLeft(v, 1, Pow2(p));
  }

  /** Bytes survive the trip through padded 5-bit symbols. */
  lemma RegroupRoundTrip(data: seq<int>)
    requires AllBelow(data, Pow2(8))
    ensures var five := Regroup(data, 8, 5, true);
            && five.Some? && AllBelow(five.value, Pow2(5))
            && Regroup(five.value, 5, 8, false) == Some(data)
  {
    var m, p := PadShape(data);
    var n := Value(8, data);
    ValueBound(8, data);
    ScaledBound(n, 8 * |data|, p, 5 * m);
    MulLe(0, n, Pow2(p));
    var five := Digits(5, m, n * Pow2(p));
    DigitsAreDigits(5, m, n * Pow2(p));
    ValueOfDigits(5, m, n * Pow2(p));
    ShiftOut(n, p);
    RegroupUnpadded(five, 5, 8, |data|, p);
    DigitsOfValue(8, data);
  }

  /** Symbols that are accepted are the padded form of the bytes they give. */
  lemma RegroupRoundTripBack(five: seq<int>)
    requires AllBelow(five, Pow2(5)) && Regroup(five, 5, 8, false).Some?
    ensures var data := Regroup(five, 5, 8, false).value;
            AllBelow(data, Pow2(8)) && Regroup(data, 8, 5, true) == Some(five)
  {
    var total := |five| * 5;
    var n, p := total / 8, total % 8;
    RegroupUnpadded(five, 5, 8, n, p);
    var data := Regroup(five, 5, 8, false).value;
    ValueBound(5, five);
    var v := Value(5, five);
    Recompose(v, Pow2(p));
    assert v == (v / Pow2(p)) * Pow2(p);
    Pow2Add(8 * n, p);
    DivBelow(v, Pow2(p), Pow2(8 * n));
    ValueOfDigits(8, n, v / Pow2(p));
    DigitsAreDigits(8, n, v / Pow2(p));
    var m', p' := PadShape(data);
    assert m' == |five| && p' == p;
    DigitsOfValue(5, five);
  }
}
