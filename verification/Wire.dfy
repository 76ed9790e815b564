/** Little-endian integers of the decoder protocols (app/decoder_ipc.h:37-47). */
module Wire {
  import opened Radix
  import opened XorWords

  type u8 = x: int | 0 <= x < 256
  type u32 = x: int | 0 <= x < 0x1_0000_0000

  /** The unsigned 32-bit integer stored at position i. */
  function U32At(s: seq<u8>, i: nat): (n: u32)
    requires i + 4 <= |s|
  {
    var b0: int, b1: int, b2: int, b3: int := s[i], s[i + 1], s[i + 2], s[i + 3];
    b0 + b1 * 0x100 + b2 * 0x1_0000 + b3 * 0x100_0000
  }

  function Put32(n: u32): (s: seq<u8>)
    ensures |s| == 4
  {
    [n % 0x100, n / 0x100 % 0x100, n / 0x1_0000 % 0x100, n / 0x100_0000]
  }

  lemma PutGet(n: u32)
    ensures U32At(Put32(n), 0) == n
  {
    var q1: int := n / 0x100;
    var q2: int := q1 / 0x100;
    var q3: int := q2 / 0x100;
    assert n == q1 * 0x100 + n % 0x100;
    assert q1 == q2 * 0x100 + q1 % 0x100;
    assert q2 == q3 * 0x100 + q2 % 0x100;
    assert n / 0x1_0000 == q2 && n / 0x100_0000 == q3;
  }

  lemma GetPut(s: seq<u8>, i: nat)
    requires i + 4 <= |s|
    ensures Put32(U32At(s, i)) == s[i..i + 4]
  {
    var n: int := U32At(s, i);
    var b1: int, b2: int, b3: int := s[i + 1], s[i + 2], s[i + 3];
    assert n / 0x100 == b1 + b2 * 0x100 + b3 * 0x1_0000;
    assert n / 0x1_0000 == b2 + b3 * 0x100;
    assert n / 0x100_0000 == b3;
  }

  /** An integer read inside a part of a stream is the one read in the whole. */
  lemma U32Slice(s: seq<u8>, from: nat, to: nat, i: nat)
    requires from <= to <= |s| && from + i + 4 <= to
    ensures U32At(s[from..to], i) == U32At(s, from + i)
  {
  }

  /** The order of the bytes: bit j of byte k is bit 8k + j of the number. */
  lemma PutBits(n: u32, k: nat, j: nat)
    requires k < 4 && j < 8
    ensures Bit(Put32(n)[k], j) == Bit(n, 8 * k + j)
  {
    hide Bit;
    ByteSizes();
    var p: nat := Pow2(8 * k);
    assert Put32(n)[k] == n / p % 0x100;
    BitOfQuotient(n, 8 * k, j);
    BitOfByte(n / p, j);
  }

  lemma ByteSizes()
    ensures Pow2(0) == 1 && Pow2(8) == 0x100 && Pow2(16) == 0x1_0000 && Pow2(24) == 0x100_0000
  {
    assert Pow2(4) == 16;
    Pow2Add(4, 4);
    Pow2Add(8, 8);
    Pow2Add(16, 8);
  }

  /** The low byte keeps the low bits. */
  lemma BitOfByte(n: nat, j: nat)
    requires j < 8
    ensures Bit(n % 0x100, j) == Bit(n, j)
  {
    LowBitsOf(n, 8, j);
    ByteSizes();
  }
}
