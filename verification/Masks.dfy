/** Bytewise masking of big-endian byte strings, as numbers: and-ing with a prefix mask rounds down. */
module Masks {
  import opened Net
  import opened Shards

  // ----- bytes and numbers -----

  /** The number a big-endian byte string stands for. */
  function Num(s: seq<byte>): nat {
    if s == [] then 0 else Num(s[..|s| - 1]) * 256 + s[|s| - 1]
  }

  lemma {:induction false} NumBytes(n: nat, len: nat)
    requires n < Pow2(8 * len)
    ensures Num(Bytes(n, len)) == n
  {
    if len > 0 {
      Pow2Add(8, 8 * (len - 1));
      assert Pow2(8) == 256;
      NumBytes(n / 256, len - 1);
      assert Bytes(n, len)[..len - 1] == Bytes(n / 256, len - 1);
    }
  }

  lemma {:induction false} NumInjective(s: seq<byte>, t: seq<byte>)
    requires |s| == |t| && Num(s) == Num(t)
    ensures s == t
  {
    if s != [] {
      NumInjective(s[..|s| - 1], t[..|t| - 1]);
      assert s == s[..|s| - 1] + [s[|s| - 1]] && t == t[..|t| - 1] + [t[|t| - 1]];
    }
  }

  /** Bitwise and of n bits. */
  function And(a: nat, b: nat, n: nat): (r: nat)
    ensures r < Pow2(n)
  {
    if n == 0 then 0 else 2 * And(a / 2, b / 2, n - 1) + (if a % 2 == 1 && b % 2 == 1 then 1 else 0)
  }

  lemma {:induction false} DownIs(x: nat, b: nat, q: nat)
    requires b > 0 && q * b <= x < q * b + b
    ensures Down(x, b) == q * b
  {
    if q > 0 {
      assert q * b == (q - 1) * b + b;
      DownIs(x - b, b, q - 1);
    }
  }

  lemma {:induction false} DownQuotient(x: nat, b: nat) returns (q: nat)
    requires b > 0
    ensures Down(x, b) == q * b
  {
    if x < b {
      q := 0;
    } else {
      q := DownQuotient(x - b, b);
      assert (q + 1) * b == q * b + b;
      q := q + 1;
    }
  }

  lemma DownIdempotent(x: nat, b: nat)
    requires b > 0
    ensures Down(Down(x, b), b) == Down(x, b)
  {
    var q := DownQuotient(x, b);
    DownIs(q * b, b, q);
  }

  lemma MulMono(c: nat, x: nat, y: nat)
    requires x <= y
    ensures c * x <= c * y
  {
  }

  lemma MulAssoc(c: nat, q: nat, b: nat)
    ensures c * (q * b) == q * (c * b) == (c * q) * b
  {
  }

  lemma MulAdd(c: nat, x: nat, y: nat)
    ensures c * (x + y) == c * x + c * y
  {
  }

  /** Scaling by c, with a remainder below c, commutes with rounding down. */
  lemma DownScale(c: nat, x: nat, y: nat, b: nat)
    requires b > 0 && y < c
    ensures c * b > 0 && Down(c * x + y, c * b) == c * Down(x, b)
  {
    var q := DownQuotient(x, b);
    var d, cb, cx := Down(x, b), c * b, c * x;
    MulMono(c, 1, b);
    MulMono(c, d, x);
    MulMono(c, x + 1, d + b);
    MulAdd(c, x, 1);
    MulAdd(c, d, b);
    MulAssoc(c, q, b);
    DownIs(cx + y, cb, q);
  }

  /** Masking off the j low bits rounds down to a multiple of 2^j. */
  lemma {:induction false} AndMask(a: nat, j: nat, n: nat)
    requires j <= n && a < Pow2(n)
    ensures Pow2(j) <= Pow2(n) && And(a, Pow2(n) - Pow2(j), n) == Down(a, Pow2(j))
  {
    if j == 0 {
      AndOnes(a, n);
      DownOne(a);
    } else {
      AndMask(a / 2, j - 1, n - 1);
      DownScale(2, a / 2, a % 2, Pow2(j - 1));
      assert (Pow2(n) - Pow2(j)) / 2 == Pow2(n - 1) - Pow2(j - 1);
    }
  }

  lemma {:induction false} AndOnes(a: nat, n: nat)
    requires a < Pow2(n)
    ensures And(a, Pow2(n) - 1, n) == a
  {
    if n > 0 {
      AndOnes(a / 2, n - 1);
    }
  }

  lemma {:induction false} DownOne(a: nat)
    ensures Down(a, 1) == a
  {
    if a > 0 {
      DownOne(a - 1);
    }
  }

  // ----- masks -----

  /** The mask byte with k leading ones. */
  function MaskByte(k: int): byte {
    if k >= 8 then 255 else if k <= 0 then 0 else 256 - [256, 128, 64, 32, 16, 8, 4, 2][k]
  }

  /** A mask of len bytes with `ones` leading ones. */
  function CidrMask(ones: int, len: nat): (m: seq<byte>)
    ensures |m| == len
    decreases len
  {
    if len == 0 then [] else [MaskByte(ones)] + CidrMask(ones - 8, len - 1)
  }

  lemma {:induction false} MaskAt(ones: int, len: nat, i: nat)
    requires i < len
    ensures CidrMask(ones, len)[i] == MaskByte(ones - 8 * i)
    decreases len
  {
    if i > 0 {
      MaskAt(ones - 8, len - 1, i - 1);
    }
  }

  /** Bytewise and. */
  function Masked(d: seq<byte>, m: seq<byte>): (r: seq<byte>)
    requires |d| == |m|
    ensures |r| == |d|
  {
    seq(|d|, i requires 0 <= i < |d| => AndByte(d[i], m[i]))
  }

  function AndByte(a: byte, b: byte): byte {
    assert Pow2(8) == 256;
    And(a, b, 8)
  }

  lemma AndMaskByte(a: byte, k: nat)
    requires k <= 8
    ensures AndByte(a, MaskByte(k)) == Down(a, Pow2(8 - k))
  {
    assert Pow2(8) == 256;
    AndMask(a, 8 - k, 8);
    MaskByteIs(k);
  }

  lemma MaskByteIs(k: nat)
    requires k <= 8
    ensures MaskByte(k) == 256 - Pow2(8 - k)
  {
    assert Pow2(8) == 256 && Pow2(7) == 128 && Pow2(6) == 64 && Pow2(5) == 32;
    assert Pow2(4) == 16 && Pow2(3) == 8 && Pow2(2) == 4 && Pow2(1) == 2;
  }

  lemma AndZero(a: byte)
    ensures AndByte(a, 0) == 0
  {
    ZeroMask(a, 8);
  }

  lemma {:induction false} ZeroMask(a: nat, n: nat)
    ensures And(a, 0, n) == 0
  {
    if n > 0 {
      ZeroMask(a / 2, n - 1);
    }
  }

  /** Bytewise masking is numeric rounding down, for every mask length: h is the number of free bits. */
  lemma {:induction false} MaskedNum(d: seq<byte>, ones: nat, h: nat)
    requires ones + h == 8 * |d|
    ensures Num(Masked(d, CidrMask(ones, |d|))) == Down(Num(d), Pow2(h))
    decreases |d|, 1
  {
    if d == [] {
      assert Pow2(0) == 1;
    } else if h <= 8 {
      LowMaskedNum(d, ones, h);
    } else {
      MaskedNum(d[..|d| - 1], ones, h - 8);
      HighMaskedNum(d, ones, h);
    }
  }

  /** The case of a mask that ends before the last byte, given the front bytes. */
  lemma HighMaskedNum(d: seq<byte>, ones: nat, h: nat)
    requires d != [] && h > 8 && ones + h == 8 * |d|
    requires var front := d[..|d| - 1]; Num(Masked(front, CidrMask(ones, |front|))) == Down(Num(front), Pow2(h - 8))
    ensures Num(Masked(d, CidrMask(ones, |d|))) == Down(Num(d), Pow2(h))
  {
    var n := |d|;
    var x, y, k := Num(d[..n - 1]), d[n - 1], ones - 8 * (n - 1);
    MaskedSplit(d, ones);
    ClearByte(x, y, k, h);
    assert Num(d) == x * 256 + y;
  }

  lemma ClearByte(x: nat, y: byte, k: int, h: nat)
    requires k < 0 && k + h == 8
    ensures Down(x, Pow2(h - 8)) * 256 + AndByte(y, MaskByte(k)) == Down(x * 256 + y, Pow2(h))
  {
    AndZero(y);
    HighBlock(x, y, h);
  }

  /** The case of a mask that ends inside the last byte. */
  lemma {:induction false} LowMaskedNum(d: seq<byte>, ones: nat, h: nat)
    requires d != [] && h <= 8 && ones + h == 8 * |d|
    ensures Num(Masked(d, CidrMask(ones, |d|))) == Down(Num(d), Pow2(h))
    decreases |d|, 0
  {
    var n := |d|;
    MaskedSplit(d, ones);
    FullMask(ones, n);
    MaskedNum(d[..n - 1], 8 * (n - 1), 0);
    LastByte(Num(d[..n - 1]), d[n - 1], 8 - h);
  }

  lemma LastByte(x: nat, y: byte, k: nat)
    requires k <= 8
    ensures Down(x, Pow2(0)) * 256 + AndByte(y, MaskByte(k)) == Down(x * 256 + y, Pow2(8 - k))
  {
    DownOne(x);
    AndMaskByte(y, k);
    LowBlock(x, y, 8 - k);
  }

  lemma MaskedSplit(d: seq<byte>, ones: nat)
    requires d != []
    ensures var n := |d|;
      Num(Masked(d, CidrMask(ones, n)))
      == Num(Masked(d[..n - 1], CidrMask(ones, n - 1))) * 256 + AndByte(d[n - 1], MaskByte(ones - 8 * (n - 1)))
  {
    var n := |d|;
    MaskAt(ones, n, n - 1);
    MaskFront(ones, n);
    assert Masked(d, CidrMask(ones, n))[..n - 1] == Masked(d[..n - 1], CidrMask(ones, n - 1));
  }

  lemma HighBlock(x: nat, y: byte, h: nat)
    requires h >= 8
    ensures Down(x * 256 + y, Pow2(h)) == Down(x, Pow2(h - 8)) * 256
  {
    DownScale(256, x, y, Pow2(h - 8));
    Pow2Add(8, h - 8);
    assert Pow2(8) == 256;
  }

  lemma MaskFront(ones: int, len: nat)
    requires len > 0
    ensures CidrMask(ones, len)[..len - 1] == CidrMask(ones, len - 1)
  {
    var m, f := CidrMask(ones, len), CidrMask(ones, len - 1);
    forall i | 0 <= i < len - 1 ensures m[i] == f[i] {
      MaskAt(ones, len, i);
      MaskAt(ones, len - 1, i);
    }
  }

  /** Once all but at most eight bits are masked in, the front bytes are masked in fully. */
  lemma FullMask(ones: nat, len: nat)
    requires len > 0 && 8 * (len - 1) <= ones
    ensures CidrMask(ones, len - 1) == CidrMask(8 * (len - 1), len - 1)
  {
    var m, f := CidrMask(ones, len - 1), CidrMask(8 * (len - 1), len - 1);
    forall i | 0 <= i < len - 1 ensures m[i] == f[i] {
      MaskAt(ones, len - 1, i);
      MaskAt(8 * (len - 1), len - 1, i);
    }
  }

  lemma LowBlock(x: nat, y: byte, h: nat)
    requires h <= 8
    ensures Down(x * 256 + y, Pow2(h)) == x * 256 + Down(y, Pow2(h))
  {
    var q := DownQuotient(y, Pow2(h));
    Pow2Add(8 - h, h);
    MulAssoc(x, Pow2(8 - h), Pow2(h));
    BlockOf(x * Pow2(8 - h), q, y, Pow2(h));
  }

  lemma BlockOf(k: nat, q: nat, y: nat, b: nat)
    requires b > 0 && q * b <= y < q * b + b
    ensures Down(k * b + y, b) == k * b + q * b
  {
    MulAdd(b, k, q);
    DownIs(k * b + y, b, k + q);
  }
}
