/** Addresses and prefixes as the standard netip package defines them: the successor of an address,
    the IPv4-mapped form, and prefix membership over unmasked prefixes. */
module Net {

  /** 2^n. */
  function Pow2(n: nat): (r: nat)
    ensures r >= 1
  {
    if n == 0 then 1 else 2 * Pow2(n - 1)
  }

  lemma {:induction false} Pow2Add(m: nat, n: nat)
    ensures Pow2(m + n) == Pow2(m) * Pow2(n)
  {
    if m > 0 {
      Pow2Add(m - 1, n);
      assert Pow2(m + n) == 2 * Pow2(m - 1 + n);
      assert 2 * (Pow2(m - 1) * Pow2(n)) == (2 * Pow2(m - 1)) * Pow2(n);
    }
  }

  /** x rounded down to a multiple of b: for b a power of two, x with its low bits masked off. */
  function Down(x: nat, b: nat): (r: nat)
    requires b > 0
    ensures r <= x < r + b
  {
    if x < b then 0 else b + Down(x - b, b)
  }

  lemma {:induction false} DownIsMod(x: nat, b: nat)
    requires b > 0
    ensures x % b == x - Down(x, b)
    ensures x / b * b == Down(x, b)
  {
    if x >= b {
      DownIsMod(x - b, b);
      assert x == (x - b) / b * b + (x - b) % b + b == ((x - b) / b + 1) * b + (x - b) % b;
      DivModUnique(x, (x - b) / b + 1, b, (x - b) % b);
    }
  }

  lemma DivModUnique(x: int, q: int, b: nat, r: nat)
    requires x == q * b + r && r < b
    ensures x / b == q && x % b == r
  {
    var d := q - x / b;
    assert d * b == q * b - x / b * b == x % b - r;
    assert d >= 1 ==> d * b >= b;
    assert d <= -1 ==> d * b + b <= 0;
  }

  /** An address: the zero value of the source's type, or a number of one of the two families. */
  datatype Addr = Invalid | V4(n: nat) | V6(n: nat) {
    function Width(): nat {
      match this
      case Invalid => 0
      case V4(_) => 32
      case V6(_) => 128
    }

    /** One past the last number of the family. */
    function Limit(): nat {
      match this
      case Invalid => 0
      case V4(_) => 0x1_0000_0000
      case V6(_) => 0x1_0000_0000_0000_0000_0000_0000_0000_0000
    }

    predicate Valid() {
      !Invalid? && n < Limit()
    }

    predicate Mapped() {
      V6? && 0xffff_0000_0000 <= n <= 0xffff_ffff_ffff
    }

    /** The IPv4 address an IPv4-mapped IPv6 address stands for; any other address is unchanged. */
    function Unmap(): Addr {
      if Mapped() then V4(n - 0xffff_0000_0000) else this
    }

    /** The same family, another number. */
    function With(m: nat): Addr {
      match this
      case Invalid => Invalid
      case V4(_) => V4(m)
      case V6(_) => V6(m)
    }

    /** The next address, or the zero value past the last one of the family. */
    function Next(): Addr
      requires !Invalid?
    {
      if n + 1 == Limit() then Invalid else With(n + 1)
    }
  }

  lemma Pow2Double(n: nat, v: nat)
    requires Pow2(n) == v
    ensures Pow2(n + n) == v * v
  {
    Pow2Add(n, n);
  }

  lemma LimitIsPow2(a: Addr)
    requires !a.Invalid?
    ensures a.Limit() == Pow2(a.Width())
  {
    assert Pow2(8) == 0x100;
    Pow2Double(8, 0x100);
    Pow2Double(16, 0x1_0000);
    if a.V6? {
      Pow2Double(32, 0x1_0000_0000);
      Pow2Double(64, 0x1_0000_0000_0000_0000);
    }
  }

  predicate SameFamily(a: Addr, b: Addr) {
    (a.V4? && b.V4?) || (a.V6? && b.V6?)
  }

  /** A parsed prefix. The address keeps its host bits: parsing does not mask it. */
  datatype Prefix = Prefix(addr: Addr, bits: nat) {
    predicate Valid() {
      addr.Valid() && bits <= addr.Width()
    }

    /** The number of addresses that share the first `bits` bits. */
    function Block(): (r: nat)
      requires bits <= addr.Width()
      ensures r >= 1
    {
      Pow2(addr.Width() - bits)
    }

    /** Membership: the same family, and the same first `bits` bits. */
    predicate Contains(a: Addr)
      requires Valid()
    {
      SameFamily(addr, a) && Down(a.n, Block()) == Down(addr.n, Block())
    }

    function Lo(): nat
      requires Valid()
    {
      Down(addr.n, Block())
    }

    function Hi(): int
      requires Valid()
    {
      Lo() + Block() - 1
    }

    predicate ZeroHostBits()
      requires Valid()
    {
      Down(addr.n, Block()) == addr.n
    }
  }

  /** Two numbers round down alike exactly when one lies in the block of the other. */
  lemma {:induction false} DownRange(x: nat, y: nat, b: nat)
    requires b > 0
    ensures Down(x, b) == Down(y, b) <==> Down(y, b) <= x < Down(y, b) + b
  {
    if x >= b && y >= b {
      DownRange(x - b, y - b, b);
    }
  }

  /** The last number of a block stays below any multiple of the block size that exceeds its first. */
  lemma {:induction false} BlockInside(x: nat, b: nat, k: nat)
    requires b > 0 && x < k * b
    ensures Down(x, b) + b <= k * b
  {
    assert k >= 1 && k * b == (k - 1) * b + b;
    if x >= b {
      BlockInside(x - b, b, k - 1);
    } else {
      assert (k - 1) * b >= 0;
    }
  }

  /** A prefix is an interval of numbers, and the interval ends inside the address space. */
  lemma ContainsIsInterval(p: Prefix, a: Addr)
    requires p.Valid()
    ensures p.Contains(a) <==> SameFamily(p.addr, a) && p.Lo() <= a.n <= p.Hi()
    ensures p.Lo() <= p.addr.n <= p.Hi() < p.addr.Limit()
  {
    if !a.Invalid? {
      DownRange(a.n, p.addr.n, p.Block());
    }
    Pow2Add(p.bits, p.addr.Width() - p.bits);
    LimitIsPow2(p.addr);
    BlockInside(p.addr.n, p.Block(), Pow2(p.bits));
  }
}
