/** The cursor of one FakeIP subnet: the order in which its addresses are visited, as a closed form. */
module Cursor {
  import opened Net

  /** A parsed prefix that holds no IPv4-mapped IPv6 address. */
  predicate Sound(p: Prefix) {
    p.Valid() && Unmapped(p)
  }

  /** And the address after the configured one is inside: the allocator has something to hand out. */
  predicate Usable(p: Prefix) {
    Sound(p) && p.addr.n < p.Hi()
  }

  predicate Unmapped(p: Prefix)
    requires p.Valid()
  {
    p.addr.V6? ==> p.Hi() < 0xffff_0000_0000 || 0xffff_ffff_ffff < p.Lo()
  }

  /** One pass of the allocation loop, up to the lookup: advance, wrap, skip the configured address. */
  function Step(p: Prefix, cur: Addr): Addr
    requires p.Valid() && !cur.Invalid?
  {
    var c := cur.Next().Unmap();
    var d := if !p.Contains(c) then p.addr.Unmap().Next().Unmap() else c;
    if d == p.addr.Unmap() then d.Next().Unmap() else d
  }

  /** The number of addresses the allocator can hand out again and again. */
  function Size(p: Prefix): (n: nat)
    requires Usable(p)
    ensures n >= 1
  {
    p.Hi() - p.addr.n
  }

  predicate CanHold(p: Prefix, a: Addr)
    requires Usable(p)
  {
    SameFamily(p.addr, a) && p.addr.n < a.n <= p.Hi()
  }

  /** The position of a cursor value on a line of visits. Positions from 1 on go round the usable
      addresses; positions up to 0 are the addresses below the configured one, which a cursor restored
      from a file may still have to pass once. */
  function Coord(p: Prefix, cur: Addr): int
    requires Usable(p) && p.Contains(cur)
  {
    if cur.n >= p.addr.n then cur.n - p.addr.n else cur.n - p.addr.n + 1
  }

  predicate OnLine(p: Prefix, c: int)
    requires Usable(p)
  {
    p.Lo() - p.addr.n < c
  }

  /** The remainder of x: where x steps round a ring of n places end. */
  function Ring(x: nat, n: nat): (r: nat)
    requires n > 0
    ensures r < n
  {
    if x < n then x else Ring(x - n, n)
  }

  /** The address visited at position c. */
  function VisitAt(p: Prefix, c: int): Addr
    requires Usable(p) && OnLine(p, c)
  {
    if c <= 0 then p.addr.With(p.addr.n - 1 + c) else p.addr.With(p.addr.n + 1 + Ring(c - 1, Size(p)))
  }

  lemma {:induction false} RingSucc(x: nat, n: nat)
    requires n > 0
    ensures Ring(x + 1, n) == if Ring(x, n) + 1 == n then 0 else Ring(x, n) + 1
  {
    if x >= n {
      RingSucc(x - n, n);
    }
  }

  lemma {:induction false} RingDistinct(x: nat, y: nat, n: nat)
    requires x < y < x + n
    ensures Ring(x, n) != Ring(y, n)
  {
    if x >= n {
      RingDistinct(x - n, y - n, n);
    }
  }

  /** j steps on, one stands at the same place again exactly when j is a multiple of n. */
  lemma {:induction false} RingReturns(x: nat, j: nat, n: nat)
    requires n > 0
    ensures Ring(x + j, n) == Ring(x, n) <==> Down(j, n) == j
  {
    if j >= n {
      RingReturns(x, j - n, n);
    } else if j > 0 {
      RingDistinct(x, x + j, n);
    }
  }

  /** The first number from x on that stands at r. */
  lemma {:induction false} RingReach(x: nat, n: nat, r: nat) returns (y: nat)
    requires r < n
    ensures x <= y < x + n && Ring(y, n) == r
  {
    if x >= n {
      y := RingReach(x - n, n, r);
      y := y + n;
    } else {
      y := if x <= r then r else r + n;
    }
  }

  /** Every visited address is inside the prefix and is not the configured one; from position 1 on it is
      one of the usable addresses. */
  lemma VisitInside(p: Prefix, c: int)
    requires Usable(p) && OnLine(p, c)
    ensures p.Contains(VisitAt(p, c)) && VisitAt(p, c) != p.addr && VisitAt(p, c).Valid()
    ensures VisitAt(p, c).Unmap() == VisitAt(p, c)
    ensures c >= 1 <==> CanHold(p, VisitAt(p, c))
  {
    ContainsIsInterval(p, VisitAt(p, c));
  }

  /** The closed form is what the loop does: from any cursor inside the prefix the first pass goes to the
      position after the cursor's, and each further pass to the next one, through the end of the prefix
      and through the end of the address space. */
  lemma StepFromCursor(p: Prefix, cur: Addr)
    requires Usable(p) && p.Contains(cur)
    ensures OnLine(p, Coord(p, cur) + 1)
    ensures Step(p, cur) == VisitAt(p, Coord(p, cur) + 1)
  {
    ContainsIsInterval(p, cur);
    ContainsIsInterval(p, p.addr);
    ContainsIsInterval(p, p.addr.With(p.addr.n + 1));
    ContainsIsInterval(p, cur.Next().Unmap());
    assert Ring(0, Size(p)) == 0;
  }

  lemma StepFromVisit(p: Prefix, c: int)
    requires Usable(p) && OnLine(p, c)
    ensures Step(p, VisitAt(p, c)) == VisitAt(p, c + 1)
  {
    VisitInside(p, c);
    StepFromCursor(p, VisitAt(p, c));
    if c >= 1 {
      RingSucc(c - 1, Size(p));
    }
  }

  /** A cursor that started at `start` stands at position c. */
  predicate AtVisit(p: Prefix, start: Addr, c: int, cur: Addr)
    requires Usable(p) && p.Contains(start)
  {
    if c == Coord(p, start) then cur == start else OnLine(p, c) && cur == VisitAt(p, c)
  }

  lemma NextVisit(p: Prefix, start: Addr, c: int, cur: Addr)
    requires Usable(p) && p.Contains(start)
    requires Coord(p, start) <= c && AtVisit(p, start, c, cur)
    ensures !cur.Invalid? && OnLine(p, c + 1) && Step(p, cur) == VisitAt(p, c + 1)
  {
    if c == Coord(p, start) {
      StepFromCursor(p, cur);
    } else {
      StepFromVisit(p, c);
    }
  }

  /** Fewer than Size(p) positions apart, two visits are to different addresses. */
  lemma WindowDistinct(p: Prefix, c: int, d: int)
    requires Usable(p) && OnLine(p, c) && c < d < c + Size(p)
    ensures VisitAt(p, c) != VisitAt(p, d)
  {
    if c >= 1 {
      RingDistinct(c - 1, d - 1, Size(p));
    }
  }

  /** Exactly when two visits are to the same address: both go round the usable addresses, a multiple of
      Size(p) positions apart. */
  lemma VisitsCoincideIff(p: Prefix, c: int, d: int)
    requires Usable(p) && OnLine(p, c) && c <= d
    ensures VisitAt(p, c) == VisitAt(p, d) <==> c == d || (c >= 1 && Down(d - c, Size(p)) == d - c)
  {
    if c >= 1 {
      RingReturns(c - 1, d - c, Size(p));
    }
  }

  /** Any Size(p) consecutive positions from 1 on visit every usable address. */
  lemma WindowCovers(p: Prefix, c: int, a: Addr) returns (d: int)
    requires Usable(p) && c >= 0 && CanHold(p, a)
    ensures c < d <= c + Size(p) && VisitAt(p, d) == a
  {
    var y := RingReach(c, Size(p), a.n - p.addr.n - 1);
    d := y + 1;
  }

  /** Full sweep: when the same address is visited twice, every usable address has been visited since. */
  lemma FullSweep(p: Prefix, c: int, d: int, a: Addr) returns (e: int)
    requires Usable(p) && OnLine(p, c) && c < d && VisitAt(p, c) == VisitAt(p, d)
    requires CanHold(p, a)
    ensures c < e <= d && VisitAt(p, e) == a
  {
    VisitInside(p, c);
    VisitInside(p, d);
    if d < c + Size(p) {
      WindowDistinct(p, c, d);
    }
    e := WindowCovers(p, c, a);
  }

  /** The usable addresses as a set, and how many there are. */
  function UsableSet(p: Prefix): set<Addr>
    requires Usable(p)
  {
    set n: nat | p.addr.n < n <= p.Hi() :: p.addr.With(n)
  }

  lemma {:induction false} RangeCard(a: Addr, lo: nat, k: nat, s: set<Addr>)
    requires !a.Invalid?
    requires s == set n: nat | lo < n <= lo + k :: a.With(n)
    ensures |s| == k
  {
    if k > 0 {
      var top := a.With(lo + k);
      var t := set n: nat | lo < n <= lo + (k - 1) :: a.With(n);
      RangeCard(a, lo, k - 1, t);
      assert s == t + {top};
    }
  }

  /** Pigeonhole: fewer than Size(p) usable addresses taken leaves one free. */
  lemma SomeFree(p: Prefix, taken: set<Addr>) returns (a: Addr)
    requires Usable(p) && |taken * UsableSet(p)| < Size(p)
    ensures CanHold(p, a) && a !in taken
  {
    var all := UsableSet(p);
    RangeCard(p.addr, p.addr.n, Size(p), all);
    assert taken * all != all;
    a :| a in all && a !in taken;
  }

  /** Some address between the cursor and the configured address is free: only a cursor restored from a
      file can stand below the configured address. */
  predicate FreeBelow(p: Prefix, cur: Addr, taken: set<Addr>)
    requires Usable(p) && p.Contains(cur)
  {
    exists n: nat :: cur.n < n < p.addr.n && p.addr.With(n) !in taken
  }

  /** The loop started at the cursor can stop: it still has a free address to come to. */
  predicate CanStop(p: Prefix, cur: Addr, taken: set<Addr>) {
    Usable(p) && p.Contains(cur) && (FreeBelow(p, cur, taken) || |taken * UsableSet(p)| < Size(p))
  }

  /** Where it can stop. */
  lemma StopAhead(p: Prefix, cur: Addr, taken: set<Addr>) returns (d: int)
    requires CanStop(p, cur, taken)
    ensures Coord(p, cur) < d && OnLine(p, d) && VisitAt(p, d) !in taken
  {
    ContainsIsInterval(p, cur);
    ContainsIsInterval(p, p.addr);
    if FreeBelow(p, cur, taken) {
      var n: nat :| cur.n < n < p.addr.n && p.addr.With(n) !in taken;
      d := n - p.addr.n + 1;
    } else {
      var a := SomeFree(p, taken);
      var c := Coord(p, cur);
      d := WindowCovers(p, if c > 0 then c else 0, a);
    }
  }

  /** From any cursor in the prefix, the allocation loop comes to a free address exactly when there is one
      still to come below the configured address, or fewer than Size(p) usable addresses are taken. */
  lemma StopsIffFree(p: Prefix, cur: Addr, taken: set<Addr>)
    requires Usable(p) && p.Contains(cur)
    ensures (exists d :: Coord(p, cur) < d && OnLine(p, d) && VisitAt(p, d) !in taken) <==> CanStop(p, cur, taken)
  {
    if d :| Coord(p, cur) < d && OnLine(p, d) && VisitAt(p, d) !in taken {
      VisitInside(p, d);
      if d >= 1 {
        FreeMeansRoom(p, VisitAt(p, d), taken);
      } else {
        FreeIsBelow(p, cur, taken, d);
      }
    }
    if CanStop(p, cur, taken) {
      var d := StopAhead(p, cur, taken);
    }
  }

  lemma FreeIsBelow(p: Prefix, cur: Addr, taken: set<Addr>, d: int)
    requires Usable(p) && p.Contains(cur) && Coord(p, cur) < d <= 0 && OnLine(p, d) && VisitAt(p, d) !in taken
    ensures FreeBelow(p, cur, taken)
  {
    ContainsIsInterval(p, cur);
    var n: nat := p.addr.n - 1 + d;
    assert cur.n < n < p.addr.n && p.addr.With(n) !in taken;
  }

  lemma FreeMeansRoom(p: Prefix, a: Addr, taken: set<Addr>)
    requires Usable(p) && CanHold(p, a) && a !in taken
    ensures |taken * UsableSet(p)| < Size(p)
  {
    var all := UsableSet(p);
    RangeCard(p.addr, p.addr.n, Size(p), all);
    assert a == p.addr.With(a.n);
    SubsetSmaller(taken * all, all, a);
  }

  lemma SubsetSmaller<T>(s: set<T>, t: set<T>, x: T)
    requires s <= t && x in t && x !in s
    ensures |s| < |t|
  {
    var u := t - {x};
    assert s <= u;
    SubsetCard(s, u);
  }

  lemma {:induction false} SubsetCard<T>(s: set<T>, t: set<T>)
    requires s <= t
    ensures |s| <= |t|
  {
    assert t == s + (t - s);
    assert |t| == |s| + |t - s|;
  }

  /** A pass stays inside the prefix exactly when there is an address after the configured one, or the
      cursor still has one to go to below it. With the configured address last in its prefix (a
      single-address prefix, say) the address handed out lies outside. */
  lemma StepStaysInsideIff(p: Prefix, cur: Addr)
    requires p.Valid() && Unmapped(p) && p.Contains(cur)
    ensures p.Contains(Step(p, cur)) <==> p.addr.n < p.Hi() || cur.n + 1 < p.addr.n
  {
    ContainsIsInterval(p, cur);
    ContainsIsInterval(p, p.addr);
    if p.addr.n < p.Hi() {
      StepFromCursor(p, cur);
      VisitInside(p, Coord(p, cur) + 1);
    } else if cur.n + 1 < p.addr.n {
      assert Step(p, cur) == p.addr.With(cur.n + 1) by { ContainsIsInterval(p, cur.Next()); }
      ContainsIsInterval(p, p.addr.With(cur.n + 1));
    } else {
      StepOutside(p, cur);
      ContainsIsInterval(p, p.addr.Next().Unmap());
    }
  }

  lemma StepOutside(p: Prefix, cur: Addr)
    requires p.Valid() && Unmapped(p) && p.Contains(cur)
    requires p.addr.n == p.Hi() && p.addr.n <= cur.n + 1
    ensures Step(p, cur) == p.addr.Next().Unmap()
  {
    ContainsIsInterval(p, cur);
    ContainsIsInterval(p, p.addr);
    ContainsIsInterval(p, cur.Next().Unmap());
    ContainsIsInterval(p, p.addr.Next().Unmap());
  }
}
