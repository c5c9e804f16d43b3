/** Page layouts and the quick-skip scan, independent of bytes.

    A layout gives every page the meaning its header would have if the scan read it
    there. Only the first page of an extent carries a meaningful header, so everything
    below speaks about *scan positions*: the pages the scan from page 0 visits. */
module Layouts {
  import opened Arithmetic

  /** What a page's header says. `Blank` is erased throughout, `Dirty` is an
      unallocated header over stale bytes, which a sound scan never visits. */
  datatype Page =
    | Blank
    | Dirty
    | Isolated
    | Active(span: nat)
    | Obsolete(span: nat)

  type Layout = seq<Page>

  /** What a page counts as for the garbage collector. */
  datatype Class = Act | Obs | Fr

  function ClassOf(page: Page): Class {
    match page
    case Active(_) => Act
    case Obsolete(_) | Isolated => Obs
    case Blank | Dirty => Fr
  }

  /** The first page after `p`'s sector; `n` is the number of pages per sector. */
  function SectorEnd(p: int, n: nat): int
    requires n > 0
  {
    p - p % n + n
  }

  lemma SectorEndIn(b: int, n: nat, p: int)
    requires n > 0 && Aligned(b, n) && b <= p < b + n
    ensures SectorEnd(p, n) == b + n
  {
    ModOffset(b, n, p - b);
  }

  lemma SectorBounds(p: int, n: nat)
    requires n > 0
    ensures p < SectorEnd(p, n) <= p + n
    ensures Aligned(SectorEnd(p, n), n)
    ensures Aligned(SectorEnd(p, n) - n, n) && SectorEnd(p, n) - n <= p
  {
    assert p - p % n == p / n * n;
    MulMod(p / n, n);
    MultipleStep(p - p % n, n);
  }

  // ---------------------------------------------------------------- the scan

  /** Where the quick-skip scan goes after reading the header of `p`. */
  function Next(L: Layout, n: nat, p: int): int
    requires n > 0 && 0 <= p < |L|
  {
    match L[p]
    case Blank | Dirty => SectorEnd(p, n)
    case Isolated => p + 1
    case Active(span) => p + span
    case Obsolete(span) => p + span
  }

  /** A well-formed unit starts at `p`: a free page with the rest of its sector blank,
      an isolated page, or an extent that leaves the last page of the device alone. */
  ghost predicate Unit(L: Layout, n: nat, p: int)
    requires n > 0
  {
    && 0 <= p < |L|
    && p < Next(L, n, p) <= |L|
    && match L[p] {
         case Blank => forall q :: p <= q < Next(L, n, p) ==> L[q] == Blank
         case Dirty => false
         case Isolated => true
         case Active(span) => p + span < |L|
         case Obsolete(span) => p + span < |L|
       }
  }

  /** The scan started at `p` reaches `q` over well-formed units only. */
  ghost predicate Tiles(L: Layout, n: nat, p: int, q: int)
    requires n > 0
    decreases q - p
  {
    && 0 <= p <= q <= |L|
    && (p < q ==> Unit(L, n, p) && Tiles(L, n, Next(L, n, p), q))
  }

  ghost predicate Sized(L: Layout, n: nat) {
    n > 0 && Aligned(|L|, n)
  }

  ghost predicate WellFormed(L: Layout, n: nat) {
    Sized(L, n) && Tiles(L, n, 0, |L|)
  }

  /** The scan from page 0 stops at `p`. */
  ghost predicate Position(L: Layout, n: nat, p: int)
    requires n > 0
  {
    Tiles(L, n, 0, p)
  }

  /** The scan finds a file extent at `p`. */
  ghost predicate Live(L: Layout, n: nat, p: int)
    requires n > 0
  {
    0 <= p < |L| && Position(L, n, p) && L[p].Active?
  }

  lemma {:induction false} TilesConcat(L: Layout, n: nat, a: int, b: int, c: int)
    requires n > 0 && Tiles(L, n, a, b) && Tiles(L, n, b, c)
    ensures Tiles(L, n, a, c)
    decreases b - a
  {
    if a < b {
      TilesConcat(L, n, Next(L, n, a), b, c);
    }
  }

  /** Scan positions are the same however the scan got there. */
  lemma {:induction false} TilesSplit(L: Layout, n: nat, a: int, b: int, c: int)
    requires n > 0 && Tiles(L, n, a, b) && Tiles(L, n, a, c) && b <= c
    ensures Tiles(L, n, b, c)
    decreases b - a
  {
    if a < b {
      TilesSplit(L, n, Next(L, n, a), b, c);
    }
  }

  lemma {:induction false} TilesAgree(L: Layout, L': Layout, n: nat, a: int, b: int)
    requires n > 0 && |L| == |L'| && Tiles(L, n, a, b)
    requires forall x :: a <= x < b ==> L[x] == L'[x]
    ensures Tiles(L', n, a, b)
    decreases b - a
  {
    hide SectorEnd;
    if a < b {
      assert Next(L, n, a) <= b;
      TilesAgree(L, L', n, Next(L, n, a), b);
    }
  }

  /** No scan position lies strictly inside a unit. */
  lemma NoPositionInside(L: Layout, n: nat, u: int, x: int)
    requires n > 0 && Position(L, n, u) && Position(L, n, x) && u < x
    ensures Unit(L, n, u) && Next(L, n, u) <= x && Tiles(L, n, Next(L, n, u), x)
    ensures Position(L, n, Next(L, n, u))
  {
    TilesSplit(L, n, 0, u, x);
    assert Tiles(L, n, Next(L, n, u), Next(L, n, u));
    TilesConcat(L, n, 0, u, Next(L, n, u));
  }

  lemma StepPosition(L: Layout, n: nat, p: int)
    requires WellFormed(L, n) && Position(L, n, p) && p < |L|
    ensures Unit(L, n, p) && Position(L, n, Next(L, n, p))
    ensures Tiles(L, n, Next(L, n, p), |L|)
  {
    NoPositionInside(L, n, p, |L|);
  }

  /** Extents never overlap. */
  lemma LiveDisjoint(L: Layout, n: nat, p: int, q: int)
    requires n > 0 && Live(L, n, p) && Live(L, n, q) && p < q
    ensures p + L[p].span <= q
  {
    NoPositionInside(L, n, p, q);
  }

  lemma LiveInRange(L: Layout, n: nat, p: int)
    requires WellFormed(L, n) && Live(L, n, p)
    ensures 1 <= L[p].span && p + L[p].span < |L|
  {
    StepPosition(L, n, p);
  }

  // ------------------------------------------------------- what a page is part of

  /** The first page of the unit that covers `x`, for a scan from `p`. */
  ghost function UnitAt(L: Layout, n: nat, p: int, x: int): (u: int)
    requires n > 0 && Tiles(L, n, p, |L|) && p <= x < |L|
    ensures Tiles(L, n, p, u) && p <= u <= x && Unit(L, n, u) && x < Next(L, n, u)
    decreases |L| - p
  {
    if x < Next(L, n, p) then p else UnitAt(L, n, Next(L, n, p), x)
  }

  lemma {:induction false} UnitAtIs(L: Layout, n: nat, p: int, u: int, x: int)
    requires n > 0 && Tiles(L, n, p, |L|) && Tiles(L, n, p, u) && p <= u <= x < |L|
    requires Unit(L, n, u) && x < Next(L, n, u)
    ensures UnitAt(L, n, p, x) == u
    decreases u - p
  {
    if p < u {
      UnitAtIs(L, n, Next(L, n, p), u, x);
    }
  }

  /** What page `x` counts as, for a scan from `p`. */
  ghost function PageClass(L: Layout, n: nat, p: int, x: int): Class
    requires n > 0 && Tiles(L, n, p, |L|) && p <= x < |L|
  {
    ClassOf(L[UnitAt(L, n, p, x)])
  }

  lemma UnitClass(L: Layout, n: nat, p: int, u: int)
    requires n > 0 && Tiles(L, n, p, |L|) && Tiles(L, n, p, u) && u < |L|
    ensures Unit(L, n, u)
    ensures forall x :: u <= x < Next(L, n, u) ==>
      UnitAt(L, n, p, x) == u && PageClass(L, n, p, x) == ClassOf(L[u])
  {
    TilesSplit(L, n, p, u, |L|);
    forall x | u <= x < Next(L, n, u)
      ensures UnitAt(L, n, p, x) == u
    {
      UnitAtIs(L, n, p, u, x);
    }
  }

  /** The first scan position at or after `b`. */
  ghost function Resume(L: Layout, n: nat, b: int): (e: int)
    requires WellFormed(L, n) && 0 <= b <= |L|
    ensures b <= e <= |L|
  {
    if b == 0 then 0 else Next(L, n, UnitAt(L, n, 0, b - 1))
  }

  lemma ResumeIsFirst(L: Layout, n: nat, b: int)
    requires WellFormed(L, n) && 0 <= b <= |L|
    ensures Position(L, n, Resume(L, n, b))
    ensures forall y :: b <= y && Position(L, n, y) ==> Resume(L, n, b) <= y
  {
    if b > 0 {
      var u := UnitAt(L, n, 0, b - 1);
      StepPosition(L, n, u);
      forall y | b <= y && Position(L, n, y)
        ensures Next(L, n, u) <= y
      {
        NoPositionInside(L, n, u, y);
      }
    }
  }

  /** The pages of class `c` in `[lo, hi)`, counted one by one. */
  ghost function Count(L: Layout, n: nat, lo: int, hi: int, c: Class): (k: nat)
    requires WellFormed(L, n) && 0 <= lo <= hi <= |L|
    ensures k <= hi - lo
    decreases hi - lo
  {
    if lo == hi then 0
    else Count(L, n, lo, hi - 1, c) + if PageClass(L, n, 0, hi - 1) == c then 1 else 0
  }

  lemma {:induction false} CountRun(L: Layout, n: nat, lo: int, mid: int, hi: int, run: Class)
    requires WellFormed(L, n) && 0 <= lo <= mid <= hi <= |L|
    requires forall x :: mid <= x < hi ==> PageClass(L, n, 0, x) == run
    ensures forall c :: Count(L, n, lo, hi, c) == Count(L, n, lo, mid, c) + if c == run then hi - mid else 0
    decreases hi - mid
  {
    if mid < hi {
      CountRun(L, n, lo, mid, hi - 1, run);
    }
  }

  lemma {:induction false} CountTotal(L: Layout, n: nat, lo: int, hi: int)
    requires WellFormed(L, n) && 0 <= lo <= hi <= |L|
    ensures Count(L, n, lo, hi, Act) + Count(L, n, lo, hi, Obs) + Count(L, n, lo, hi, Fr) == hi - lo
    decreases hi - lo
  {
    if lo < hi {
      CountTotal(L, n, lo, hi - 1);
    }
  }

  lemma {:induction false} CountZero(L: Layout, n: nat, lo: int, hi: int, c: Class)
    requires WellFormed(L, n) && 0 <= lo <= hi <= |L|
    ensures Count(L, n, lo, hi, c) == 0 <==> forall x :: lo <= x < hi ==> PageClass(L, n, 0, x) != c
    decreases hi - lo
  {
    if lo < hi {
      CountZero(L, n, lo, hi - 1, c);
    }
  }

  // ------------------------------------------------------ reserving and removing

  /** A run of `amount` reachable free pages that leaves the last page alone. */
  ghost predicate Eligible(L: Layout, n: nat, from: int, start: int, amount: nat)
    requires n > 0 && Tiles(L, n, from, |L|)
  {
    && from <= start
    && start + amount < |L|
    && forall x :: start <= x < start + amount ==> PageClass(L, n, from, x) == Fr
  }

  lemma FreePageIsBlank(L: Layout, n: nat, from: int, x: int)
    requires n > 0 && Tiles(L, n, from, |L|) && from <= x < |L| && PageClass(L, n, from, x) == Fr
    ensures L[x] == Blank
  {
  }

  /** Free pages run to the end of their sector, so any of them may start an extent. */
  lemma FreeTail(L: Layout, n: nat, from: int, x: int)
    requires n > 0 && Tiles(L, n, from, |L|) && from <= x < |L| && PageClass(L, n, from, x) == Fr
    ensures Tiles(L, n, from, SectorEnd(x, n)) && Unit(L, n, x) && L[x] == Blank
  {
    var u := UnitAt(L, n, from, x);
    SectorBounds(u, n);
    var b := SectorEnd(u, n) - n;
    SectorEndIn(b, n, x);
    TilesSplit(L, n, from, u, |L|);
    var e := Next(L, n, u);
    assert e == SectorEnd(u, n) == SectorEnd(x, n);
    assert Tiles(L, n, e, e);
    TilesConcat(L, n, from, u, e);
  }

  /** The end `t` of the sector in which a free run ends: free pages up to there. */
  lemma RunEnd(L: Layout, n: nat, last: int) returns (t: int)
    requires WellFormed(L, n) && 0 <= last < |L| && PageClass(L, n, 0, last) == Fr
    ensures last < t && Position(L, n, t)
    ensures forall y :: last <= y < t ==> y < |L| && L[y] == Blank && SectorEnd(y, n) == t
  {
    FreeTail(L, n, 0, last);
    t := SectorEnd(last, n);
    SectorBounds(last, n);
    assert Unit(L, n, last) && Next(L, n, last) == t;
    forall y | last <= y < t
      ensures SectorEnd(y, n) == t
    {
      SectorEndIn(t - n, n, y);
    }
  }

  /** Behind the new extent, free pages up to a common scan position `t`. */
  lemma ReserveTail(L: Layout, n: nat, start: int, amount: nat, L': Layout) returns (t: int)
    requires WellFormed(L, n) && Position(L, n, start) && amount >= 1
    requires Eligible(L, n, 0, start, amount)
    requires L' == L[start := Active(amount)]
    ensures start + amount <= t && Position(L, n, t)
    ensures Tiles(L', n, start + amount, t) && Tiles(L', n, t, |L|)
    ensures forall y :: start + amount - 1 <= y < t ==> L[y] == Blank
  {
    hide SectorEnd, PageClass;
    var e := start + amount;
    t := RunEnd(L, n, e - 1);
    TilesSplit(L, n, 0, t, |L|);
    TilesAgree(L, L', n, t, |L|);
    if e < t {
      assert Unit(L', n, e) && Next(L', n, e) == t;
    }
    assert Tiles(L', n, t, t);
  }

  /** An extent can be cut out of a run of free pages: nothing else changes. */
  lemma ReserveKeeps(L: Layout, n: nat, start: int, amount: nat, L': Layout)
    requires WellFormed(L, n) && Position(L, n, start) && amount >= 1
    requires Eligible(L, n, 0, start, amount)
    requires L' == L[start := Active(amount)]
    ensures WellFormed(L', n)
    ensures Position(L', n, start + amount)
    ensures forall x :: x <= start ==> (Position(L', n, x) <==> Position(L, n, x))
    ensures forall x :: Live(L', n, x) <==> Live(L, n, x) || x == start
  {
    hide SectorEnd;
    var e := start + amount;
    var t := ReserveTail(L, n, start, amount, L');
    TilesAgree(L, L', n, 0, start);
    assert Tiles(L', n, start, e) by {
      assert Unit(L', n, start) && Next(L', n, start) == e;
      assert Tiles(L', n, e, e);
    }
    TilesConcat(L', n, 0, start, e);
    TilesConcat(L', n, 0, e, t);
    TilesConcat(L', n, 0, t, |L|);
    forall x | x <= start
      ensures Position(L', n, x) <==> Position(L, n, x)
    {
      if Position(L, n, x) { TilesAgree(L, L', n, 0, x); }
      if Position(L', n, x) { TilesAgree(L', L, n, 0, x); }
    }
    forall x
      ensures Live(L', n, x) <==> Live(L, n, x) || x == start
    {
      ReserveLive(L, n, start, amount, L', t, x);
    }
  }

  lemma ReserveLive(L: Layout, n: nat, start: int, amount: nat, L': Layout, t: int, x: int)
    requires WellFormed(L, n) && WellFormed(L', n) && amount >= 1
    requires Eligible(L, n, 0, start, amount) && L' == L[start := Active(amount)]
    requires Position(L, n, start) && Position(L', n, start)
    requires start + amount <= t && Position(L, n, t) && Position(L', n, t)
    requires forall y :: start + amount - 1 <= y < t ==> L[y] == Blank
    ensures Live(L', n, x) <==> Live(L, n, x) || x == start
  {
    if x < start {
      if Live(L, n, x) { TilesAgree(L, L', n, 0, x); }
      if Live(L', n, x) { TilesAgree(L', L, n, 0, x); }
    } else if start < x < t {
      assert !Live(L, n, x) by {
        if x < start + amount { FreePageIsBlank(L, n, 0, x); }
      }
      assert L'[x] == Blank by {
        if x < start + amount { FreePageIsBlank(L, n, 0, x); }
      }
    } else if t <= x {
      if Live(L, n, x) {
        TilesSplit(L, n, 0, t, x);
        TilesAgree(L, L', n, t, x);
        TilesConcat(L', n, 0, t, x);
      }
      if Live(L', n, x) {
        TilesSplit(L', n, 0, t, x);
        TilesAgree(L', L, n, t, x);
        TilesConcat(L, n, 0, t, x);
      }
    } else {
      FreePageIsBlank(L, n, 0, start);
    }
  }

  /** Two layouts that differ only in what one live extent says about its own pages,
      with the same span, have the same scan. */
  lemma SameScan(L: Layout, L': Layout, n: nat, p: int, x: int)
    requires WellFormed(L, n) && Live(L, n, p) && |L'| == |L|
    requires L'[p].Active? || L'[p].Obsolete?
    requires L'[p].span == L[p].span
    requires forall y :: 0 <= y < |L| && !(p <= y < p + L[p].span) ==> L'[y] == L[y]
    ensures Position(L', n, x) <==> Position(L, n, x)
    ensures WellFormed(L', n)
  {
    StepPosition(L, n, p);
    var e := Next(L, n, p);
    TilesAgree(L, L', n, 0, p);
    assert Unit(L', n, p) && Next(L', n, p) == e;
    TilesAgree(L, L', n, e, |L|);
    assert Tiles(L', n, p, |L|);
    TilesConcat(L', n, 0, p, |L|);
    if x <= p {
      if Position(L, n, x) { TilesAgree(L, L', n, 0, x); }
      if Position(L', n, x) { TilesAgree(L', L, n, 0, x); }
    } else {
      if Position(L, n, x) {
        NoPositionInside(L, n, p, x);
        TilesAgree(L, L', n, e, x);
        assert Tiles(L', n, p, x);
        TilesConcat(L', n, 0, p, x);
      }
      if Position(L', n, x) {
        NoPositionInside(L', n, p, x);
        TilesAgree(L', L, n, e, x);
        assert Tiles(L, n, p, x);
        TilesConcat(L, n, 0, p, x);
      }
    }
  }
}
