/** What one greedy garbage-collection pass does to a page layout, stated page by
    page, and why the scan survives it. */
module Collecting {
  import opened Arithmetic
  import opened Layouts

  /** A sector is erased when it holds no active page and at least one obsolete one. */
  ghost predicate Erasable(L: Layout, n: nat, b: int)
    requires WellFormed(L, n)
  {
    && 0 <= b && b + n <= |L|
    && (forall x :: b <= x < b + n ==> PageClass(L, n, 0, x) != Act)
    && (exists x :: b <= x < b + n && PageClass(L, n, 0, x) == Obs)
  }

  /** Page `q`, in the sector starting at `b`, is the tail of an extent whose first
      sector was erased while this one is kept. */
  ghost predicate CutOff(L: Layout, n: nat, b: int, q: int)
    requires WellFormed(L, n)
  {
    && 0 < b <= q < |L|
    && !Erasable(L, n, b)
    && Erasable(L, n, b - n)
    && q < Resume(L, n, b)
  }

  function SectorStart(q: int, n: nat): int
    requires n > 0
  {
    SectorEnd(q, n) - n
  }

  ghost function CollectedPage(L: Layout, n: nat, q: int): Page
    requires WellFormed(L, n) && 0 <= q < |L|
  {
    var b := SectorStart(q, n);
    if Erasable(L, n, b) then Blank
    else if CutOff(L, n, b, q) then Isolated
    else L[q]
  }

  ghost function Collected(L: Layout, n: nat): (G: Layout)
    requires WellFormed(L, n)
    ensures |G| == |L|
    ensures forall q :: 0 <= q < |L| ==> G[q] == CollectedPage(L, n, q)
  {
    seq(|L|, q requires 0 <= q < |L| => CollectedPage(L, n, q))
  }

  lemma ErasedSectorIsBlank(L: Layout, n: nat, b: int)
    requires WellFormed(L, n) && Aligned(b, n) && Erasable(L, n, b)
    ensures forall q :: b <= q < b + n ==> Collected(L, n)[q] == Blank
    ensures forall q :: b <= q < b + n ==> SectorEnd(q, n) == b + n
  {
    forall q | b <= q < b + n
      ensures Collected(L, n)[q] == Blank && SectorEnd(q, n) == b + n
    {
      SectorEndIn(b, n, q);
    }
  }

  lemma ErasedSectorTiles(L: Layout, n: nat, b: int, p: int)
    requires WellFormed(L, n) && Aligned(b, n) && Erasable(L, n, b) && b <= p < b + n
    ensures Tiles(Collected(L, n), n, p, b + n)
  {
    ErasedSectorIsBlank(L, n, b);
    hide SectorEnd;
    var G := Collected(L, n);
    assert Unit(G, n, p) && Next(G, n, p) == b + n;
    assert Tiles(G, n, b + n, b + n);
  }

  lemma {:induction false} IsolatedRun(G: Layout, n: nat, a: int, b: int)
    requires n > 0 && 0 <= a <= b <= |G|
    requires forall q :: a <= q < b ==> G[q] == Isolated
    ensures Tiles(G, n, a, b)
    decreases b - a
  {
    if a < b {
      IsolatedRun(G, n, a + 1, b);
    }
  }

  /** A sector that an obsolete extent fills is erased in its turn. */
  lemma FilledSector(L: Layout, n: nat, c: int, e: int)
    requires WellFormed(L, n) && 0 < c < e <= |L| && Aligned(c, n) && c + n <= e
    requires Resume(L, n, c) == e && PageClass(L, n, 0, c) == Obs
    ensures Erasable(L, n, c) && Tiles(Collected(L, n), n, c, c + n)
    ensures Aligned(c + n, n) && Resume(L, n, c + n) == e
    ensures c + n < e ==> PageClass(L, n, 0, c + n) == Obs
  {
    TailClass(L, n, c, e);
    assert forall x :: c <= x < e ==> PageClass(L, n, 0, x) == Obs;
    ErasedSectorTiles(L, n, c, c);
    MultipleStep(c, n);
    ResumeLater(L, n, c, c + n, e);
  }

  /** The last sector an obsolete extent reaches, when its previous sector was erased. */
  lemma LastSector(L: Layout, n: nat, c: int, e: int)
    requires WellFormed(L, n) && 0 < c < e < |L| && Aligned(c, n) && e < c + n
    requires Erasable(L, n, c - n) && Resume(L, n, c) == e
    ensures SectorEnd(e, n) == c + n
    ensures Tiles(Collected(L, n), n, c, e) || (Erasable(L, n, c) && Tiles(Collected(L, n), n, c, c + n))
  {
    SectorEndIn(c, n, e);
    if Erasable(L, n, c) {
      ErasedSectorTiles(L, n, c, c);
    } else {
      forall q | c <= q < e
        ensures Collected(L, n)[q] == Isolated
      {
        SectorEndIn(c, n, q);
      }
      IsolatedRun(Collected(L, n), n, c, e);
    }
  }

  /** Behind an erased sector the collected layout is walkable from the next sector
      boundary `c` on, through the rest of an extent that ends at `e`. */
  lemma {:induction false} CutExtent(L: Layout, n: nat, c: int, e: int)
    requires WellFormed(L, n) && 0 < c <= e <= |L| && Aligned(c, n)
    requires Erasable(L, n, c - n) && Resume(L, n, c) == e
    requires c < e ==> PageClass(L, n, 0, c) == Obs
    ensures Tiles(Collected(L, n), n, c, e)
      || (e < |L| && Erasable(L, n, SectorStart(e, n)) && Tiles(Collected(L, n), n, c, SectorEnd(e, n)))
    decreases e - c
  {
    hide SectorEnd, Erasable, Tiles;
    var G := Collected(L, n);
    if c == e {
      assert Tiles(G, n, e, e) by { IsolatedRun(G, n, e, e); }
    } else if c + n <= e {
      FilledSector(L, n, c, e);
      CutExtent(L, n, c + n, e);
      if Tiles(G, n, c + n, e) {
        TilesConcat(G, n, c, c + n, e);
      } else {
        TilesConcat(G, n, c, c + n, SectorEnd(e, n));
      }
    } else {
      MultipleGap(c, |L|, n);
      LastSector(L, n, c, e);
    }
  }

  /** Every page between a boundary and the end of the unit that spills over it has
      the class of that unit. */
  lemma TailClass(L: Layout, n: nat, c: int, e: int)
    requires WellFormed(L, n) && 0 < c < e <= |L| && Resume(L, n, c) == e
    ensures forall x :: c - 1 <= x < e ==> PageClass(L, n, 0, x) == PageClass(L, n, 0, c - 1)
  {
    UnitClass(L, n, 0, UnitAt(L, n, 0, c - 1));
  }

  lemma ResumeLater(L: Layout, n: nat, c: int, d: int, e: int)
    requires WellFormed(L, n) && 0 <= c <= d <= e <= |L| && Resume(L, n, c) == e
    ensures Resume(L, n, d) == e
  {
    ResumeIsFirst(L, n, c);
    ResumeIsFirst(L, n, d);
  }

  lemma ResumeMonotone(L: Layout, n: nat, b: int, d: int)
    requires WellFormed(L, n) && 0 <= b <= d <= |L|
    ensures Resume(L, n, b) <= Resume(L, n, d)
  {
    ResumeIsFirst(L, n, b);
    ResumeIsFirst(L, n, d);
  }

  /** Where the scan of the collected layout stands when the old scan stands at `p`. */
  ghost predicate Settled(L: Layout, n: nat, p: int)
    requires WellFormed(L, n)
  {
    && 0 <= p <= |L|
    && (|| Tiles(Collected(L, n), n, 0, p)
        || (p < |L| && Erasable(L, n, SectorStart(p, n)) && Tiles(Collected(L, n), n, 0, SectorEnd(p, n))))
  }

  lemma KeptPage(L: Layout, n: nat, p: int)
    requires WellFormed(L, n) && Position(L, n, p) && p < |L|
    requires !Erasable(L, n, SectorStart(p, n))
    ensures forall q :: p <= q < SectorEnd(p, n) && q < |L| ==> Collected(L, n)[q] == L[q]
  {
    hide Erasable, CutOff;
    SectorBounds(p, n);
    var b := SectorStart(p, n);
    var sp := SectorEnd(p, n);
    forall q | p <= q < sp && q < |L|
      ensures Collected(L, n)[q] == L[q]
    {
      SectorEndIn(b, n, q);
      NotCutOff(L, n, p, b, q);
    }
  }

  /** Nothing is cut off behind a scan position in its sector. */
  lemma NotCutOff(L: Layout, n: nat, p: int, b: int, q: int)
    requires WellFormed(L, n) && Position(L, n, p) && b <= p <= q < |L|
    ensures !CutOff(L, n, b, q)
  {
    hide Erasable, Tiles, Resume;
    if 0 < b {
      ResumeIsFirst(L, n, b);
    }
  }

  lemma SettledStep(L: Layout, n: nat, p: int)
    requires WellFormed(L, n) && Position(L, n, p) && p < |L| && Settled(L, n, p)
    ensures Position(L, n, Next(L, n, p)) && Settled(L, n, Next(L, n, p))
  {
    hide SectorEnd, Erasable, Collected, PageClass, Tiles, Aligned;
    StepPosition(L, n, p);
    SectorBounds(p, n);
    if !Erasable(L, n, SectorStart(p, n)) {
      SettledKept(L, n, p);
    } else {
      SettledErased(L, n, p);
    }
  }

  /** A unit that starts in a kept sector stays where it is. */
  lemma SettledKept(L: Layout, n: nat, p: int)
    requires WellFormed(L, n) && Position(L, n, p) && p < |L| && Settled(L, n, p)
    requires Unit(L, n, p) && !Erasable(L, n, SectorStart(p, n))
    ensures Settled(L, n, Next(L, n, p))
  {
    hide Erasable, Collected, PageClass, Aligned;
    var G, e := Collected(L, n), Next(L, n, p);
    KeptPage(L, n, p);
    SectorBounds(p, n);
    hide SectorEnd;
    assert Tiles(G, n, e, e);
    assert Unit(G, n, p) && Next(G, n, p) == e;
    TilesConcat(G, n, 0, p, e);
  }

  /** A unit that starts in an erased sector ends there, or is walked behind it. */
  lemma SettledErased(L: Layout, n: nat, p: int)
    requires WellFormed(L, n) && Position(L, n, p) && p < |L| && Settled(L, n, p)
    requires Unit(L, n, p) && Erasable(L, n, SectorStart(p, n))
    requires Aligned(SectorStart(p, n), n) && Aligned(SectorEnd(p, n), n) && p < SectorEnd(p, n)
    requires SectorStart(p, n) <= p
    ensures Settled(L, n, Next(L, n, p))
  {
    hide SectorEnd, Collected, PageClass, Tiles, Aligned;
    var G, e := Collected(L, n), Next(L, n, p);
    var b, c := SectorStart(p, n), SectorEnd(p, n);
    if Tiles(G, n, 0, p) {
      ErasedSectorTiles(L, n, b, p);
      TilesConcat(G, n, 0, p, c);
    }
    if e < c {
      SectorEndIn(b, n, e);
    } else {
      SpillingTail(L, n, p, c, e);
      if Tiles(G, n, c, e) {
        TilesConcat(G, n, 0, c, e);
      } else {
        TilesConcat(G, n, 0, c, SectorEnd(e, n));
      }
    }
  }

  lemma SpillingTail(L: Layout, n: nat, p: int, c: int, e: int)
    requires WellFormed(L, n) && Position(L, n, p) && p < |L| && Unit(L, n, p) && e == Next(L, n, p)
    requires p < c <= e && c == SectorEnd(p, n) && Aligned(c, n) && Erasable(L, n, c - n)
    ensures Tiles(Collected(L, n), n, c, e)
      || (e < |L| && Erasable(L, n, SectorStart(e, n)) && Tiles(Collected(L, n), n, c, SectorEnd(e, n)))
  {
    hide SectorEnd, Collected, Aligned;
    UnitClass(L, n, 0, p);
    ResumeLaterThan(L, n, p, c, e);
    assert PageClass(L, n, 0, p) != Act;
    assert c < e ==> PageClass(L, n, 0, c) == ClassOf(L[p]);
    if c < e {
      SpillClass(L, n, p);
    }
    CutExtent(L, n, c, e);
  }

  /** Only an extent crosses the end of a sector. */
  lemma SpillClass(L: Layout, n: nat, p: int)
    requires n > 0 && 0 <= p < |L| && Next(L, n, p) != SectorEnd(p, n)
    ensures ClassOf(L[p]) != Fr
  {
  }

  lemma ResumeLaterThan(L: Layout, n: nat, p: int, c: int, e: int)
    requires WellFormed(L, n) && Position(L, n, p) && p < |L| && Next(L, n, p) == e
    requires p < c <= e <= |L|
    ensures Resume(L, n, c) == e
  {
    StepPosition(L, n, p);
    UnitAtIs(L, n, 0, p, c - 1);
  }

  lemma {:induction false} SettledFrom(L: Layout, n: nat, p: int, x: int)
    requires WellFormed(L, n) && Position(L, n, p) && Settled(L, n, p)
    requires Tiles(L, n, p, x)
    ensures Settled(L, n, x)
    decreases x - p
  {
    if p < x {
      SettledStep(L, n, p);
      SettledFrom(L, n, Next(L, n, p), x);
    }
  }

  /** The scan of the collected layout reaches the end of the device. */
  lemma CollectedWellFormed(L: Layout, n: nat)
    requires WellFormed(L, n)
    ensures WellFormed(Collected(L, n), n)
  {
    SettledFrom(L, n, 0, |L|);
  }

  /** No page of an active extent is erased or isolated. */
  lemma ActivePagesUntouched(L: Layout, n: nat, x: int)
    requires WellFormed(L, n) && 0 <= x < |L| && PageClass(L, n, 0, x) == Act
    ensures !Erasable(L, n, SectorStart(x, n)) && !CutOff(L, n, SectorStart(x, n), x)
    ensures CollectedPage(L, n, x) == L[x]
  {
    SectorBounds(x, n);
    var b := SectorStart(x, n);
    assert b <= x < b + n;
    assert !Erasable(L, n, b);
    if CutOff(L, n, b, x) {
      TailClass(L, n, b, Resume(L, n, b));
      assert false;
    }
  }

  lemma LiveSurvives(L: Layout, n: nat, x: int)
    requires WellFormed(L, n) && Live(L, n, x)
    ensures Live(Collected(L, n), n, x) && Collected(L, n)[x] == L[x]
  {
    UnitClass(L, n, 0, x);
    ActivePagesUntouched(L, n, x);
    SettledFrom(L, n, 0, x);
  }

  lemma NothingNewLive(L: Layout, n: nat, x: int)
    requires WellFormed(L, n) && Live(Collected(L, n), n, x)
    ensures Live(L, n, x)
  {
    var G := Collected(L, n);
    var b := SectorStart(x, n);
    assert G[x] == L[x] && !Erasable(L, n, b) && !CutOff(L, n, b, x);
    var u := UnitAt(L, n, 0, x);
    if u < x {
      SettledFrom(L, n, 0, u);
      UnitClass(L, n, 0, u);
      SectorBounds(u, n);
      SectorBounds(x, n);
      if !Erasable(L, n, SectorStart(u, n)) {
        KeptPage(L, n, u);
        NoPositionInside(G, n, u, x);
      } else {
        LiveInsideErasedExtent(L, n, u, x);
      }
    }
  }

  lemma LiveInsideErasedExtent(L: Layout, n: nat, u: int, x: int)
    requires WellFormed(L, n) && Position(L, n, u) && u < x < |L| && Unit(L, n, u) && x < Next(L, n, u)
    requires Erasable(L, n, SectorStart(u, n))
    ensures Erasable(L, n, SectorStart(x, n)) || CutOff(L, n, SectorStart(x, n), x)
  {
    UnitClass(L, n, 0, u);
    SectorBounds(u, n);
    SectorBounds(x, n);
    var b := SectorStart(x, n);
    MultipleGap(b, |L|, n);
    MultipleStep(b, n);
    if b <= u {
      SectorEndIn(b, n, u);
    } else {
      MultipleGap(SectorStart(u, n), b, n);
      assert PageClass(L, n, 0, u) == Obs by {
        SectorEndPastFree(L, n, u, x);
      }
      if SectorStart(u, n) < b - n {
        MultipleGap(SectorStart(u, n), b - n, n);
        assert forall y :: b - n <= y < b ==> PageClass(L, n, 0, y) == Obs;
        assert PageClass(L, n, 0, b - n) == Obs;
      }
      assert Erasable(L, n, b - n);
      ResumeLaterThan(L, n, u, b, Next(L, n, u));
    }
  }

  lemma SectorEndPastFree(L: Layout, n: nat, u: int, x: int)
    requires WellFormed(L, n) && Position(L, n, u) && u < x < |L| && Unit(L, n, u) && x < Next(L, n, u)
    requires SectorEnd(u, n) <= x
    requires Erasable(L, n, SectorStart(u, n))
    ensures PageClass(L, n, 0, u) == Obs
  {
    UnitClass(L, n, 0, u);
    SectorBounds(u, n);
  }

  /** One greedy pass keeps the layout well formed, and a quick-skip scan from page 0
      finds exactly the active extents it found before. */
  lemma PassKeepsExtents(L: Layout, n: nat)
    requires WellFormed(L, n)
    ensures WellFormed(Collected(L, n), n)
    ensures forall x :: Live(Collected(L, n), n, x) <==> Live(L, n, x)
    ensures forall x :: Live(L, n, x) ==> Collected(L, n)[x] == L[x]
  {
    CollectedWellFormed(L, n);
    forall x
      ensures Live(Collected(L, n), n, x) <==> Live(L, n, x)
      ensures Live(L, n, x) ==> Collected(L, n)[x] == L[x]
    {
      if Live(L, n, x) {
        LiveSurvives(L, n, x);
      }
      if Live(Collected(L, n), n, x) {
        NothingNewLive(L, n, x);
      }
    }
  }

  // ------------------------------------------------------------ the next_free hint

  /** The first page of the lowest sector a pass erases, from sector start `b` on; the
      device size when there is none. */
  ghost function Lowest(L: Layout, n: nat, b: int): (low: int)
    requires WellFormed(L, n) && 0 <= b <= |L| && Aligned(b, n)
    ensures b <= low <= |L| && Aligned(low, n)
    ensures low < |L| ==> Erasable(L, n, low)
    ensures forall c :: b <= c < low && Aligned(c, n) ==> !Erasable(L, n, c)
    decreases |L| - b
  {
    if b == |L| then b
    else if Erasable(L, n, b) then b
    else
      MultipleGap(b, |L|, n);
      MultipleStep(b, n);
      BetweenMultiples(b, n);
      Lowest(L, n, b + n)
  }

  lemma BetweenMultiples(b: int, n: nat)
    requires n > 0 && Aligned(b, n)
    ensures forall c :: b < c < b + n ==> !Aligned(c, n)
  {
    forall c | b < c < b + n
      ensures !Aligned(c, n)
    {
      ModOffset(b, n, c - b);
    }
  }

  ghost function LowestErased(L: Layout, n: nat): (low: int)
    requires WellFormed(L, n)
    ensures 0 <= low <= |L|
  {
    Lowest(L, n, 0)
  }

  ghost function CollectedNextFree(L: Layout, n: nat, nextFree: int): int
    requires WellFormed(L, n)
  {
    var low := LowestErased(L, n);
    if low < |L| && low < nextFree then low else nextFree
  }

  /** A sector without active pages and with something to reclaim. */
  ghost predicate Reclaimable(L: Layout, n: nat, b: int)
    requires WellFormed(L, n)
  {
    && 0 <= b && b + n <= |L| && Aligned(b, n)
    && (forall x :: b <= x < b + n ==> PageClass(L, n, 0, x) != Act)
    && (exists x :: b <= x < b + n && PageClass(L, n, 0, x) == Obs)
  }

  /** The pass moves the hint to the lowest such sector, if that lies below it, and leaves
      it alone otherwise. */
  lemma HintMovesExactly(L: Layout, n: nat, nextFree: int)
    requires WellFormed(L, n)
    ensures var h := CollectedNextFree(L, n, nextFree);
      && (h != nextFree ==> h < nextFree && Reclaimable(L, n, h))
      && forall b :: Reclaimable(L, n, b) ==> h <= b
  {
    hide PageClass, Tiles;
  }

  /** And every page of such a sector is blank afterwards. */
  lemma PassReclaims(L: Layout, n: nat, b: int, q: int)
    requires WellFormed(L, n) && Reclaimable(L, n, b) && b <= q < b + n
    ensures Collected(L, n)[q] == Blank
  {
    hide PageClass, Tiles;
    ErasedSectorIsBlank(L, n, b);
  }

  /** Can be decided before the pass: the hint will not move, or it moves to a page
      where the old scan stops. It fails exactly when an obsolete extent starts in a
      kept sector and runs into the lowest erased one. */
  ghost predicate PassIsSafe(L: Layout, n: nat, nextFree: int)
    requires WellFormed(L, n)
  {
    var low := LowestErased(L, n);
    low < |L| && low < nextFree ==> Position(L, n, low)
  }

  lemma BelowLowest(L: Layout, n: nat, q: int)
    requires WellFormed(L, n) && 0 <= q < |L| && q < LowestErased(L, n)
    ensures CollectedPage(L, n, q) == L[q]
  {
    SectorBounds(q, n);
    MultipleStep(SectorStart(q, n), n);
  }

  /** After a pass the hint is a scan position exactly when the pass was safe. */
  lemma HintStaysReachable(L: Layout, n: nat, nextFree: int)
    requires WellFormed(L, n) && Position(L, n, nextFree)
    ensures Position(Collected(L, n), n, CollectedNextFree(L, n, nextFree)) <==> PassIsSafe(L, n, nextFree)
  {
    var G := Collected(L, n);
    var low, h := LowestErased(L, n), CollectedNextFree(L, n, nextFree);
    if low < |L| || h <= low {
      forall x | 0 <= x < h && x < |L|
        ensures G[x] == L[x]
      {
        BelowLowest(L, n, x);
      }
    }
    if Position(L, n, h) {
      TilesAgree(L, G, n, 0, h);
    }
    if Position(G, n, h) {
      TilesAgree(G, L, n, 0, h);
    }
  }

  /** Safe or not, the scan from the new hint meets the scan from page 0, before any
      active page, and runs to the end of the device. */
  lemma HintMeets(L: Layout, n: nat, nextFree: int) returns (f: int)
    requires WellFormed(L, n) && Position(L, n, nextFree)
    ensures var G, h := Collected(L, n), CollectedNextFree(L, n, nextFree);
      && 0 <= h <= f <= |L| && Position(G, n, f) && Tiles(G, n, h, f) && Tiles(G, n, f, |L|)
      && forall x :: h <= x < f ==> PageClass(L, n, 0, x) != Act
  {
    hide SectorEnd, Collected, PageClass, Aligned;
    var G, h := Collected(L, n), CollectedNextFree(L, n, nextFree);
    CollectedWellFormed(L, n);
    HintStaysReachable(L, n, nextFree);
    if Position(G, n, h) {
      f := h;
    } else {
      f := ErasedTailMeets(L, n, h);
    }
    TilesSplit(G, n, 0, f, |L|);
  }

  lemma HintWalks(L: Layout, n: nat, nextFree: int)
    requires WellFormed(L, n) && Position(L, n, nextFree)
    ensures Tiles(Collected(L, n), n, CollectedNextFree(L, n, nextFree), |L|)
  {
    var f := HintMeets(L, n, nextFree);
    TilesConcat(Collected(L, n), n, CollectedNextFree(L, n, nextFree), f, |L|);
  }

  /** What the scan from the new hint finds free is no page of an active extent. */
  lemma HintFindsNoActive(L: Layout, n: nat, nextFree: int, x: int)
    requires WellFormed(L, n) && Position(L, n, nextFree)
    requires var G, h := Collected(L, n), CollectedNextFree(L, n, nextFree);
      && Tiles(G, n, h, |L|) && h <= x < |L| && PageClass(G, n, h, x) == Fr
    ensures 0 <= x && PageClass(L, n, 0, x) != Act
  {
    var G, h := Collected(L, n), CollectedNextFree(L, n, nextFree);
    var f := HintMeets(L, n, nextFree);
    if f <= x && PageClass(L, n, 0, x) == Act {
      var u := UnitAt(L, n, 0, x);
      LiveSurvives(L, n, u);
      if u < f {
        NoPositionInside(G, n, u, f);
      } else {
        TilesSplit(G, n, 0, f, u);
        TilesConcat(G, n, h, f, u);
        UnitClass(G, n, h, u);
      }
    }
  }

  lemma ErasedTailMeets(L: Layout, n: nat, low: int) returns (f: int)
    requires WellFormed(L, n) && Aligned(low, n) && 0 <= low && low + n <= |L|
    requires Erasable(L, n, low) && !Position(L, n, low)
    ensures low < f <= |L| && Position(Collected(L, n), n, f) && Tiles(Collected(L, n), n, low, f)
    ensures forall x :: low <= x < f ==> PageClass(L, n, 0, x) != Act
  {
    var u := UnitAt(L, n, 0, low);
    hide SectorEnd, Collected, PageClass, Aligned, Tiles;
    var G := Collected(L, n);
    var e, c := Next(L, n, u), low + n;
    assert u < low;
    StepPosition(L, n, u);
    SettledStarts(L, n);
    SettledFrom(L, n, 0, e);
    ErasedSectorTiles(L, n, low, low);
    MultipleStep(low, n);
    if e < c {
      EndInErasedSector(L, n, low, e);
      f := c;
    } else {
      ResumeLaterThan(L, n, u, c, e);
      SpillIsObsolete(L, n, u, low, c);
      CutExtent(L, n, c, e);
      f := JoinAfter(L, n, c, e);
      TilesConcat(G, n, low, c, f);
    }
  }

  lemma SettledStarts(L: Layout, n: nat)
    requires WellFormed(L, n)
    ensures Position(L, n, 0) && Settled(L, n, 0)
  {
    hide Erasable, Collected;
  }

  lemma EndInErasedSector(L: Layout, n: nat, low: int, e: int)
    requires WellFormed(L, n) && Aligned(low, n) && Erasable(L, n, low) && 0 <= low <= e < low + n <= |L|
    requires Settled(L, n, e)
    ensures Position(Collected(L, n), n, low + n)
  {
    hide SectorEnd, Erasable, Collected, PageClass, Tiles;
    var G, c := Collected(L, n), low + n;
    SectorEndIn(low, n, e);
    ErasedSectorTiles(L, n, low, e);
    if Tiles(G, n, 0, e) {
      TilesConcat(G, n, 0, e, c);
    }
  }

  lemma SpillIsObsolete(L: Layout, n: nat, u: int, low: int, c: int)
    requires WellFormed(L, n) && Position(L, n, u) && Unit(L, n, u)
    requires u < low < c <= Next(L, n, u) && c == low + n && Erasable(L, n, low)
    ensures c < Next(L, n, u) ==> PageClass(L, n, 0, c) == Obs
    ensures forall x :: low <= x < Next(L, n, u) ==> PageClass(L, n, 0, x) != Act
  {
    UnitClass(L, n, 0, u);
    assert PageClass(L, n, 0, low) != Act;
    SectorBounds(u, n);
  }

  /** Two walks of the collected layout that pass the end of the same old extent meet. */
  lemma JoinAfter(L: Layout, n: nat, c: int, e: int) returns (f: int)
    requires WellFormed(L, n) && 0 <= c <= e <= |L|
    requires Settled(L, n, e)
    requires Tiles(Collected(L, n), n, c, e)
      || (e < |L| && Erasable(L, n, SectorStart(e, n)) && Tiles(Collected(L, n), n, c, SectorEnd(e, n)))
    ensures e <= f <= |L| && Position(Collected(L, n), n, f) && Tiles(Collected(L, n), n, c, f)
    ensures forall x :: e <= x < f ==> PageClass(L, n, 0, x) != Act
  {
    hide SectorEnd, Collected, PageClass, Aligned, Tiles;
    var G := Collected(L, n);
    if e < |L| && Erasable(L, n, SectorStart(e, n)) {
      f := SectorEnd(e, n);
      SectorBounds(e, n);
      ErasedSectorTiles(L, n, f - n, e);
      if Tiles(G, n, 0, e) { TilesConcat(G, n, 0, e, f); }
      if Tiles(G, n, c, e) { TilesConcat(G, n, c, e, f); }
    } else {
      f := e;
    }
  }

  /** No page the scan can reach as free lies below the hint. */
  ghost predicate NoFreeBelow(L: Layout, n: nat, hint: int)
    requires WellFormed(L, n)
  {
    forall x :: 0 <= x < hint && x < |L| ==> PageClass(L, n, 0, x) != Fr
  }

  lemma SameScanHint(L: Layout, L': Layout, n: nat, p: int, hint: int)
    requires WellFormed(L, n) && WellFormed(L', n) && Live(L, n, p) && |L'| == |L|
    requires L'[p].Active? || L'[p].Obsolete?
    requires forall y :: 0 <= y < |L| && !(p <= y < p + L[p].span) ==> L'[y] == L[y]
    requires forall x :: Position(L', n, x) <==> Position(L, n, x)
    requires NoFreeBelow(L, n, hint)
    ensures NoFreeBelow(L', n, hint)
  {
    forall x | 0 <= x < hint && x < |L'|
      ensures PageClass(L', n, 0, x) != Fr
    {
      var u := UnitAt(L', n, 0, x);
      assert Position(L', n, u);
      if u != p {
        if p < u {
          NoPositionInside(L, n, p, u);
        }
        assert L'[u] == L[u];
        UnitClass(L, n, 0, u);
        assert PageClass(L, n, 0, x) != Fr;
      }
    }
  }

  lemma PassKeepsNoFreeBelow(L: Layout, n: nat, hint: int)
    requires WellFormed(L, n) && Position(L, n, hint) && NoFreeBelow(L, n, hint)
    ensures WellFormed(Collected(L, n), n)
    ensures NoFreeBelow(Collected(L, n), n, CollectedNextFree(L, n, hint))
  {
    CollectedWellFormed(L, n);
    var h := CollectedNextFree(L, n, hint);
    forall x | 0 <= x < h && x < |L|
      ensures PageClass(Collected(L, n), n, 0, x) != Fr
    {
      PassKeepsClassBelow(L, n, h, x);
    }
  }

  lemma PassKeepsClassBelow(L: Layout, n: nat, h: int, x: int)
    requires WellFormed(L, n) && WellFormed(Collected(L, n), n)
    requires 0 <= x < h && x < |L| && h <= LowestErased(L, n)
    ensures PageClass(Collected(L, n), n, 0, x) == PageClass(L, n, 0, x)
  {
    hide SectorEnd, CollectedPage;
    var G := Collected(L, n);
    forall y | 0 <= y <= x
      ensures G[y] == L[y]
    {
      BelowLowest(L, n, y);
    }
    var u := UnitAt(G, n, 0, x);
    TilesAgree(G, L, n, 0, u);
    UnitClass(L, n, 0, u);
  }

  /** A freshly formatted device: every sector is one free unit, and nothing is live. */
  lemma BlankLayout(L: Layout, n: nat)
    requires n > 0 && Aligned(|L|, n) && forall p :: 0 <= p < |L| ==> L[p] == Blank
    ensures WellFormed(L, n) && Position(L, n, 0) && NoFreeBelow(L, n, 0)
    ensures forall p :: !Live(L, n, p)
  {
    BlankTiles(L, n, 0);
  }

  lemma {:induction false} BlankTiles(L: Layout, n: nat, p: int)
    requires n > 0 && Aligned(|L|, n) && 0 <= p <= |L| && Aligned(p, n)
    requires forall p :: 0 <= p < |L| ==> L[p] == Blank
    ensures Tiles(L, n, p, |L|)
    decreases |L| - p
  {
    if p < |L| {
      MultipleGap(p, |L|, n);
      MultipleStep(p, n);
      SectorEndIn(p, n, p);
      BlankTiles(L, n, p + n);
      assert Unit(L, n, p) && Next(L, n, p) == p + n;
    }
  }
}
