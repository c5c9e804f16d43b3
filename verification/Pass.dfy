/** One garbage-collection pass as the collector sees it: sector by sector, with the
    classifier's running state, against the page-by-page account of the layout. */
module Passes {
  import opened Arithmetic
  import opened Layouts
  import opened Collecting

  /** The spill `skip` of earlier sectors into the sector starting at `b`, and whether
      it belongs to an active extent. */
  ghost predicate PassState(L: Layout, n: nat, b: int, skip: int, active: bool) {
    && WellFormed(L, n)
    && 0 <= b <= |L|
    && Aligned(b, n)
    && skip == Resume(L, n, b) - b
    && (skip > 0 ==> PageClass(L, n, 0, b) == if active then Act else Obs)
  }

  /** How many pages of the next sector to isolate when this sector is erased: the
      spill of an obsolete extent, unless it fills the next sector. */
  function IsolationCount(n: nat, skip: int, active: bool): int {
    if active || skip >= n then 0 else skip
  }

  ghost predicate SectorStats(L: Layout, n: nat, b: int, active: int, obsolete: int, free: int) {
    && WellFormed(L, n)
    && 0 <= b && b + n <= |L|
    && active == Count(L, n, b, b + n, Act)
    && obsolete == Count(L, n, b, b + n, Obs)
    && free == Count(L, n, b, b + n, Fr)
  }

  /** A free run never spills over a sector boundary. */
  lemma SpillClass(L: Layout, n: nat, b: int)
    requires WellFormed(L, n) && 0 < b < |L| && Aligned(b, n) && Resume(L, n, b) > b
    ensures PageClass(L, n, 0, b) != Fr
    ensures forall x :: b <= x < Resume(L, n, b) ==> PageClass(L, n, 0, x) == PageClass(L, n, 0, b)
  {
    var u := UnitAt(L, n, 0, b - 1);
    UnitClass(L, n, 0, u);
    if L[u] == Blank {
      SectorBounds(u, n);
      MultipleGap(SectorEnd(u, n) - n, b, n);
    }
  }

  lemma CoveredSector(L: Layout, n: nat, b: int, skip: int, active: bool)
    requires PassState(L, n, b, skip, active) && skip >= n
    ensures SectorStats(L, n, b, if active then n else 0, if active then 0 else n, 0)
    ensures PassState(L, n, b + n, skip - n, active)
  {
    SpillClass(L, n, b);
    CountRun(L, n, b, b, b + n, if active then Act else Obs);
    assert forall c :: Count(L, n, b, b, c) == 0;
    MultipleStep(b, n);
    ResumeLater(L, n, b, b + n, Resume(L, n, b));
  }

  /** The classifier's state while it walks one sector: everything before `page` is
      counted, including what an extent puts beyond the sector. */
  ghost predicate Walked(L: Layout, n: nat, b: int, page: int, active: int, obsolete: int, free: int, la: bool) {
    && WellFormed(L, n)
    && 0 <= b < |L| && Aligned(b, n) && b + n <= |L|
    && b <= page <= |L| && Position(L, n, page)
    && free == 0
    && active == Count(L, n, b, page, Act)
    && obsolete == Count(L, n, b, page, Obs)
    && active + obsolete == page - b
    && (page > b + n ==>
          && Resume(L, n, b + n) == page
          && forall x :: b + n <= x < page ==> PageClass(L, n, 0, x) == if la then Act else Obs)
  }

  lemma WalkStarts(L: Layout, n: nat, b: int, skip: int, la: bool)
    requires PassState(L, n, b, skip, la) && b + n <= |L| && skip < n
    ensures Walked(L, n, b, b + skip, if la then skip else 0, if la then 0 else skip, 0, la)
  {
    ResumeIsFirst(L, n, b);
    if skip > 0 {
      SpillClass(L, n, b);
      CountRun(L, n, b, b, b + skip, if la then Act else Obs);
    }
    assert forall c :: Count(L, n, b, b, c) == 0;
  }

  lemma WalkStep(L: Layout, n: nat, b: int, page: int, active: int, obsolete: int, la: bool)
    requires Walked(L, n, b, page, active, obsolete, 0, la) && page < b + n
    ensures 0 <= page < |L| && L[page] != Dirty
    ensures match L[page] {
      case Active(span) =>
        span > 0 && Walked(L, n, b, page + span, active + span, obsolete, 0, true)
      case Obsolete(span) =>
        span > 0 && Walked(L, n, b, page + span, active, obsolete + span, 0, false)
      case Isolated => Walked(L, n, b, page + 1, active, obsolete + 1, 0, false)
      case Blank | Dirty => true
    }
  {
    hide SectorEnd;
    StepPosition(L, n, page);
    UnitClass(L, n, 0, page);
    var e := Next(L, n, page);
    if L[page] != Blank {
      CountRun(L, n, b, page, e, ClassOf(L[page]));
      if e > b + n {
        ResumeLaterThan(L, n, page, b + n, e);
      }
    }
  }

  lemma WalkFree(L: Layout, n: nat, b: int, page: int, active: int, obsolete: int, la: bool)
    requires Walked(L, n, b, page, active, obsolete, 0, la) && page < b + n && L[page] == Blank
    ensures active + obsolete == page - b
    ensures SectorStats(L, n, b, active, obsolete, b + n - page)
    ensures PassState(L, n, b + n, 0, false)
  {
    SectorEndIn(b, n, page);
    StepPosition(L, n, page);
    UnitClass(L, n, 0, page);
    CountRun(L, n, b, page, b + n, Fr);
    CountTotal(L, n, b, page);
    MultipleStep(b, n);
    ResumeLaterThan(L, n, page, b + n, b + n);
  }

  lemma WalkEnds(L: Layout, n: nat, b: int, page: int, active: int, obsolete: int, la: bool)
    requires Walked(L, n, b, page, active, obsolete, 0, la) && page >= b + n
    ensures active + obsolete == page - b
    ensures var skip := page - b - n;
      && SectorStats(L, n, b,
           if skip > 0 && la then n - obsolete else active,
           if skip > 0 && !la then n - active else obsolete,
           0)
      && PassState(L, n, b + n, skip, la)
  {
    hide PageClass, Position, Aligned;
    WalkSpill(L, n, b, page, active, obsolete, la);
    CountTotal(L, n, b, b + n);
  }

  /** What was counted beyond the sector is one run of pages. */
  lemma WalkSpill(L: Layout, n: nat, b: int, page: int, active: int, obsolete: int, la: bool)
    requires Walked(L, n, b, page, active, obsolete, 0, la) && page >= b + n
    ensures PassState(L, n, b + n, page - b - n, la)
    ensures Count(L, n, b, b + n, Act) == active - if la then page - b - n else 0
    ensures Count(L, n, b, b + n, Obs) == obsolete - if la then 0 else page - b - n
  {
    MultipleStep(b, n);
    ResumeIsFirst(L, n, b + n);
    CountRun(L, n, b, b + n, page, if la then Act else Obs);
  }

  /** The classifier's loop is done with the sector at `b`: what it counted, cut down to
      the sector, and what spills out of it. */
  ghost predicate Counted(L: Layout, n: nat, b: int, active: int, obsolete: int, free: int, la: bool) {
    var skip := active + obsolete + free - n;
    && SectorStats(L, n, b,
         if skip > 0 && la then n - obsolete else active,
         if skip > 0 && !la then n - active else obsolete,
         free)
    && PassState(L, n, b + n, skip, la)
  }

  lemma CountedFree(L: Layout, n: nat, b: int, page: int, active: int, obsolete: int, la: bool)
    requires Walked(L, n, b, page, active, obsolete, 0, la) && page < b + n && L[page] == Blank
    ensures Counted(L, n, b, active, obsolete, b + n - page, false)
  {
    hide Walked, SectorStats, PassState;
    WalkFree(L, n, b, page, active, obsolete, la);
  }

  lemma CountedEnd(L: Layout, n: nat, b: int, page: int, active: int, obsolete: int, la: bool)
    requires Walked(L, n, b, page, active, obsolete, 0, la) && page >= b + n
    ensures Counted(L, n, b, active, obsolete, 0, la)
  {
    hide Walked, SectorStats, PassState;
    WalkEnds(L, n, b, page, active, obsolete, la);
  }

  /** Page `q` in the middle of a pass, when the sectors below `b` are done. */
  ghost function SweptPage(L: Layout, n: nat, b: int, q: int): Page
    requires WellFormed(L, n) && 0 <= b <= |L| && 0 <= q < |L|
  {
    if q < b then CollectedPage(L, n, q)
    else if q < Resume(L, n, b) && Erasable(L, n, b - n) && Resume(L, n, b) - b < n then Isolated
    else L[q]
  }

  ghost function Swept(L: Layout, n: nat, b: int): Layout
    requires WellFormed(L, n) && 0 <= b <= |L|
  {
    seq(|L|, q requires 0 <= q < |L| => SweptPage(L, n, b, q))
  }

  lemma SweptStarts(L: Layout, n: nat)
    requires WellFormed(L, n)
    ensures Swept(L, n, 0) == L
  {
  }

  lemma SweptAll(L: Layout, n: nat)
    requires WellFormed(L, n)
    ensures Swept(L, n, |L|) == Collected(L, n)
  {
  }

  lemma SweptSuffix(L: Layout, n: nat, b: int)
    requires WellFormed(L, n) && 0 <= b <= |L|
    ensures |Swept(L, n, b)| == |L|
    ensures forall q :: Resume(L, n, b) <= q < |L| ==> Swept(L, n, b)[q] == L[q]
  {
  }

  lemma StatsDecide(L: Layout, n: nat, b: int, active: int, obsolete: int, free: int)
    requires SectorStats(L, n, b, active, obsolete, free)
    ensures 0 <= active && 0 <= obsolete
    ensures Erasable(L, n, b) <==> active == 0 && obsolete > 0
  {
    CountZero(L, n, b, b + n, Act);
    CountZero(L, n, b, b + n, Obs);
  }

  /** What spills out of an erasable sector is obsolete. */
  lemma ErasableSpill(L: Layout, n: nat, b: int)
    requires WellFormed(L, n) && Aligned(b, n) && Erasable(L, n, b)
    ensures forall x :: b + n <= x < Resume(L, n, b + n) ==> PageClass(L, n, 0, x) == Obs
    ensures b + 2 * n <= |L| && Resume(L, n, b + n) >= b + 2 * n ==> Erasable(L, n, b + n)
  {
    MultipleStep(b, n);
    var e := Resume(L, n, b + n);
    if b + n < e {
      SpillClass(L, n, b + n);
      TailClass(L, n, b + n, e);
      assert PageClass(L, n, 0, b + n - 1) != Act;
      if b + 2 * n <= |L| && e >= b + 2 * n {
        assert PageClass(L, n, 0, b + n) == Obs;
      }
    }
  }

  lemma CollectedIn(L: Layout, n: nat, b: int)
    requires WellFormed(L, n) && Aligned(b, n) && 0 <= b && b + n <= |L|
    ensures forall q :: b <= q < b + n ==>
      CollectedPage(L, n, q) ==
        if Erasable(L, n, b) then Blank else if CutOff(L, n, b, q) then Isolated else L[q]
  {
    forall q | b <= q < b + n
      ensures SectorStart(q, n) == b
    {
      SectorEndIn(b, n, q);
    }
  }

  lemma SpillFits(L: Layout, n: nat, b: int)
    requires WellFormed(L, n) && Aligned(b, n) && b < |L| && Erasable(L, n, b - n) && !Erasable(L, n, b)
    ensures 0 < b && Resume(L, n, b) < b + n
  {
    var a := b - n;
    assert Aligned(a, n) by { MultipleStep(b, n); }
    assert b + n <= |L| by { MultipleGap(b, |L|, n); }
    ErasableSpill(L, n, a);
  }

  /** A sector that is kept changes nothing. */
  lemma SweptKeep(L: Layout, n: nat, b: int)
    requires WellFormed(L, n) && Aligned(b, n) && 0 <= b < |L| && !Erasable(L, n, b)
    ensures b + n <= |L| && Swept(L, n, b + n) == Swept(L, n, b)
  {
    MultipleGap(b, |L|, n);
    forall q | 0 <= q < |L|
      ensures SweptPage(L, n, b + n, q) == SweptPage(L, n, b, q)
    {
      SweptKeepPage(L, n, b, q);
    }
  }

  lemma SweptKeepPage(L: Layout, n: nat, b: int, q: int)
    requires WellFormed(L, n) && Aligned(b, n) && 0 <= b && b + n <= |L| && !Erasable(L, n, b) && 0 <= q < |L|
    ensures SweptPage(L, n, b + n, q) == SweptPage(L, n, b, q)
  {
    hide Aligned;
    assert Erasable(L, n, b - n) ==> 0 < b && Resume(L, n, b) < b + n by {
      if Erasable(L, n, b - n) {
        SpillFits(L, n, b);
      }
    }
    CollectedIn(L, n, b);
    hide SectorEnd, CollectedPage, Erasable, Resume, WellFormed, Position;
  }

  /** A sector that is erased becomes blank, and the spill behind it is isolated unless
      it fills the next sector. */
  lemma SweptErase(L: Layout, n: nat, b: int, skip: int, la: bool, L': Layout)
    requires WellFormed(L, n) && Aligned(b, n)
    requires 0 <= b < |L|
    requires Erasable(L, n, b)
    requires b + n <= |L|
    requires PassState(L, n, b + n, skip, la)
    requires |L'| == |L|
    requires forall q :: b <= q < b + n ==> L'[q] == Blank
    requires forall q :: b + n <= q < b + n + IsolationCount(n, skip, la) && q < |L| ==> L'[q] == Isolated
    requires forall q :: 0 <= q < |L| && (q < b || q >= b + n + IsolationCount(n, skip, la)) ==>
      L'[q] == SweptPage(L, n, b, q)
    ensures L' == Swept(L, n, b + n)
  {
    forall q | 0 <= q < |L|
      ensures L'[q] == SweptPage(L, n, b + n, q)
    {
      SweptErasePage(L, n, b, skip, la, L', q);
    }
  }

  lemma SweptErasePage(L: Layout, n: nat, b: int, skip: int, la: bool, L': Layout, q: int)
    requires WellFormed(L, n) && Aligned(b, n)
    requires 0 <= b && b + n <= |L| && Erasable(L, n, b)
    requires PassState(L, n, b + n, skip, la) && |L'| == |L| && 0 <= q < |L|
    requires b <= q < b + n ==> L'[q] == Blank
    requires b + n <= q < b + n + IsolationCount(n, skip, la) ==> L'[q] == Isolated
    requires q < b || q >= b + n + IsolationCount(n, skip, la) ==> L'[q] == SweptPage(L, n, b, q)
    ensures L'[q] == SweptPage(L, n, b + n, q)
  {
    ErasableSpill(L, n, b);
    CollectedIn(L, n, b);
    ResumeMonotone(L, n, b, b + n);
    if b + n < Resume(L, n, b) {
      ResumeLater(L, n, b, b + n, Resume(L, n, b));
    }
    hide SectorEnd, CollectedPage, Erasable, Resume, WellFormed, Position, Aligned;
  }

  lemma PassStarts(L: Layout, n: nat)
    requires WellFormed(L, n)
    ensures forall active :: PassState(L, n, 0, 0, active)
  {
  }

  lemma IsolationFits(L: Layout, n: nat, b: int, skip: int, la: bool)
    requires WellFormed(L, n) && Erasable(L, n, b) && Aligned(b, n)
    requires PassState(L, n, b + n, skip, la)
    ensures 0 <= b && 0 <= IsolationCount(n, skip, la)
    ensures b + n + IsolationCount(n, skip, la) <= |L|
    ensures forall q :: b <= q < b + n + IsolationCount(n, skip, la) ==>
      PageClass(L, n, 0, q) != Act
  {
    ErasableSpill(L, n, b);
  }

  /** The hint in the middle of a pass, when the sectors below `b` are done. */
  ghost function SweptHint(L: Layout, n: nat, b: int, nextFree: int): int
    requires WellFormed(L, n)
  {
    var low := LowestErased(L, n);
    if low < b && low < nextFree then low else nextFree
  }

  lemma SweptHintStep(L: Layout, n: nat, b: int, nextFree: int)
    requires WellFormed(L, n) && Aligned(b, n) && 0 <= b && b + n <= |L|
    ensures SweptHint(L, n, 0, nextFree) == nextFree
    ensures var hint := SweptHint(L, n, b, nextFree);
      SweptHint(L, n, b + n, nextFree) == if Erasable(L, n, b) && b < hint then b else hint
  {
    BetweenMultiples(b, n);
  }

  lemma SweptHintAll(L: Layout, n: nat, nextFree: int)
    requires WellFormed(L, n)
    ensures SweptHint(L, n, 0, nextFree) == nextFree
    ensures SweptHint(L, n, |L|, nextFree) == CollectedNextFree(L, n, nextFree)
  {
  }

  lemma LowestStarts(L: Layout, n: nat)
    requires WellFormed(L, n)
    ensures 0 <= LowestErased(L, n) <= |L|
  {
  }

  lemma LowestStep(L: Layout, n: nat, b: int)
    requires WellFormed(L, n) && Aligned(b, n) && 0 <= b && b + n <= |L| && b <= LowestErased(L, n)
    ensures Erasable(L, n, b) ==> LowestErased(L, n) == b
    ensures !Erasable(L, n, b) ==> b + n <= LowestErased(L, n)
  {
    BetweenMultiples(b, n);
  }

  /** The spill into a sector is zero exactly when the scan stops at its first page. */
  lemma SpillIsPosition(L: Layout, n: nat, b: int, skip: int, la: bool)
    requires PassState(L, n, b, skip, la)
    ensures skip == 0 <==> Position(L, n, b)
  {
    ResumeIsFirst(L, n, b);
  }

  lemma SafeAtLowest(L: Layout, n: nat, nextFree: int)
    requires WellFormed(L, n)
    ensures var low := LowestErased(L, n);
      PassIsSafe(L, n, nextFree) <==> low == |L| || low >= nextFree || Position(L, n, low)
  {
  }
}
