/** The allocator as a function of the page layout, its hint and its waiting flag. */
module Allocations {
  import opened Arithmetic
  import opened Layouts
  import opened Collecting
  import opened Searching

  datatype Allocator = Allocator(layout: Layout, hint: int, gcWait: bool)

  /** The lowest run of `amount` reachable free pages at or after `x`, or -1. */
  ghost function FitFrom(L: Layout, n: nat, from: int, x: int, amount: nat): (start: int)
    requires n > 0 && Tiles(L, n, from, |L|) && from <= x
    ensures start == -1 ==> forall y :: x <= y ==> !Eligible(L, n, from, y, amount)
    ensures start != -1 ==> x <= start && Eligible(L, n, from, start, amount)
    ensures start != -1 ==> forall y :: x <= y < start ==> !Eligible(L, n, from, y, amount)
    decreases |L| - x
  {
    if x + amount >= |L| then -1
    else if Eligible(L, n, from, x, amount) then x
    else FitFrom(L, n, from, x + 1, amount)
  }

  ghost function FirstFit(L: Layout, n: nat, from: int, amount: nat): int
    requires n > 0 && Tiles(L, n, from, |L|)
  {
    FitFrom(L, n, from, from, amount)
  }

  lemma FirstFitIs(L: Layout, n: nat, from: int, amount: nat, start: int)
    requires n > 0 && Tiles(L, n, from, |L|)
    requires start == -1 ==> forall y :: !Eligible(L, n, from, y, amount)
    requires start != -1 ==>
      Eligible(L, n, from, start, amount) && forall y :: y < start ==> !Eligible(L, n, from, y, amount)
    ensures FirstFit(L, n, from, amount) == start
  {
    hide Eligible, Tiles;
    var x := FirstFit(L, n, from, amount);
    if start != -1 {
      assert from <= start by { EligibleBehind(L, n, from, start, amount); }
    }
  }

  lemma EligibleBehind(L: Layout, n: nat, from: int, start: int, amount: nat)
    requires n > 0 && Tiles(L, n, from, |L|) && Eligible(L, n, from, start, amount)
    ensures 0 <= from <= start < |L|
  {
  }

  ghost predicate Sane(a: Allocator, n: nat) {
    WellFormed(a.layout, n) && Position(a.layout, n, a.hint)
  }

  /** The allocator after a greedy pass. */
  ghost function AfterPass(a: Allocator, n: nat): Allocator
    requires Sane(a, n)
  {
    Allocator(Collected(a.layout, n), CollectedNextFree(a.layout, n, a.hint), a.gcWait)
  }

  /** The new extent, and the hint behind it if it was put there. */
  ghost function Placed(a: Allocator, start: int, amount: nat): Allocator
    requires 0 <= start < |a.layout|
  {
    Allocator(a.layout[start := Active(amount)], if start == a.hint then start + amount else a.hint, a.gcWait)
  }

  /** What reserve does: it searches from the hint, and after a greedy pass once more. */
  ghost function Served(a: Allocator, n: nat, amount: nat): (r: (int, Allocator))
    requires Sane(a, n)
  {
    HintWalksOn(a, n);
    var start := FirstFit(a.layout, n, a.hint, amount);
    if start != -1 then (start, Placed(a, start, amount))
    else if a.gcWait then (-1, a)
    else
      var b := AfterPass(a, n);
      var again := FirstFit(b.layout, n, b.hint, amount);
      if again != -1 then (again, Placed(b, again, amount))
      else (-1, b.(gcWait := true))
  }

  /** The old hint and the new one are good for a search. */
  lemma HintWalksOn(a: Allocator, n: nat)
    requires Sane(a, n)
    ensures Tiles(a.layout, n, a.hint, |a.layout|)
    ensures Tiles(AfterPass(a, n).layout, n, AfterPass(a, n).hint, |a.layout|) && |AfterPass(a, n).layout| == |a.layout|
  {
    TilesSplit(a.layout, n, 0, a.hint, |a.layout|);
    HintWalks(a.layout, n, a.hint);
  }

  /** Reserving needs a pass, and the pass is not safe. */
  ghost predicate Strands(a: Allocator, n: nat, amount: nat)
    requires Sane(a, n)
  {
    HintWalksOn(a, n);
    FirstFit(a.layout, n, a.hint, amount) == -1 && !a.gcWait && !PassIsSafe(a.layout, n, a.hint)
  }

  /** The lowest run of `amount` free pages that a search from `from` can return. */
  ghost predicate FirstRun(L: Layout, n: nat, from: int, start: int, amount: nat) {
    && n > 0 && Tiles(L, n, from, |L|) && 0 <= start < |L| && Eligible(L, n, from, start, amount)
    && forall x :: x < start ==> !Eligible(L, n, from, x, amount)
  }

  /** What became of a request: it went to the lowest run behind the hint. If there was
      none, nothing happened while a pass was not worth a try; otherwise a pass was run,
      and the request went to the lowest run behind the new hint. If there was none
      either, a pass is not worth a try any more. */
  ghost predicate Answers(a: Allocator, n: nat, amount: nat, page: int, b: Allocator)
    requires Sane(a, n)
  {
    var G, h := Collected(a.layout, n), CollectedNextFree(a.layout, n, a.hint);
    if !NoRoom(a.layout, n, a.hint, amount) then
      && FirstRun(a.layout, n, a.hint, page, amount)
      && b == Allocator(a.layout[page := Active(amount)], if page == a.hint then page + amount else a.hint, a.gcWait)
    else if a.gcWait then page == -1 && b == a
    else if !NoRoom(G, n, h, amount) then
      && FirstRun(G, n, h, page, amount)
      && b == Allocator(G[page := Active(amount)], if page == h then page + amount else h, false)
    else page == -1 && b == Allocator(G, h, true)
  }

  /** There is no room, and a pass will not be tried or will not help. */
  ghost predicate Starved(a: Allocator, n: nat, amount: nat)
    requires Sane(a, n)
  {
    && NoRoom(a.layout, n, a.hint, amount)
    && (a.gcWait || NoRoom(Collected(a.layout, n), n, CollectedNextFree(a.layout, n, a.hint), amount))
  }

  lemma ServedAnswers(a: Allocator, n: nat, amount: nat)
    requires Sane(a, n)
    ensures var (page, b) := Served(a, n, amount);
      Answers(a, n, amount, page, b) && (page == -1 <==> Starved(a, n, amount))
  {
    hide Eligible, Tiles, Collected, CollectedNextFree, Position, FirstFit;
    HintWalksOn(a, n);
    FitOrNone(a.layout, n, a.hint, amount);
    FitOrNone(AfterPass(a, n).layout, n, AfterPass(a, n).hint, amount);
  }

  /** Nothing is to be had any more: there is no room, and a pass is not worth a try or not
      safe. */
  ghost predicate Stalled(a: Allocator, n: nat, amount: nat) {
    Sane(a, n) && NoRoom(a.layout, n, a.hint, amount) && (a.gcWait || !PassIsSafe(a.layout, n, a.hint))
  }

  /** A request that was refused will be refused again. */
  lemma RefusedStalls(a: Allocator, n: nat, amount: nat, b: Allocator)
    requires Sane(a, n) && Sane(b, n) && Starved(a, n, amount) && Answers(a, n, amount, -1, b)
    ensures Stalled(b, n, amount) && Starved(b, n, amount)
  {
    hide Eligible, Tiles, Collected, CollectedNextFree, Position, PassIsSafe;
  }

  lemma StalledEither(a: Allocator, n: nat, amount: nat)
    requires Sane(a, n)
    ensures Stalled(a, n, amount) ==> Starved(a, n, amount) || Strands(a, n, amount)
    ensures Strands(a, n, amount) ==> Stalled(a, n, amount)
  {
    hide Eligible, Tiles, Collected, CollectedNextFree, Position, PassIsSafe;
    HintWalksOn(a, n);
    FitOrNone(a.layout, n, a.hint, amount);
  }

  // ------------------------------------------------ what is inside an extent is its own

  /** Two layouts that differ only inside one live extent. */
  ghost predicate SameOutside(L: Layout, G: Layout, n: nat, p: int) {
    && WellFormed(L, n) && WellFormed(G, n) && Live(L, n, p) && |G| == |L| && G[p] == L[p]
    && forall y :: 0 <= y < |L| && !(p <= y < p + L[p].span) ==> G[y] == L[y]
  }

  lemma SameClass(L: Layout, G: Layout, n: nat, p: int, from: int, x: int)
    requires SameOutside(L, G, n, p) && Position(L, n, from) && from <= x < |L|
    ensures Tiles(L, n, from, |L|) && Tiles(G, n, from, |L|) && PageClass(G, n, from, x) == PageClass(L, n, from, x)
  {
    hide Unit;
    SameScan(L, G, n, p, from);
    TilesSplit(L, n, 0, from, |L|);
    TilesSplit(G, n, 0, from, |L|);
    var u := UnitAt(L, n, from, x);
    TilesConcat(L, n, 0, from, u);
    SameScan(L, G, n, p, u);
    TilesSplit(G, n, 0, from, u);
    TilesSplit(G, n, 0, u, |L|);
    if p < u {
      NoPositionInside(L, n, p, u);
    }
    assert G[u] == L[u];
    UnitAtIs(G, n, from, u, x);
  }

  lemma SameRoom(L: Layout, G: Layout, n: nat, p: int, from: int, amount: nat)
    requires SameOutside(L, G, n, p) && Position(L, n, from)
    ensures NoRoom(L, n, from, amount) ==> NoRoom(G, n, from, amount)
  {
    hide Unit, PageClass;
    SameScan(L, G, n, p, from);
    TilesSplit(G, n, 0, from, |L|);
    if NoRoom(L, n, from, amount) {
      forall x
        ensures !Eligible(G, n, from, x, amount)
      {
        assert !Eligible(L, n, from, x, amount);
        forall y | from <= x <= y < x + amount < |L|
          ensures PageClass(G, n, from, y) == PageClass(L, n, from, y)
        {
          SameClass(L, G, n, p, from, y);
        }
      }
    }
  }

  lemma SameSafety(L: Layout, G: Layout, n: nat, p: int, hint: int)
    requires SameOutside(L, G, n, p)
    ensures PassIsSafe(G, n, hint) <==> PassIsSafe(L, n, hint)
  {
    hide Unit, PageClass, Tiles;
    forall x | 0 <= x < |L|
      ensures PageClass(G, n, 0, x) == PageClass(L, n, 0, x)
    {
      StartIsPosition(L, n);
      SameClass(L, G, n, p, 0, x);
    }
    assert forall b :: Erasable(G, n, b) <==> Erasable(L, n, b);
    SameScan(L, G, n, p, LowestErased(L, n));
  }

  lemma StartIsPosition(L: Layout, n: nat)
    requires WellFormed(L, n)
    ensures Position(L, n, 0)
  {
  }

  lemma StaysStalled(a: Allocator, G: Layout, n: nat, p: int, amount: nat)
    requires Stalled(a, n, amount) && SameOutside(a.layout, G, n, p)
    ensures Stalled(a.(layout := G), n, amount)
  {
    hide Tiles, Live, WellFormed, PassIsSafe, NoRoom;
    SameRoom(a.layout, G, n, p, a.hint, amount);
    SameSafety(a.layout, G, n, p, a.hint);
    StaysSane(a, G, n, p);
  }

  lemma StaysSane(a: Allocator, G: Layout, n: nat, p: int)
    requires Sane(a, n) && SameOutside(a.layout, G, n, p)
    ensures Sane(a.(layout := G), n)
  {
    SameScan(a.layout, G, n, p, a.hint);
  }

  lemma FitOrNone(L: Layout, n: nat, from: int, amount: nat)
    requires n > 0 && Tiles(L, n, from, |L|)
    ensures var start := FirstFit(L, n, from, amount);
      if NoRoom(L, n, from, amount) then start == -1 else FirstRun(L, n, from, start, amount)
  {
    hide Eligible, Tiles;
    var start := FirstFit(L, n, from, amount);
    if start != -1 {
      EligibleBehind(L, n, from, start, amount);
      forall x | x < start
        ensures !Eligible(L, n, from, x, amount)
      {
        if Eligible(L, n, from, x, amount) {
          EligibleBehind(L, n, from, x, amount);
        }
      }
    } else {
      forall x
        ensures !Eligible(L, n, from, x, amount)
      {
        if Eligible(L, n, from, x, amount) {
          EligibleBehind(L, n, from, x, amount);
        }
      }
    }
  }

  // ------------------------------------------------------------- an emptied device

  /** Without live extents nothing on the device counts as active. */
  lemma NothingActive(L: Layout, n: nat, x: int)
    requires WellFormed(L, n) && (forall p :: !Live(L, n, p)) && 0 <= x < |L|
    ensures PageClass(L, n, 0, x) != Act
  {
    hide Tiles, SectorEnd;
    assert !Live(L, n, UnitAt(L, n, 0, x));
  }

  /** A pass over it leaves blank pages only. */
  lemma EmptiedIsBlank(L: Layout, n: nat, q: int)
    requires WellFormed(L, n) && (forall p :: !Live(L, n, p)) && 0 <= q < |L|
    ensures Collected(L, n)[q] == Blank
  {
    hide Tiles, SectorEnd, PageClass, CutOff, Live;
    var b := SectorStart(q, n);
    SectorBounds(q, n);
    if !Erasable(L, n, b) {
      KeptIsFree(L, n, b, q);
      FreePageIsBlank(L, n, 0, q);
      if CutOff(L, n, b, q) {
        CutOffNotFree(L, n, b, q);
      }
    }
  }

  lemma KeptIsFree(L: Layout, n: nat, b: int, q: int)
    requires WellFormed(L, n) && (forall p :: !Live(L, n, p)) && 0 <= b <= q < b + n && q < |L|
    requires Aligned(b, n) && !Erasable(L, n, b)
    ensures PageClass(L, n, 0, q) == Fr
  {
    hide Tiles, PageClass, Live;
    MultipleGap(b, |L|, n);
    forall x | b <= x < b + n
      ensures PageClass(L, n, 0, x) != Act
    {
      NothingActive(L, n, x);
    }
  }

  lemma CutOffNotFree(L: Layout, n: nat, b: int, q: int)
    requires WellFormed(L, n) && CutOff(L, n, b, q) && Aligned(b, n)
    ensures PageClass(L, n, 0, q) != Fr
  {
    hide Tiles, Erasable, SectorEnd;
    var u := UnitAt(L, n, 0, b - 1);
    UnitAtIs(L, n, 0, u, q);
    if L[u] == Blank {
      SectorEndOf(L, n, u, b);
    }
  }

  /** Free space ends with its sector. */
  lemma SectorEndOf(L: Layout, n: nat, u: int, b: int)
    requires n > 0 && 0 <= u < b <= |L| && Aligned(b, n) && L[u] == Blank
    ensures Next(L, n, u) <= b
  {
    SectorBounds(u, n);
    if SectorEnd(u, n) > b {
      MultipleGap(b, SectorEnd(u, n), n);
    }
  }

  /** And moves the hint to the first page, safely. */
  lemma EmptiedHint(L: Layout, n: nat, hint: int)
    requires WellFormed(L, n) && Position(L, n, hint) && NoFreeBelow(L, n, hint)
    requires (forall p :: !Live(L, n, p)) && 0 < |L|
    ensures CollectedNextFree(L, n, hint) == 0 && PassIsSafe(L, n, hint)
  {
    hide SectorEnd, PageClass;
    if hint > 0 {
      forall x | 0 <= x < |L|
        ensures PageClass(L, n, 0, x) != Act
      {
        NothingActive(L, n, x);
      }
      MultipleGap(0, |L|, n);
      assert PageClass(L, n, 0, 0) == Obs;
      assert Erasable(L, n, 0);
    }
  }

  lemma BlankRoom(G: Layout, n: nat, amount: nat)
    requires n > 0 && Aligned(|G|, n) && (forall q :: 0 <= q < |G| ==> G[q] == Blank) && amount < |G|
    ensures !NoRoom(G, n, 0, amount)
  {
    BlankLayout(G, n);
    assert Eligible(G, n, 0, 0, amount);
  }

  /** When nothing is left on the device and a pass is worth a try, every request that the
      device can take at all is served. */
  lemma EmptiedServes(a: Allocator, n: nat, amount: nat)
    requires Sane(a, n) && NoFreeBelow(a.layout, n, a.hint) && !a.gcWait
    requires (forall p :: !Live(a.layout, n, p)) && amount < |a.layout|
    ensures !Starved(a, n, amount) && !Strands(a, n, amount)
  {
    hide Tiles, SectorEnd, Eligible, Erasable, PageClass, Live, NoFreeBelow, CollectedPage, CollectedNextFree;
    hide PassIsSafe;
    var G := Collected(a.layout, n);
    forall q | 0 <= q < |G|
      ensures G[q] == Blank
    {
      EmptiedIsBlank(a.layout, n, q);
    }
    EmptiedHint(a.layout, n, a.hint);
    BlankRoom(G, n, amount);
  }

  // ---------------------------------------------------------- what an unsafe pass does

  /** A new extent is found by the scan exactly when it starts at a scan position. */
  lemma PlacedIsLive(L: Layout, n: nat, from: int, start: int, amount: nat)
    requires n > 0 && Tiles(L, n, from, |L|) && Eligible(L, n, from, start, amount) && amount >= 1
    ensures 0 <= start < |L| && (Live(L[start := Active(amount)], n, start) <==> Position(L, n, start))
  {
    EligibleBehind(L, n, from, start, amount);
    var G := L[start := Active(amount)];
    if Position(L, n, start) {
      TilesAgree(L, G, n, 0, start);
    }
    if Position(G, n, start) {
      TilesAgree(G, L, n, 0, start);
    }
  }

  /** Any unsafe pass at all: the next search can use the page at the new hint, and an
      extent put there is not found by the scan. */
  lemma UnsafePassStrands(L: Layout, n: nat, hint: int)
    requires WellFormed(L, n) && Position(L, n, hint) && !PassIsSafe(L, n, hint)
    ensures var G, h := Collected(L, n), CollectedNextFree(L, n, hint);
      && 0 <= h < |G| && Tiles(G, n, h, |G|) && Eligible(G, n, h, h, 1)
      && !Live(G[h := Active(1)], n, h)
  {
    hide SectorEnd, Collected, Eligible, Live, Position;
    var G, h := Collected(L, n), CollectedNextFree(L, n, hint);
    HintWalks(L, n, hint);
    HintStaysReachable(L, n, hint);
    ErasedHint(L, n, hint);
    PlacedIsLive(G, n, h, h, 1);
  }

  /** The page an unsafe pass moves the hint to is free for a search from there. */
  lemma ErasedHint(L: Layout, n: nat, hint: int)
    requires WellFormed(L, n) && Position(L, n, hint) && !PassIsSafe(L, n, hint)
    requires Tiles(Collected(L, n), n, CollectedNextFree(L, n, hint), |L|)
    ensures var G, h := Collected(L, n), CollectedNextFree(L, n, hint);
      0 <= h && h + 1 < |G| && Eligible(G, n, h, h, 1)
  {
    hide SectorEnd, Collected;
    var G, h := Collected(L, n), CollectedNextFree(L, n, hint);
    ErasedSectorIsBlank(L, n, h);
    assert Tiles(G, n, h, h);
    UnitClass(G, n, h, h);
    var u := UnitAt(L, n, 0, h);
    StepPosition(L, n, u);
    assert u < h;
  }

  // ----------------------------------------------------------- devices of one sector

  /** One sector, and nothing but blank pages from the hint on. */
  ghost predicate Packed(a: Allocator, n: nat) {
    && Sane(a, n) && |a.layout| == n
    && forall q :: a.hint <= q < n ==> a.layout[q] == Blank
  }

  lemma PackedTail(a: Allocator, n: nat)
    requires Packed(a, n)
    ensures Tiles(a.layout, n, a.hint, n) && 0 <= a.hint <= n
    ensures forall x :: a.hint <= x < n ==> PageClass(a.layout, n, a.hint, x) == Fr
  {
    HintWalksOn(a, n);
    if a.hint < n {
      SectorEndIn(0, n, a.hint);
      UnitClass(a.layout, n, a.hint, a.hint);
    }
  }

  /** There the allocator hands out pages in order. */
  lemma PackedFit(a: Allocator, n: nat, amount: nat)
    requires Packed(a, n) && amount > 0
    ensures Tiles(a.layout, n, a.hint, n)
    ensures FirstFit(a.layout, n, a.hint, amount) == if a.hint + amount < n then a.hint else -1
  {
    PackedTail(a, n);
    FirstFitIs(a.layout, n, a.hint, amount, if a.hint + amount < n then a.hint else -1);
  }

  /** And a pass changes nothing as long as there is a file. */
  lemma PackedPass(a: Allocator, n: nat, p: int)
    requires Packed(a, n) && Live(a.layout, n, p)
    ensures AfterPass(a, n) == a && PassIsSafe(a.layout, n, a.hint)
  {
    var L := a.layout;
    UnitClass(L, n, 0, p);
    assert PageClass(L, n, 0, p) == Act;
    assert !Erasable(L, n, 0);
    forall q | 0 <= q < n
      ensures CollectedPage(L, n, q) == L[q]
    {
      SectorEndIn(0, n, q);
    }
    assert Collected(L, n) == L;
    OnlySector(L, n);
  }

  lemma OnlySector(L: Layout, n: nat)
    requires WellFormed(L, n) && |L| == n && !Erasable(L, n, 0)
    ensures LowestErased(L, n) == n
  {
    var low := LowestErased(L, n);
    if low < n {
      MultipleGap(0, low, n);
    }
  }

  lemma PackedServed(a: Allocator, n: nat, amount: nat, p: int)
    requires Packed(a, n) && amount > 0 && (Live(a.layout, n, p) || a.hint + amount < n)
    ensures !Strands(a, n, amount)
    ensures var (start, b) := Served(a, n, amount);
      if a.hint + amount < n then start == a.hint && b.hint == a.hint + amount && Packed(b, n)
      else start == -1 && b.hint == a.hint && Packed(b, n)
  {
    PackedFit(a, n, amount);
    if a.hint + amount < n {
      PackedTail(a, n);
      PackedPlaced(a, n, amount);
    } else {
      PackedPass(a, n, p);
    }
  }

  lemma PackedPlaced(a: Allocator, n: nat, amount: nat)
    requires Packed(a, n) && amount > 0 && a.hint + amount < n
    requires Tiles(a.layout, n, a.hint, n) && Eligible(a.layout, n, a.hint, a.hint, amount)
    ensures 0 <= a.hint && Packed(Placed(a, a.hint, amount), n)
  {
    var L, G := a.layout, a.layout[a.hint := Active(amount)];
    var e := a.hint + amount;
    TilesAgree(L, G, n, 0, a.hint);
    SectorEndIn(0, n, e);
    assert Unit(G, n, e) && Next(G, n, e) == n;
    assert Tiles(G, n, n, n);
    assert Unit(G, n, a.hint) && Next(G, n, a.hint) == e;
    assert Tiles(G, n, e, e);
    TilesConcat(G, n, 0, a.hint, e);
    TilesConcat(G, n, 0, e, n);
  }
}
