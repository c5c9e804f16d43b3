/** The first-fit search for contiguous free pages. */
module Searching {
  import opened Layouts

  /** The search started at `from` stands at `page`. `start` is the run it is
      growing, or -1. No run below is long enough. */
  ghost predicate SearchState(L: Layout, n: nat, from: int, page: int, start: int, amount: nat) {
    && n > 0 && amount > 0
    && Tiles(L, n, from, |L|) && Tiles(L, n, from, page)
    && (start == -1 ==> NoneBelow(L, n, from, page, amount))
    && (start != -1 ==>
          && Tiles(L, n, from, start)
          && start < page < start + amount < |L|
          && (forall x :: start <= x < page ==> PageClass(L, n, from, x) == Fr)
          && NoneBelow(L, n, from, start, amount))
  }

  ghost predicate NoneBelow(L: Layout, n: nat, from: int, limit: int, amount: nat)
    requires n > 0 && Tiles(L, n, from, |L|)
  {
    forall x :: x < limit ==> !Eligible(L, n, from, x, amount)
  }

  /** No run of `amount` free pages from `from` on. */
  ghost predicate NoRoom(L: Layout, n: nat, from: int, amount: nat) {
    n > 0 && Tiles(L, n, from, |L|) && forall x :: !Eligible(L, n, from, x, amount)
  }

  lemma SearchStarts(L: Layout, n: nat, from: int, amount: nat)
    requires n > 0 && amount > 0 && Tiles(L, n, from, |L|)
    ensures SearchState(L, n, from, from, -1, amount)
  {
  }

  /** The search has reached a free page. */
  lemma SearchFree(L: Layout, n: nat, from: int, page: int, start: int, amount: nat)
    requires SearchState(L, n, from, page, start, amount) && page < |L| && L[page] == Blank
    ensures 0 <= page < SectorEnd(page, n) <= |L|
    ensures start == -1 && page + amount >= |L| ==> forall x :: !Eligible(L, n, from, x, amount)
    ensures var s := if start == -1 then page else start;
      s + amount < |L| ==>
        if s + amount <= SectorEnd(page, n)
        then Eligible(L, n, from, s, amount) && NoneBelow(L, n, from, s, amount) && Tiles(L, n, from, s)
        else SearchState(L, n, from, SectorEnd(page, n), s, amount)
  {
    SectorBounds(page, n);
    UnitClass(L, n, from, page);
    hide SectorEnd;
    Step(L, n, from, page);
  }

  lemma Step(L: Layout, n: nat, from: int, page: int)
    requires n > 0 && Tiles(L, n, from, |L|) && Tiles(L, n, from, page) && page < |L|
    ensures Unit(L, n, page) && Tiles(L, n, from, Next(L, n, page))
  {
    TilesSplit(L, n, from, page, |L|);
    assert Tiles(L, n, Next(L, n, page), Next(L, n, page));
    TilesConcat(L, n, from, page, Next(L, n, page));
  }

  /** The search has reached an allocated page: the run it was growing is too short. */
  lemma SearchTaken(L: Layout, n: nat, from: int, page: int, start: int, amount: nat)
    requires SearchState(L, n, from, page, start, amount) && page < |L| && L[page] != Blank
    ensures Unit(L, n, page) && SearchState(L, n, from, Next(L, n, page), -1, amount)
  {
    Step(L, n, from, page);
    UnitClass(L, n, from, page);
    hide SectorEnd, UnitAt, Tiles;
    var e := Next(L, n, page);
    forall x | x < e
      ensures !Eligible(L, n, from, x, amount)
    {
      if from <= x < page && (start == -1 || x < start) {
      } else if from <= x < page {
        assert PageClass(L, n, from, page) != Fr;
      } else if page <= x {
        assert PageClass(L, n, from, x) != Fr;
      }
    }
  }

  lemma SearchEnds(L: Layout, n: nat, from: int, page: int, start: int, amount: nat)
    requires SearchState(L, n, from, page, start, amount) && page >= |L|
    ensures forall x :: !Eligible(L, n, from, x, amount)
  {
  }

  /** With no free page below the hint, a search from the hint misses nothing. */
  lemma HintMissesNothing(L: Layout, n: nat, hint: int, x: int, amount: nat)
    requires WellFormed(L, n) && Position(L, n, hint) && amount > 0 && 0 <= x
    requires forall y :: 0 <= y < hint && y < |L| ==> PageClass(L, n, 0, y) != Fr
    ensures Tiles(L, n, hint, |L|)
    ensures Eligible(L, n, 0, x, amount) <==> Eligible(L, n, hint, x, amount)
  {
    TilesSplit(L, n, 0, hint, |L|);
    forall y | hint <= y < |L|
      ensures PageClass(L, n, hint, y) == PageClass(L, n, 0, y)
    {
      SameUnit(L, n, hint, y);
    }
    if x < hint && x < |L| {
      assert PageClass(L, n, 0, x) != Fr;
    }
  }

  lemma SameUnit(L: Layout, n: nat, hint: int, y: int)
    requires WellFormed(L, n) && Position(L, n, hint) && Tiles(L, n, hint, |L|) && hint <= y < |L|
    ensures UnitAt(L, n, hint, y) == UnitAt(L, n, 0, y)
  {
    var u := UnitAt(L, n, hint, y);
    TilesConcat(L, n, 0, hint, u);
    UnitAtIs(L, n, 0, u, y);
  }
}
