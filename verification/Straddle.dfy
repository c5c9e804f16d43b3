/** A concrete run in which an unsafe pass loses a file. */
module Straddling {
  import opened Arithmetic
  import opened Layouts
  import opened Collecting

  /** Four sectors of four pages. A two-page file, then a removed file of four pages
      that starts in the kept first sector and ends in the second. */
  const STRADDLED: Layout :=
    [Active(2), Dirty, Obsolete(4), Dirty] + [Dirty, Dirty, Blank, Blank] + seq(8, _ => Blank)

  /** After the pass: the second sector is erased although the removed extent's header,
      which still claims its first half, stays. */
  const AFTER_PASS: Layout :=
    [Active(2), Dirty, Obsolete(4), Dirty] + seq(12, _ => Blank)

  /** A file of two pages is then reserved where the hint points. */
  const HIDDEN_FILE: Layout := AFTER_PASS[4 := Active(2)]

  lemma SectorEndsOfFour()
    ensures forall p :: 0 <= p < 16 ==>
      SectorEnd(p, 4) == if p < 4 then 4 else if p < 8 then 8 else if p < 12 then 12 else 16
  {
  }

  lemma Units(L: Layout)
    requires L == STRADDLED || L == HIDDEN_FILE
    ensures Unit(L, 4, 0) && Next(L, 4, 0) == 2 && Unit(L, 4, 2) && Next(L, 4, 2) == 6
    ensures Unit(L, 4, 6) && Next(L, 4, 6) == 8
    ensures Unit(L, 4, 8) && Next(L, 4, 8) == 12 && Unit(L, 4, 12) && Next(L, 4, 12) == 16
  {
    hide SectorEnd;
    SectorEndsOfFour();
    assert |L| == 16 && L[0] == Active(2) && L[2] == Obsolete(4);
    assert forall q :: 6 <= q < 16 ==> L[q] == Blank;
  }

  lemma Extend(L: Layout, n: nat, p: int, q: int)
    requires n > 0 && Unit(L, n, p) && Tiles(L, n, Next(L, n, p), q)
    ensures Tiles(L, n, p, q)
  {
  }

  lemma Arrive(L: Layout, n: nat, p: int)
    requires n > 0 && 0 <= p <= |L|
    ensures Tiles(L, n, p, p)
  {
  }

  /** The scan of either layout visits pages 0, 2, 6, 8 and 12. */
  lemma Walk(L: Layout)
    requires L == STRADDLED || L == HIDDEN_FILE
    ensures WellFormed(L, 4)
    ensures Position(L, 4, 0) && Position(L, 4, 2) && Position(L, 4, 6) && Position(L, 4, 8) && Position(L, 4, 12)
    ensures !Position(L, 4, 4)
  {
    hide Tiles, Unit, SectorEnd, Next;
    Units(L);
    assert |L| == 16;
    Arrive(L, 4, 16);
    Extend(L, 4, 12, 16);
    Extend(L, 4, 8, 16);
    Extend(L, 4, 6, 16);
    Extend(L, 4, 2, 16);
    Extend(L, 4, 0, 16);
    Arrive(L, 4, 0);
    StepPosition(L, 4, 0);
    StepPosition(L, 4, 2);
    StepPosition(L, 4, 6);
    StepPosition(L, 4, 8);
    if Position(L, 4, 4) {
      NoPositionInside(L, 4, 2, 4);
    }
  }

  /** What every page of either layout counts as. */
  lemma Classes(L: Layout)
    requires L == STRADDLED || L == HIDDEN_FILE
    ensures WellFormed(L, 4)
    ensures forall x :: 0 <= x < 16 ==> PageClass(L, 4, 0, x) == if x < 2 then Act else if x < 6 then Obs else Fr
    ensures Resume(L, 4, 8) == 8
  {
    hide Tiles, SectorEnd, UnitAt;
    Walk(L);
    Units(L);
    UnitClass(L, 4, 0, 0);
    UnitClass(L, 4, 0, 2);
    UnitClass(L, 4, 0, 6);
    UnitClass(L, 4, 0, 8);
    UnitClass(L, 4, 0, 12);
  }

  lemma Erasables(L: Layout)
    requires L == STRADDLED || L == HIDDEN_FILE
    ensures WellFormed(L, 4)
    ensures !Erasable(L, 4, 0) && Erasable(L, 4, 4) && !Erasable(L, 4, 8) && !Erasable(L, 4, 12)
  {
    hide Tiles, SectorEnd, PageClass;
    Classes(L);
    assert PageClass(L, 4, 0, 0) == Act && PageClass(L, 4, 0, 4) == Obs;
  }

  lemma CollectStraddled()
    ensures WellFormed(STRADDLED, 4) && Collected(STRADDLED, 4) == AFTER_PASS
    ensures LowestErased(STRADDLED, 4) == 4
  {
    hide Tiles, PageClass, Erasable, SectorEnd, WellFormed;
    var L := STRADDLED;
    Classes(L);
    Erasables(L);
    CollectedEach(L);
    assert |L| == 16 && Aligned(0, 4) && Aligned(4, 4);
    assert Lowest(L, 4, 4) == 4;
  }

  lemma CollectedEach(L: Layout)
    requires L == STRADDLED
    ensures WellFormed(L, 4)
    ensures Collected(L, 4) == AFTER_PASS
  {
    hide Tiles, PageClass, Erasable, WellFormed;
    Classes(L);
    Erasables(L);
    forall q | 0 <= q < 16
      ensures CollectedPage(L, 4, q) == AFTER_PASS[q]
    {
      SectorEndsOfFour();
    }
  }

  /** The pass moves the hint to page 4, which the scan never visits. First fit puts a
      file there, no scan finds it, and the next pass erases it. */
  lemma UnsafePassLosesFile()
    ensures WellFormed(STRADDLED, 4) && Position(STRADDLED, 4, 6) && !PassIsSafe(STRADDLED, 4, 6)
    ensures Collected(STRADDLED, 4) == AFTER_PASS && CollectedNextFree(STRADDLED, 4, 6) == 4
    ensures Tiles(AFTER_PASS, 4, 4, |AFTER_PASS|) && Eligible(AFTER_PASS, 4, 4, 4, 2)
    ensures WellFormed(HIDDEN_FILE, 4) && HIDDEN_FILE[4] == Active(2) && !Live(HIDDEN_FILE, 4, 4)
    ensures Collected(HIDDEN_FILE, 4)[4] == Blank
  {
    hide Tiles, PageClass, Erasable, Unit, Collected, Lowest;
    Walk(STRADDLED);
    Walk(HIDDEN_FILE);
    CollectStraddled();
    Erasables(HIDDEN_FILE);
    ErasedSectorIsBlank(HIDDEN_FILE, 4, 4);
    FreeRun();
  }

  lemma FreeRun()
    ensures Tiles(AFTER_PASS, 4, 4, |AFTER_PASS|) && Eligible(AFTER_PASS, 4, 4, 4, 2)
  {
    hide Tiles, SectorEnd, UnitAt;
    var G := AFTER_PASS;
    SectorEndsOfFour();
    assert |G| == 16 && forall q :: 4 <= q < 16 ==> G[q] == Blank;
    Arrive(G, 4, 16);
    Extend(G, 4, 12, 16);
    Extend(G, 4, 8, 16);
    Extend(G, 4, 4, 16);
    Arrive(G, 4, 4);
    UnitClass(G, 4, 4, 4);
  }
}
