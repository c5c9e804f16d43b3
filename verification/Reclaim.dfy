/** What a removal is good for: the pages come back when they are needed. */
module Reclaims {
  import opened FlashDevice
  import opened Headers
  import opened Layouts
  import opened Collecting
  import opened Searching
  import opened Disks
  import opened Allocations
  import opened Volumes
  import opened MicroLogs
  import opened FileStates
  import opened FileSteps
  import opened FileRemovals
  import opened FileLogs
  import opened CoffeeFiles

  /** There is room behind the hint, or there is after a pass. */
  ghost predicate RoomAtLast(a: Allocator, n: nat, amount: nat)
    requires Sane(a, n)
  {
    || !NoRoom(a.layout, n, a.hint, amount)
    || !NoRoom(Collected(a.layout, n), n, CollectedNextFree(a.layout, n, a.hint), amount)
  }

  lemma StillNotStored(s: FsState, s1: FsState, page: int, other: Bytes)
    requires forall p :: !Stored(s, p, other)
    requires s1.disk == s.disk || (IsFile(s.disk, page) && s1.disk == DiskWithout(s.disk, page))
    ensures !Findable(s1, other)
  {
    hide Decode;
    forall p
      ensures !Stored(s1, p, other)
    {
      assert !Stored(s, p, other);
    }
    forall j
      ensures !CachedAs(s1, j, other)
    {
      assert CachedAs(s1, j, other) ==> Stored(s1, s1.files[j].page, other);
    }
  }

  /** A removal takes no descriptor. */
  lemma FdsStay(s: FsState, s1: FsState, page: int)
    requires Ok(s1) && |s1.fds| == |s.fds| && HasFd(s.fds)
    requires forall k :: 0 <= k < |s.fds| ==>
      if OnFile(s, k, page) then !IsOpenFd(s1, k) else SameView(s, s1, k)
    ensures HasFd(s1.fds)
  {
    hide Ok, Data, BlankPast;
    var k :| 0 <= k < |s.fds| && !s.fds[k].IsOpen();
    if s1.fds[k].IsOpen() {
      OpenInRange(s1, k);
    }
    FreeFd(s1.fds, k);
  }

  lemma NothingLeft(v: Volume, amount: nat)
    requires v.Valid() && v.flash.Valid() && v.Disk() == map[] && !v.gcWait && amount < PAGE_COUNT
    ensures Sane(v.Alloc(), PAGES_PER_SECTOR)
    ensures !Starved(v.Alloc(), PAGES_PER_SECTOR, amount) && !Strands(v.Alloc(), PAGES_PER_SECTOR, amount)
  {
    hide Starved, Strands, Tiles, NoFreeBelow, Position;
    AllocSane(v);
    forall p
      ensures !Live(v.Layout(), PAGES_PER_SECTOR, p)
    {
      DiskAt(v.Mem(), p);
    }
    EmptiedServes(v.Alloc(), PAGES_PER_SECTOR, amount);
  }

  /** As long as a pass is worth a try, room is all that matters. */
  lemma RoomIsEnough(c: Coffee, pages: nat)
    requires c.vol.flash.Valid() && Sane(c.vol.Alloc(), PAGES_PER_SECTOR) && !c.vol.Alloc().gcWait
    ensures c.CanMake(pages) <==>
      && HasSlot(c.files[..])
      && !Strands(c.vol.Alloc(), PAGES_PER_SECTOR, pages) && RoomAtLast(c.vol.Alloc(), PAGES_PER_SECTOR, pages)
    ensures RoomAtLast(c.vol.Alloc(), PAGES_PER_SECTOR, pages) <==> !Starved(c.vol.Alloc(), PAGES_PER_SECTOR, pages)
  {
    hide Sane, NoRoom, Strands, Volume.Alloc, Collected, CollectedNextFree;
  }

  /** A file is removed, and another one is made. However often an allocation had failed
      before, the second call gets its pages exactly if there is room after a pass. With
      nothing left on the device it does whenever the device is large enough. */
  method RemoveThenCreate(c: Coffee, name: Bytes, other: Bytes, flags: bv8)
      returns (r: int, fd: int, ghost page: int, ghost mid: Allocator)
    requires c.Valid() && |other| == NAME_LENGTH
    requires flags != COFFEE_FD_FREE && flags & (CFS_READ | CFS_WRITE) != CFS_READ
    requires forall p :: !Stored(c.Fs(), p, other)
    modifies c.vol, c.vol.flash.cells, c.files, c.fds, c`shortages, c`strandings
    ensures c.Valid() && (r == 0 <==> Findable(old(c.Fs()), name))
    ensures r == 0 ==>
      && Stored(old(c.Fs()), page, name) && Sane(mid, PAGES_PER_SECTOR)
      && !mid.gcWait && mid.hint == old(c.vol.nextFree)
    ensures r == 0 && HasFd(old(c.fds[..])) && !Strands(mid, PAGES_PER_SECTOR, PageCountFor(DYN_SIZE)) ==>
      (fd >= 0 <==> RoomAtLast(mid, PAGES_PER_SECTOR, PageCountFor(DYN_SIZE)))
    ensures r == 0 && HasFd(old(c.fds[..])) && PageCountFor(DYN_SIZE) < PAGE_COUNT ==>
      IsFile(old(c.vol.Disk()), page) && (DiskWithout(old(c.vol.Disk()), page) == map[] ==> fd >= 0)
  {
    hide Volume.Valid, Volume.Disk, Ok, Decode, DiskWithout, SameView, SameSharing, OnFile, Rests, Findable, HasFd;
    hide HasSlot;
    hide Starved, Strands, Volume.Alloc, Coffee.CanMake, RoomAtLast, Sane;
    ghost var s := c.Fs();
    r, page := c.CfsRemove(name);
    ghost var s1 := c.Fs();
    FlashIsValid(c.vol);
    mid := c.vol.Alloc();
    StillNotStored(s, s1, page, other);
    AllocSane(c.vol);
    if r == 0 {
      RoomIsEnough(c, PageCountFor(DYN_SIZE));
      if HasFd(s.fds) {
        FdsStay(s, s1, page);
      }
      if PageCountFor(DYN_SIZE) < PAGE_COUNT && s1.disk == map[] {
        NothingLeft(c.vol, PageCountFor(DYN_SIZE));
      }
    }
    fd := c.CfsOpen(other, flags);
  }
}
