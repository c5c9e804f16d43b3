/** Giving a file a log, and appending to it. */
module FileLogs {
  import opened FlashDevice
  import opened Headers
  import opened Disks
  import opened MicroLogs
  import opened FileStates
  import opened FileSteps
  import opened FileTouches

  // ---------------------------------------------------------------------- confined

  /** An extent that is neither the file at `p` nor its log. */
  ghost predicate Foreign(D: Disk, p: int, q: int) {
    q in D && q != p && !(IsModifiedFile(D, p) && Decode(D[p]).logPage == q)
  }

  /** Between `D` and `D'` only the extents of one file were written, while it moved
      from `p` to `p'`. */
  ghost predicate Confined(D: Disk, p: int, D': Disk, p': int) {
    forall q :: Foreign(D, p, q) ==> Foreign(D', p', q) && D'[q] == D[q]
  }

  lemma ConfinedTrans(D: Disk, p: int, D1: Disk, p1: int, D2: Disk, p2: int)
    requires Confined(D, p, D1, p1) && Confined(D1, p1, D2, p2)
    ensures Confined(D, p, D2, p2)
  {
    hide Foreign;
  }

  /** No file appeared but the one that moved from `p` to `p'`, and no slot has another
      extent of old, or another size for it. */
  ghost predicate OthersRest(s: FsState, p: int, s': FsState, p': int) {
    && (forall q :: IsFile(s'.disk, q) ==> q == p' || Foreign(s.disk, p, q))
    && (forall i :: 0 <= i < |s'.files| && Foreign(s.disk, p, s'.files[i].page) ==> Rests(s, s', i))
  }

  ghost predicate Rests(s: FsState, s': FsState, i: int)
    requires 0 <= i < |s'.files|
  {
    s'.files[i].IsFree() ||
    (i < |s.files| && !s.files[i].IsFree() && s.files[i].page == s'.files[i].page && s.files[i].end == s'.files[i].end)
  }

  lemma OthersRestRefl(s: FsState, p: int)
    requires DiskOk(s.disk) && IsFile(s.disk, p)
    ensures OthersRest(s, p, s, p)
  {
    hide Decode, ConfigOk, CleanLog;
    FilesOk(s.disk);
  }

  lemma OthersRestTrans(s: FsState, p: int, s1: FsState, p1: int, s2: FsState, p2: int)
    requires Confined(s.disk, p, s1.disk, p1) && Confined(s1.disk, p1, s2.disk, p2)
    requires OthersRest(s, p, s1, p1) && OthersRest(s1, p1, s2, p2)
    ensures OthersRest(s, p, s2, p2)
  {
    hide Decode;
    forall q | IsFile(s2.disk, q)
      ensures q == p2 || Foreign(s.disk, p, q)
    {
      if q != p2 {
        assert Foreign(s1.disk, p1, q) && s2.disk[q] == s1.disk[q];
        assert IsFile(s1.disk, q);
      }
    }
    forall i | 0 <= i < |s2.files| && Foreign(s.disk, p, s2.files[i].page)
      ensures Rests(s, s2, i)
    {
      assert Foreign(s1.disk, p1, s2.files[i].page);
    }
  }

  /** A change to the file in slot `i` and its log leaves the others alone. */
  lemma TouchedRest(s: FsState, s': FsState, i: int)
    requires DiskOk(s.disk) && 0 <= i < |s.files| && IsFile(s.disk, s.files[i].page)
    requires OnlyFile(s.disk, s'.disk, s.files[i].page)
    requires |s'.files| == |s.files| && s'.files[i].page == s.files[i].page && s'.files == s.files[i := s'.files[i]]
    ensures OthersRest(s, s.files[i].page, s', s.files[i].page)
  {
    hide Decode, ConfigOk, CleanLog, Base;
    FilesOk(s.disk);
    forall q | IsFile(s'.disk, q)
      ensures IsFile(s.disk, q)
    {
      assert SameShape(s.disk, s'.disk, q);
    }
  }

  // --------------------------------------------------------------- how full a log is

  ghost function RecordSizeAt(D: Disk, p: int): nat {
    if p in D && |D[p]| >= HEADER_SIZE then RecordSize(Decode(D[p])) else 0
  }

  ghost function RecordsAt(D: Disk, p: int): nat {
    if RecordSizeAt(D, p) > 0 then Records(Decode(D[p])) else 0
  }

  /** How many records the log of the file at `p` holds. */
  ghost function Taken(D: Disk, p: int): nat {
    if IsModifiedFile(D, p) && FileOk(D, p) then Used(LogOf(D, p), 0, Records(Decode(D[p]))) else 0
  }

  ghost predicate SameConfigAt(D: Disk, p: int, D': Disk, p': int) {
    RecordSizeAt(D', p') == RecordSizeAt(D, p) && RecordsAt(D', p') == RecordsAt(D, p)
  }

  lemma SameFields(D: Disk, p: int, D': Disk, p': int)
    requires p in D && |D[p]| >= HEADER_SIZE && p' in D' && |D'[p']| >= HEADER_SIZE
    requires Decode(D'[p']).logRecords == Decode(D[p]).logRecords
    requires Decode(D'[p']).logRecordSize == Decode(D[p]).logRecordSize
    ensures SameConfigAt(D, p, D', p')
  {
    hide Decode;
    SameConfig(Decode(D[p]), Decode(D'[p']));
  }

  // ------------------------------------------------------------------ a blank log

  /** A blank extent is an empty log. */
  lemma BlankLog(h: Header, log: Bytes)
    requires ConfigOk(h) && HEADER_SIZE + LogSize(h) <= |log|
    requires AllZero(log[HEADER_SIZE..])
    ensures HEADER_SIZE + 2 * Records(h) <= |log|
    ensures CleanLog(h, log) && Used(log, 0, Records(h)) == 0
    ensures forall r: nat :: Newest(log, Records(h), r) == -1
  {
    hide Times, Uint16;
    TableFits(h);
    var n := Records(h);
    assert forall x :: HEADER_SIZE <= x < |log| ==> log[x] == log[HEADER_SIZE..][x - HEADER_SIZE];
    ZeroUint16();
    forall r: nat
      ensures Newest(log, n, r) == -1
    {
      NewestIs(log, n, r, -1);
    }
    RecordBounds(h, 0);
  }

  /** The header of a file that was given the log at `lp`. */
  ghost predicate PointsTo(ext: Bytes, ext': Bytes, lp: int)
    requires |ext| >= HEADER_SIZE
  {
    && lp >= 0 && |ext'| == |ext| && ext'[HEADER_SIZE..] == ext[HEADER_SIZE..]
    && Decode(ext').IsModified() && !Decode(ext').IsLog()
    && Decode(ext') == Decode(ext).(logPage := lp, flags := Decode(ext').flags)
  }

  /** An extent that can become the log of the file at `p`. */
  ghost predicate Spare(D: Disk, p: int, lp: int) {
    && IsFile(D, p) && lp in D && lp != p && !IsFile(D, lp) && |D[lp]| >= HEADER_SIZE
    && (forall q :: IsModifiedFile(D, q) ==> Decode(D[q]).logPage != lp)
    && AllZero(D[lp][HEADER_SIZE..])
    && ConfigOk(Decode(D[p])) && |D[lp]| >= HEADER_SIZE + LogSize(Decode(D[p]))
  }

  lemma NewLogDisk(D: Disk, p: int, lp: int, ext': Bytes)
    requires DiskOk(D) && IsFile(D, p) && !IsModifiedFile(D, p)
    requires Spare(D, p, lp) && PointsTo(D[p], ext', lp)
    ensures var D' := D[p := ext'];
      && DiskOk(D') && OnlyFile(D, D', p) && Confined(D - {lp}, p, D', p)
      && IsModifiedFile(D', p) && LogOf(D', p) == D[lp]
      && FileOk(D', p) && HEADER_SIZE + 2 * Records(Decode(ext')) <= |D[lp]|
      && Used(D[lp], 0, Records(Decode(ext'))) == 0
      && forall o :: ByteAt(D', p, o) == ByteAt(D, p, o)
  {
    hide Decode, Base, ConfigOk, Times, CleanLog, Used, Newest, Entry, Region, Within, RecordAt;
    var D' := D[p := ext'];
    SameConfig(Decode(D[p]), Decode(ext'));
    BlankLog(Decode(ext'), D[lp]);
    FilesOk(D);
    forall q | IsFile(D', q)
      ensures FileOk(D', q)
      ensures q != p ==> LogOf(D', q) == LogOf(D, q)
    {
      if q != p {
        assert IsFile(D, q) && FileOk(D, q);
      }
    }
    forall o | 0 <= o && HEADER_SIZE + o < |ext'|
      ensures ByteAt(D', p, o) == ByteAt(D, p, o)
    {
      assert ext'[HEADER_SIZE..][o] == D[p][HEADER_SIZE..][o];
    }
  }

  /** Only the two log fields of a header matter to its log. */
  lemma SameConfig(h: Header, h': Header)
    requires h'.logRecords == h.logRecords && h'.logRecordSize == h.logRecordSize
    ensures RecordSize(h') == RecordSize(h) && (ConfigOk(h') <==> ConfigOk(h))
    ensures RecordSize(h) > 0 ==> Records(h') == Records(h) && LogSize(h') == LogSize(h)
  {
  }

  // -------------------------------------------------------------- appending a record

  /** `data` is the old content of a region, as far as the extent goes, with `d` over it
      from `off` on. */
  ghost predicate Patched(D: Disk, p: int, region: nat, rs: nat, data: Bytes, off: nat, d: Bytes)
    requires IsFile(D, p) && 0 < rs
  {
    && |data| == rs && |d| > 0 && off + |d| + HEADER_SIZE <= |D[p]|
    && Region(off, rs) == region && |d| <= rs - Within(off, rs)
    && forall x :: 0 <= x && HEADER_SIZE + x < |D[p]| && Region(x, rs) == region ==>
         data[Within(x, rs)] == if off <= x < off + |d| then d[x - off] else ByteAt(D, p, x)
  }

  /** The file at `p` reads as before, but for `d` at `off`. */
  ghost predicate BytesWritten(D: Disk, D': Disk, p: int, off: nat, d: Bytes)
    requires p in D
  {
    forall o :: 0 <= o && HEADER_SIZE + o < |D[p]| ==>
      ByteAt(D', p, o) == if off <= o < off + |d| then d[o - off] else ByteAt(D, p, o)
  }

  /** The log has a record for the byte at `o`. */
  ghost predicate Logged(D: Disk, p: int, o: nat) {
    && IsModifiedFile(D, p) && FileOk(D, p)
    && HEADER_SIZE + 2 * Records(Decode(D[p])) <= |LogOf(D, p)|
    && Newest(LogOf(D, p), Records(Decode(D[p])), Region(o, RecordSize(Decode(D[p])))) >= 0
  }

  lemma AppendDisk(D: Disk, p: int, k: nat, region: nat, data: Bytes, off: nat, d: Bytes)
    requires DiskOk(D) && IsModifiedFile(D, p) && FileOk(D, p) && CleanLog(Decode(D[p]), LogOf(D, p))
    requires k == Used(LogOf(D, p), 0, Records(Decode(D[p]))) < Records(Decode(D[p]))
    requires region + 1 < 0x1_0000 && Patched(D, p, region, RecordSize(Decode(D[p])), data, off, d)
    ensures var h := Decode(D[p]); var D' := D[h.logPage := Appended(h, LogOf(D, p), k, region, data)];
      && DiskOk(D') && OnlyFile(D, D', p) && Confined(D, p, D', p)
      && IsModifiedFile(D', p) && D'[p] == D[p] && FileOk(D', p)
      && BytesWritten(D, D', p, off, d) && Logged(D', p, off + |d| - 1)
      && HEADER_SIZE + 2 * Records(h) <= |LogOf(D', p)| && Used(LogOf(D', p), 0, Records(h)) == k + 1
  {
    hide Decode, Base, ConfigOk, Times, CleanLog, Used, Newest, Entry, Region, Within, RecordAt, Appended, Patched;
    hide BytesWritten, Byte, ByteAt;
    var h := Decode(D[p]);
    var log := LogOf(D, p);
    LogFits(h, log);
    PatchedSize(D, p, region, RecordSize(h), data, off, d);
    var log' := Appended(h, log, k, region, data);
    var D' := D[h.logPage := log'];
    OwnLog(D, p);
    AppendedHeader(h, log, k, region, data);
    AppendedClean(h, log, k, region, data);
    FilesOk(D);
    forall q | IsFile(D', q)
      ensures FileOk(D', q)
      ensures q != p ==> LogOf(D', q) == LogOf(D, q)
    {
      if q != p {
        assert IsFile(D, q) && FileOk(D, q);
      }
    }
    AppendBytes(D, D', p, k, region, data, off, d);
  }

  lemma LogFits(h: Header, log: Bytes)
    requires CleanLog(h, log)
    ensures 1 <= RecordSize(h) <= PAGE_SIZE && 1 <= Records(h) <= LOG_TABLE_LIMIT
    ensures HEADER_SIZE + LogSize(h) <= |log| && HEADER_SIZE + 2 * Records(h) <= |log|
  {
  }

  lemma PatchedSize(D: Disk, p: int, region: nat, rs: nat, data: Bytes, off: nat, d: Bytes)
    requires IsFile(D, p) && 0 < rs && Patched(D, p, region, rs, data, off, d)
    ensures |data| == rs && |d| > 0
  {
  }

  lemma AppendedHeader(h: Header, log: Bytes, k: nat, region: nat, data: Bytes)
    requires CleanLog(h, log) && k == Used(log, 0, Records(h)) < Records(h)
    requires region + 1 < 0x1_0000 && |data| == RecordSize(h)
    ensures var log' := Appended(h, log, k, region, data); |log'| == |log| && Decode(log') == Decode(log)
  {
    hide ConfigOk, Used, Entry, Appended, Decode, Times;
    var log' := Appended(h, log, k, region, data);
    AppendedBytes(h, log, k, region, data);
    assert log'[..HEADER_SIZE] == log[..HEADER_SIZE];
    DecodePrefix(log', log[..HEADER_SIZE]);
    DecodePrefix(log, log[..HEADER_SIZE]);
  }

  lemma AppendBytes(D: Disk, D': Disk, p: int, k: nat, region: nat, data: Bytes, off: nat, d: Bytes)
    requires IsModifiedFile(D, p) && FileOk(D, p) && CleanLog(Decode(D[p]), LogOf(D, p))
    requires IsModifiedFile(D', p) && FileOk(D', p) && D'[p] == D[p]
    requires k == Used(LogOf(D, p), 0, Records(Decode(D[p]))) < Records(Decode(D[p]))
    requires region + 1 < 0x1_0000 && Patched(D, p, region, RecordSize(Decode(D[p])), data, off, d)
    requires LogOf(D', p) == Appended(Decode(D[p]), LogOf(D, p), k, region, data)
    ensures BytesWritten(D, D', p, off, d) && Logged(D', p, off + |d| - 1)
  {
    hide Decode, Base, ConfigOk, Times, CleanLog, Used, Newest, Entry, Region, Within, RecordAt, Appended, LogOf;
    hide FileOk, Byte;
    var h := Decode(D[p]);
    var rs := RecordSize(h);
    var log := LogOf(D, p);
    forall o | 0 <= o && HEADER_SIZE + o < |D[p]|
      ensures ByteAt(D', p, o) == if off <= o < off + |d| then d[o - off] else ByteAt(D, p, o)
    {
      AppendedByte(D[p], log, k, region, data, o);
      SameRegion(off, o, rs);
    }
    AppendedNewest(h, log, k, region, data);
    SameRegion(off, off + |d| - 1, rs);
  }

  lemma AppendedNewest(h: Header, log: Bytes, k: nat, region: nat, data: Bytes)
    requires CleanLog(h, log) && k == Used(log, 0, Records(h)) < Records(h)
    requires region + 1 < 0x1_0000 && |data| == RecordSize(h)
    ensures HEADER_SIZE + 2 * Records(h) <= |log|
    ensures var log' := Appended(h, log, k, region, data);
      |log'| == |log| && Newest(log', Records(h), region) >= 0
  {
    hide ConfigOk, Times, Appended, Entry, Used, Newest, LogSize;
    TableFits(h);
    AppendedEntries(h, log, k, region, data);
    var log' := Appended(h, log, k, region, data);
    NewestFound(log', Records(h), region);
    assert Entry(log', k) == region + 1;
  }

  // ------------------------------------------------------------ writing in the extent

  /** Writing behind the header of an extent, where the file has a log or does not. */
  lemma ExtentDisk(D: Disk, p: int, ext': Bytes)
    requires DiskOk(D) && IsFile(D, p) && FileOk(D, p)
    requires |ext'| == |D[p]| && ext'[..HEADER_SIZE] == D[p][..HEADER_SIZE]
    ensures var D' := D[p := ext'];
      && DiskOk(D') && OnlyFile(D, D', p) && Confined(D, p, D', p) && IsFile(D', p) && FileOk(D', p)
      && Decode(ext') == Decode(D[p]) && LogOf(D', p) == LogOf(D, p)
      && (IsModifiedFile(D, p) <==> IsModifiedFile(D', p))
      && (forall o ::
            || (IsModifiedFile(D, p) && 0 <= o && Logged(D, p, o))
            || (0 <= o && HEADER_SIZE + o < |ext'| && ext'[HEADER_SIZE + o] == D[p][HEADER_SIZE + o]) ==>
            ByteAt(D', p, o) == ByteAt(D, p, o))
      && (forall o :: !IsModifiedFile(D, p) && 0 <= o && HEADER_SIZE + o < |ext'| ==>
           ByteAt(D', p, o) == ext'[HEADER_SIZE + o])
  {
    hide Decode, Base, ConfigOk, Times, CleanLog, Used, Newest, Entry, Region, Within, RecordAt;
    var D' := D[p := ext'];
    DecodePrefix(ext', ext'[..HEADER_SIZE]);
    DecodePrefix(D[p], ext'[..HEADER_SIZE]);
    FilesOk(D);
    forall q | IsFile(D', q)
      ensures FileOk(D', q)
      ensures LogOf(D', q) == LogOf(D, q)
    {
      assert IsFile(D, q) && FileOk(D, q) && FileOk(D, p);
    }
  }

  // ---------------------------------------------------------------- creating a log

  /** create_log: the file in slot `i` has the empty log at `lp`, and nobody notices. */
  ghost predicate LogCreated(s: FsState, s': FsState, i: int, lp: int) {
    && 0 <= i < |s.files| == |s'.files| && s'.fds == s.fds
    && s'.files[i] == s.files[i].(modified := true)
    && SameViews(s, s') && lp !in s.disk
    && var p := s.files[i].page;
       && p in s.disk && |s.disk[p]| >= HEADER_SIZE
       && IsModifiedFile(s'.disk, p) && FileOk(s'.disk, p)
       && PointsTo(s.disk[p], s'.disk[p], lp)
       && HEADER_SIZE + 2 * Records(Decode(s'.disk[p])) <= |LogOf(s'.disk, p)|
       && Used(LogOf(s'.disk, p), 0, Records(Decode(s'.disk[p]))) == 0
       && Confined(s.disk, p, s'.disk, p) && OthersRest(s, p, s', p) && EndOf(s'.disk[p]) == EndOf(s.disk[p])
       && SameConfigAt(s.disk, p, s'.disk, p) && Taken(s'.disk, p) == 0
       && forall o :: ByteAt(s'.disk, p, o) == ByteAt(s.disk, p, o)
  }

  /** The header create_log writes over the old one. */
  lemma LogHeader(ext: Bytes, h: Header, lp: nat)
    requires |ext| >= HEADER_SIZE && lp < 0x1_0000
    requires Decode(ext).logPage == 0 && !Decode(ext).IsLog()
    requires h == Decode(ext).(logPage := lp, flags := Decode(ext).flags | HDR_FLAG_MODIFIED)
    ensures h.Fits() && CanOverwrite(Decode(ext), h) && h.maxPages == Decode(ext).maxPages
    ensures h.IsObsolete() == Decode(ext).IsObsolete() && h.IsIsolated() == Decode(ext).IsIsolated()
    ensures var e := OrInto(ext, 0, Encode(h.(flags := h.flags | HDR_FLAG_VALID)));
      PointsTo(ext, e, lp) && Decode(e) == h.(flags := h.flags | HDR_FLAG_VALID)
  {
    hide Decode, Encode;
    LogFlags(Decode(ext).flags);
    HeaderOr(ext, h.(flags := h.flags | HDR_FLAG_VALID));
  }

  lemma LogFlags(f: bv8)
    ensures var g := f | HDR_FLAG_MODIFIED; var r := f | (g | HDR_FLAG_VALID);
      && Has(r, HDR_FLAG_MODIFIED) && (Has(r, HDR_FLAG_LOG) <==> Has(f, HDR_FLAG_LOG))
      && r == (g | HDR_FLAG_VALID)
      && (Has(g, HDR_FLAG_OBSOLETE) <==> Has(f, HDR_FLAG_OBSOLETE))
      && (Has(g, HDR_FLAG_ISOLATED) <==> Has(f, HDR_FLAG_ISOLATED))
  {
  }

  lemma ConfigSizes(h: Header)
    requires ConfigOk(h)
    ensures 1 <= RecordSize(h) <= PAGE_SIZE && 1 <= Records(h) <= LOG_TABLE_LIMIT && LogSize(h) < 0x8000
  {
  }

  lemma FreshIsSpare(s: FsState, s1: FsState, p: int, lp: int, h: Header)
    requires Ok(s) && IsFile(s.disk, p) && lp !in s.disk
    requires ConfigOk(Decode(s.disk[p]))
    requires FreshFile(h) && h.IsLog() && h.maxPages == PageCountFor(LogSize(Decode(s.disk[p])))
    requires s1.disk == s.disk[lp := FreshExtent(h)]
    ensures Spare(s1.disk, p, lp)
  {
    hide Decode, Base, ConfigOk, Times, CleanLog, FreshExtent, LogSize, PageCountFor, DiskOk, RecordSize, Records;
    hide Header.IsLog, Header.IsModified, AllZero;
    FreshHeader(h);
    ConfigSizes(Decode(s.disk[p]));
    PageCountIsCeiling(LogSize(Decode(s.disk[p])));
    FilesOk(s.disk);
    forall q | IsModifiedFile(s1.disk, q)
      ensures Decode(s1.disk[q]).logPage != lp
    {
      assert IsFile(s.disk, q) && FileOk(s.disk, q);
    }
  }

  lemma CreatedLogOk(s: FsState, s1: FsState, s': FsState, i: int, li: int, h: Header, ext': Bytes)
    requires Ok(s) && 0 <= i < |s.files| && CachedFile(s.disk, s.files[i]) && !s.files[i].modified
    requires s.files[i].references > 0
    requires li != -1 && Reserved(s, s1, li, h) && h.IsLog()
    requires ConfigOk(Decode(s.disk[s.files[i].page]))
    requires h.maxPages == PageCountFor(LogSize(Decode(s.disk[s.files[i].page])))
    requires PointsTo(s.disk[s.files[i].page], ext', s1.files[li].page)
    requires s' == FsState(s1.disk[s.files[i].page := ext'], s1.files[i := s1.files[i].(modified := true)], s1.fds)
    ensures Ok(s') && LogCreated(s, s', i, s1.files[li].page)
  {
    hide Decode, Base, ConfigOk, Times, CleanLog, FreshExtent, LogSize, DiskOk, FileOk, LogOf, ByteAt, Used;
    hide OpenCount, BlankPast, Spare, PointsTo, OthersRest, EndOf;
    var p, lp := s.files[i].page, s1.files[li].page;
    ReservedOk(s, s1, li, h);
    assert s1.files[i] == s.files[i];
    FreshIsSpare(s, s1, p, lp, h);
    assert SlotOk(s1.disk, s1.files[i]);
    NewLogDisk(s1.disk, p, lp, ext');
    var f := s1.files[i].(modified := true);
    PointingBlank(s.disk[p], ext', lp);
    LoggedSlotOk(s1.disk, s'.disk, s1.files[i]);
    TouchedOk(s1, s'.disk, i, f);
    SameBytesViews(s1, s', i);
    SameViewsTrans(s, s1, s');
    assert s1.disk - {lp} == s.disk;
    CreatedRest(s, s1, s', i, li, h);
    NewPageBytes(s, s1, p, lp);
    PointingConfig(s.disk, p, s'.disk, ext', lp);
  }

  lemma PointingConfig(D: Disk, p: int, D': Disk, ext': Bytes, lp: int)
    requires p in D && |D[p]| >= HEADER_SIZE && PointsTo(D[p], ext', lp) && p in D' && D'[p] == ext'
    ensures SameConfigAt(D, p, D', p)
  {
    hide Decode, SameConfigAt;
    SameFields(D, p, D', p);
  }

  /** A new log is not a file, and takes a slot of its own. */
  lemma CreatedRest(s: FsState, s1: FsState, s': FsState, i: int, li: int, h: Header)
    requires DiskOk(s1.disk) && 0 <= i < |s.files| && IsFile(s.disk, s.files[i].page)
    requires !IsModifiedFile(s.disk, s.files[i].page)
    requires li != -1 && li != i && Reserved(s, s1, li, h) && h.IsLog() && OnlyFile(s1.disk, s'.disk, s.files[i].page)
    requires |s'.files| == |s1.files| && s'.files[i].page == s1.files[i].page && s'.files == s1.files[i := s'.files[i]]
    ensures OthersRest(s, s.files[i].page, s', s.files[i].page)
  {
    hide Decode, ConfigOk, CleanLog, Base, FreshExtent;
    FreshHeader(h);
    forall q | IsFile(s'.disk, q)
      ensures q in s.disk
    {
      assert SameShape(s1.disk, s'.disk, q);
    }
  }

  /** Pointing to a log changes nothing behind the header. */
  lemma PointingBlank(ext: Bytes, ext': Bytes, lp: int)
    requires |ext| >= HEADER_SIZE && PointsTo(ext, ext', lp)
    ensures forall at :: HEADER_SIZE <= at && ZeroFrom(ext, at) ==> ZeroFrom(ext', at)
    ensures EndOf(ext') == EndOf(ext)
  {
    hide Decode, EndOf;
    forall x | HEADER_SIZE <= x < |ext|
      ensures ext'[x] == ext[x]
    {
      assert ext'[x] == ext'[HEADER_SIZE..][x - HEADER_SIZE];
    }
    SameEnd(ext, ext');
  }

  lemma LoggedSlotOk(D: Disk, D': Disk, f: Slot)
    requires SlotOk(D, f) && CachedFile(D, f) && !f.modified && f.references > 0
    requires OnlyFile(D, D', f.page) && IsModifiedFile(D', f.page)
    requires forall at :: HEADER_SIZE <= at && ZeroFrom(D[f.page], at) ==> ZeroFrom(D'[f.page], at)
    ensures SlotOk(D', f.(modified := true))
  {
    hide Decode, Base, Used, LogOf, FileOk;
    assert SameShape(D, D', f.page);
  }

  /** Nobody notices a change under which every byte of the file stays the same. */
  lemma SameBytesViews(s: FsState, s': FsState, i: int)
    requires 0 <= i < |s.files| == |s'.files| && s'.fds == s.fds
    requires s'.files == s.files[i := s'.files[i]]
    requires var f, f' := s.files[i], s'.files[i]; f'.page == f.page && f'.end == f.end
    requires var p := s.files[i].page;
      p in s.disk && p in s'.disk && |s'.disk[p]| == |s.disk[p]|
        && forall o :: ByteAt(s'.disk, p, o) == ByteAt(s.disk, p, o)
    requires NameAt(s'.disk, s.files[i].page) == NameAt(s.disk, s.files[i].page)
    requires forall k :: IsOpenFd(s, k) && s.fds[k].file != i ==> SameView(s, s', k)
    ensures SameViews(s, s')
  {
    hide ByteAt, NameAt, BlankPast;
    forall k | 0 <= k < |s.fds|
      ensures SameView(s, s', k)
    {
      if IsOpenFd(s, k) && s.fds[k].file == i {
        BlankPastSame(s, s', i, i);
      }
    }
  }

  /** A fresh extent changes no byte of a file. */
  lemma NewPageBytes(s: FsState, s1: FsState, p: int, lp: int)
    requires Ok(s) && Ok(s1) && IsFile(s.disk, p) && lp !in s.disk && s1.disk.Keys == s.disk.Keys + {lp}
    requires Extends(s.disk, s1.disk)
    ensures forall o :: ByteAt(s1.disk, p, o) == ByteAt(s.disk, p, o)
  {
    hide Decode, Base, ConfigOk, CleanLog, Byte;
    FilesOk(s.disk);
    FilesOk(s1.disk);
    SameBytes(s.disk, s1.disk, p);
  }

  // ------------------------------------------------------------- patching a record

  /** The old content of a region, as far as the extent goes. */
  ghost predicate OldRecord(D: Disk, p: int, region: nat, rs: nat, base: Bytes)
    requires IsFile(D, p) && 0 < rs
  {
    && |base| == rs
    && forall x :: 0 <= x && HEADER_SIZE + x < |D[p]| && Region(x, rs) == region ==>
         base[Within(x, rs)] == ByteAt(D, p, x)
  }

  /** The newest record of a region holds its content; without one the extent does. */
  lemma OldRecordOf(D: Disk, p: int, region: nat, base: Bytes)
    requires DiskOk(D) && IsModifiedFile(D, p) && FileOk(D, p) && CleanLog(Decode(D[p]), LogOf(D, p))
    requires |base| == RecordSize(Decode(D[p]))
    requires var h := Decode(D[p]); var log := LogOf(D, p); var j := Newest(log, Records(h), region);
      && (j >= 0 ==>
            && RecordAt(h, j) + RecordSize(h) <= |log|
            && base == log[RecordAt(h, j)..RecordAt(h, j) + RecordSize(h)])
      && (j < 0 ==> forall x :: 0 <= x < RecordSize(h) && HEADER_SIZE + Times(region, RecordSize(h)) + x < |D[p]| ==>
            base[x] == D[p][HEADER_SIZE + Times(region, RecordSize(h)) + x])
    ensures OldRecord(D, p, region, RecordSize(Decode(D[p])), base)
  {
    hide Decode, Base, ConfigOk, Times, CleanLog, Used, Newest, Entry, Region, Within, RecordAt, LogOf, FileOk, Byte;
    hide DiskOk;
    var h := Decode(D[p]);
    var rs := RecordSize(h);
    var log := LogOf(D, p);
    LogFits(h, log);
    forall x | 0 <= x && HEADER_SIZE + x < |D[p]| && Region(x, rs) == region
      ensures base[Within(x, rs)] == ByteAt(D, p, x)
    {
      RegionSplit(x, rs);
      ReadRegion(D[p], log, x, 1);
    }
  }

  /** `d` written over the old record at its place. */
  lemma PatchedOf(D: Disk, p: int, rs: nat, base: Bytes, off: nat, d: Bytes)
    requires IsFile(D, p) && 0 < rs == |base|
    requires 0 < |d| <= rs - Within(off, rs) && off + |d| + HEADER_SIZE <= |D[p]|
    requires OldRecord(D, p, Region(off, rs), rs, base) || |d| == rs
    ensures Patched(D, p, Region(off, rs), rs, base[..Within(off, rs)] + d + base[Within(off, rs) + |d|..], off, d)
  {
    hide Decode, Region, Within, ByteAt;
    var w := Within(off, rs);
    var data := base[..w] + d + base[w + |d|..];
    forall x | 0 <= x && HEADER_SIZE + x < |D[p]| && Region(x, rs) == Region(off, rs)
      ensures data[Within(x, rs)] == if off <= x < off + |d| then d[x - off] else ByteAt(D, p, x)
    {
      SameRegion(off, x, rs);
    }
  }

  /** write_log_page wrote `d` at `off` of the file in slot `i`. */
  ghost predicate LogWritten(s: FsState, s': FsState, i: int, off: nat, d: Bytes) {
    && 0 <= i < |s.files| == |s'.files| && s'.fds == s.fds && |d| > 0
    && s'.files[i] == s.files[i].(modified := true, recordCount := s'.files[i].recordCount)
    && (forall k :: IsOpenFd(s, k) && s.fds[k].file != i ==> SameView(s, s', k))
    && var p := s.files[i].page;
       && p in s.disk && p in s'.disk && |s'.disk[p]| == |s.disk[p]| && off + |d| + HEADER_SIZE <= |s.disk[p]|
       && BytesWritten(s.disk, s'.disk, p, off, d) && NameAt(s'.disk, p) == NameAt(s.disk, p)
       && EndOf(s'.disk[p]) == EndOf(s.disk[p])
       && SameConfigAt(s.disk, p, s'.disk, p) && Taken(s'.disk, p) == Taken(s.disk, p) + 1
       && Logged(s'.disk, p, off + |d| - 1)
       && Confined(s.disk, p, s'.disk, p) && OthersRest(s, p, s', p)
  }

  lemma AppendedOk(s: FsState, s': FsState, i: int, k: nat, data: Bytes, off: nat, d: Bytes)
    requires Ok(s) && 0 <= i < |s.files| && CachedFile(s.disk, s.files[i]) && s.files[i].modified
    requires s.files[i].references > 0
    requires var p := s.files[i].page; var h := Decode(s.disk[p]);
      && IsModifiedFile(s.disk, p) && FileOk(s.disk, p) && CleanLog(h, LogOf(s.disk, p))
      && k == Used(LogOf(s.disk, p), 0, Records(h)) < Records(h)
      && Region(off, RecordSize(h)) + 1 < 0x1_0000
      && Patched(s.disk, p, Region(off, RecordSize(h)), RecordSize(h), data, off, d)
      && s' == FsState(s.disk[h.logPage := Appended(h, LogOf(s.disk, p), k, Region(off, RecordSize(h)), data)],
                       s.files[i := s.files[i].(recordCount := k + 1)], s.fds)
    ensures Ok(s') && LogWritten(s, s', i, off, d)
  {
    hide Decode, Base, ConfigOk, Times, CleanLog, Used, LogOf, ByteAt, OpenCount, BlankPast, Patched, Appended;
    hide BytesWritten, Logged, DiskOk, FileOk, Confined, OthersRest, EndOf;
    var p := s.files[i].page;
    var h := Decode(s.disk[p]);
    LogFits(h, LogOf(s.disk, p));
    PatchedFits(s.disk, p, Region(off, RecordSize(h)), RecordSize(h), data, off, d);
    AppendDisk(s.disk, p, k, Region(off, RecordSize(h)), data, off, d);
    assert SlotOk(s.disk, s.files[i]);
    TouchedOk(s, s'.disk, i, s'.files[i]);
    TouchedRest(s, s', i);
  }

  lemma PatchedFits(D: Disk, p: int, region: nat, rs: nat, data: Bytes, off: nat, d: Bytes)
    requires IsFile(D, p) && 0 < rs && Patched(D, p, region, rs, data, off, d)
    ensures |data| == rs && 0 < |d| && off + |d| + HEADER_SIZE <= |D[p]|
  {
  }

  /** A log created first makes no difference to what a record does. */
  lemma CreatedWritten(s: FsState, s1: FsState, s': FsState, i: int, lp: int, off: nat, d: Bytes)
    requires LogCreated(s, s1, i, lp) && LogWritten(s1, s', i, off, d)
    requires !IsModifiedFile(s.disk, s.files[i].page)
    ensures LogWritten(s, s', i, off, d)
  {
    hide Decode, ByteAt, Logged, IsModifiedFile, FileOk, LogOf, Used, Foreign, Confined, OthersRest, BlankPast, Data;
    hide EndOf;
    var p := s.files[i].page;
    ConfinedTrans(s.disk, p, s1.disk, p, s'.disk, p);
    OthersRestTrans(s, p, s1, p, s', p);
    forall k | IsOpenFd(s, k) && s.fds[k].file != i
      ensures SameView(s, s', k)
    {
      assert SameView(s, s1, k) && SameView(s1, s', k);
    }
  }
}
