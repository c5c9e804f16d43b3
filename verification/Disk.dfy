/** The device as the file layer sees it: the bytes of every live extent. */
module Disks {
  import opened FlashDevice
  import opened Headers
  import opened Layouts
  import opened Collecting
  import opened Pages

  ghost predicate Sound(m: Bytes) {
    |m| == Base(PAGE_COUNT) && WellFormed(View(m), PAGES_PER_SECTOR)
  }

  ghost predicate IsLive(m: Bytes, p: int)
    requires Sound(m)
  {
    Live(View(m), PAGES_PER_SECTOR, p)
  }

  ghost function Slice(m: Bytes, p: nat, span: nat): (b: Bytes)
    requires |m| == Base(PAGE_COUNT) && p + span <= PAGE_COUNT
    ensures |b| == Base(span)
  {
    BaseStep(p, span);
    BaseOrder(p + span, PAGE_COUNT);
    m[Base(p)..Base(p + span)]
  }

  ghost function SpanOf(m: Bytes, p: int): (s: nat)
    requires Sound(m) && IsLive(m, p)
    ensures 1 <= s && 0 <= p && p + s < PAGE_COUNT
  {
    LiveInRange(View(m), PAGES_PER_SECTOR, p);
    View(m)[p].span
  }

  /** The bytes of every extent that the scan finds, by first page. */
  ghost function DiskOf(m: Bytes): Disk
    requires Sound(m)
  {
    map p: int | 0 <= p < PAGE_COUNT && IsLive(m, p) :: Slice(m, p, SpanOf(m, p))
  }

  lemma DiskAt(m: Bytes, p: int)
    requires Sound(m)
    ensures p in DiskOf(m) <==> IsLive(m, p)
    ensures IsLive(m, p) ==> DiskOf(m)[p] == Slice(m, p, SpanOf(m, p))
  {
  }

  lemma SlicePrefix(m: Bytes, lo: int, hi: int, k: int)
    requires 0 <= lo && 0 <= k && lo + k <= hi <= |m|
    ensures m[lo..hi][..k] == m[lo..lo + k]
  {
  }

  lemma SlicePage(m: Bytes, p: nat, span: nat)
    requires |m| == Base(PAGE_COUNT) && p + span <= PAGE_COUNT && span >= 1
    ensures PAGE_SIZE <= Base(span) && Slice(m, p, span)[..PAGE_SIZE] == PageBytes(m, p)
  {
    hide Base, AllZero;
    BaseStep(1, span - 1);
    BaseOne();
    BaseOrder(p, p + span);
    BaseOrder(p + span, PAGE_COUNT);
    SlicePrefix(m, Base(p), Base(p + span), PAGE_SIZE);
  }

  lemma {:induction false} SliceSame(m: Bytes, m': Bytes, p: nat, span: nat)
    requires |m| == |m'| == Base(PAGE_COUNT) && p + span <= PAGE_COUNT
    requires forall q :: p <= q < p + span ==> PageBytes(m', q) == PageBytes(m, q)
    ensures Slice(m', p, span) == Slice(m, p, span)
  {
    if span > 0 {
      SliceSame(m, m', p, span - 1);
      SliceSplit(m, p, span - 1);
      SliceSplit(m', p, span - 1);
    }
  }

  lemma SliceSplit(m: Bytes, p: nat, span: nat)
    requires |m| == Base(PAGE_COUNT) && p + span + 1 <= PAGE_COUNT
    ensures Slice(m, p, span + 1) == Slice(m, p, span) + PageBytes(m, p + span)
  {
    BaseStep(p + span, 1);
    BaseOrder(p, p + span);
    PageInDevice(p + span);
    BaseOne();
  }

  /** Equal layouts on live extents and equal bytes give equal disks. */
  lemma SameDisk(m: Bytes, m': Bytes)
    requires Sound(m) && Sound(m')
    requires forall x :: IsLive(m', x) <==> IsLive(m, x)
    requires forall x :: IsLive(m, x) ==> View(m')[x] == View(m)[x]
    requires forall q :: 0 <= q < PAGE_COUNT && PageClass(View(m), PAGES_PER_SECTOR, 0, q) == Act ==>
      PageBytes(m', q) == PageBytes(m, q)
    ensures DiskOf(m') == DiskOf(m)
  {
    forall p | IsLive(m, p)
      ensures Slice(m', p, SpanOf(m', p)) == Slice(m, p, SpanOf(m, p))
    {
      UnitClass(View(m), PAGES_PER_SECTOR, 0, p);
      SliceSame(m, m', p, SpanOf(m, p));
    }
  }

  /** Bytes of other extents are outside the extent at `p`. */
  lemma OtherSlice(m: Bytes, m': Bytes, p: int, q: int)
    requires Sound(m) && |m'| == |m| && IsLive(m, p) && IsLive(m, q) && p != q
    requires forall i :: 0 <= i < |m| && !(Base(p) <= i < Base(p + SpanOf(m, p))) ==> m'[i] == m[i]
    ensures Slice(m', q, SpanOf(m, q)) == Slice(m, q, SpanOf(m, q))
    ensures View(m')[q] == View(m)[q]
  {
    hide Base, PageOf, PageBytes, Slice, Tiles, WellFormed, SectorEnd, Unit;
    var e := p + SpanOf(m, p);
    if p < q {
      LiveDisjoint(View(m), PAGES_PER_SECTOR, p, q);
    } else {
      LiveDisjoint(View(m), PAGES_PER_SECTOR, q, p);
    }
    PagesOutside(m, m', p, e);
    SliceSame(m, m', q, SpanOf(m, q));
  }

  /** What rewriting the bytes of one live extent does, when its header keeps the span. */
  ghost predicate Rewrites(m: Bytes, m': Bytes, p: int) {
    && Sound(m) && |m'| == |m| && IsLive(m, p)
    && (forall i :: 0 <= i < |m| && !(Base(p) <= i < Base(p + SpanOf(m, p))) ==> m'[i] == m[i])
    && var page := PageOf(PageBytes(m', p));
       (page == Active(SpanOf(m, p)) || page == Obsolete(SpanOf(m, p)))
  }

  lemma RewriteScan(m: Bytes, m': Bytes, p: int)
    requires Rewrites(m, m', p)
    ensures Sound(m')
    ensures forall x :: Position(View(m'), PAGES_PER_SECTOR, x) <==> Position(View(m), PAGES_PER_SECTOR, x)
    ensures forall y :: 0 <= y < PAGE_COUNT && !(p <= y < p + SpanOf(m, p)) ==> View(m')[y] == View(m)[y]
  {
    PagesOutside(m, m', p, p + SpanOf(m, p));
    forall x
      ensures Position(View(m'), PAGES_PER_SECTOR, x) <==> Position(View(m), PAGES_PER_SECTOR, x)
    {
      SameScan(View(m), View(m'), PAGES_PER_SECTOR, p, x);
    }
    SameScan(View(m), View(m'), PAGES_PER_SECTOR, p, 0);
  }

  lemma RewriteLive(m: Bytes, m': Bytes, p: int, x: int)
    requires Rewrites(m, m', p) && Sound(m')
    ensures x != p ==> (IsLive(m', x) <==> IsLive(m, x))
    ensures IsLive(m', p) <==> PageOf(PageBytes(m', p)).Active?
  {
    RewriteScan(m, m', p);
    if p < x < p + SpanOf(m, p) {
      if Position(View(m), PAGES_PER_SECTOR, x) {
        NoPositionInside(View(m), PAGES_PER_SECTOR, p, x);
      }
    }
  }

  lemma RewriteDisk(m: Bytes, m': Bytes, p: int)
    requires Rewrites(m, m', p)
    ensures Sound(m')
    ensures PageOf(PageBytes(m', p)).Active? ==> DiskOf(m') == DiskOf(m)[p := Slice(m', p, SpanOf(m, p))]
    ensures PageOf(PageBytes(m', p)).Obsolete? ==> DiskOf(m') == DiskOf(m) - {p}
  {
    hide Base, PageOf, AllZero, Tiles, WellFormed, SectorEnd, Unit, PageBytes, Slice;
    RewriteScan(m, m', p);
    forall x
      ensures x != p ==> (IsLive(m', x) <==> IsLive(m, x))
      ensures x != p && IsLive(m, x) ==>
        SpanOf(m', x) == SpanOf(m, x) && Slice(m', x, SpanOf(m, x)) == Slice(m, x, SpanOf(m, x))
      ensures IsLive(m', p) <==> PageOf(PageBytes(m', p)).Active?
    {
      RewriteLive(m, m', p, x);
      if x != p && IsLive(m, x) {
        OtherSlice(m, m', p, x);
      }
    }
  }

  lemma RewriteHint(m: Bytes, m': Bytes, p: int, hint: int)
    requires Rewrites(m, m', p)
    requires Position(View(m), PAGES_PER_SECTOR, hint) && NoFreeBelow(View(m), PAGES_PER_SECTOR, hint)
    ensures Sound(m')
    ensures Position(View(m'), PAGES_PER_SECTOR, hint) && NoFreeBelow(View(m'), PAGES_PER_SECTOR, hint)
  {
    hide Base, PageOf, PageBytes, Slice, NoFreeBelow, SectorEnd;
    RewriteScan(m, m', p);
    SameScanHint(View(m), View(m'), PAGES_PER_SECTOR, p, hint);
  }

  // -------------------------------------------------------------- single writes

  lemma DiskHeader(m: Bytes, p: int)
    requires Sound(m) && p in DiskOf(m)
    ensures 0 <= p < PAGE_COUNT && |DiskOf(m)[p]| >= PAGE_SIZE
    ensures var h := Decode(DiskOf(m)[p]);
      h == Decode(PageBytes(m, p)) && h.IsActive() && 1 <= h.maxPages == SpanOf(m, p)
      && p + h.maxPages < PAGE_COUNT && |DiskOf(m)[p]| == Base(h.maxPages)
    ensures DiskOf(m)[p][..PAGE_SIZE] == PageBytes(m, p)
  {
    DiskAt(m, p);
    SlicePage(m, p, SpanOf(m, p));
    HeaderTells(PageBytes(m, p));
    DecodePrefix(DiskOf(m)[p], PageBytes(m, p));
  }

  /** Only the first bytes matter to the header. */
  lemma DecodePrefix(b: Bytes, prefix: Bytes)
    requires HEADER_SIZE <= |prefix| <= |b| && prefix == b[..|prefix|]
    ensures Decode(prefix) == Decode(b)
  {
    assert prefix[10..HEADER_SIZE] == b[10..HEADER_SIZE];
  }

  lemma HeaderPage(b: Bytes)
    requires |b| >= HEADER_SIZE && !Decode(b).IsFree() && !Decode(b).IsIsolated()
    ensures PageOf(b) == if Decode(b).IsObsolete() then Obsolete(Decode(b).maxPages) else Active(Decode(b).maxPages)
  {
    if AllZero(b) {
      DecodeZero(b);
    }
  }

  /** A write inside the extent at `p`, at offset `off` of its first page on. */
  lemma WriteSlice(m: Bytes, p: int, off: nat, d: Bytes)
    requires Sound(m) && p in DiskOf(m) && off + |d| <= |DiskOf(m)[p]|
    ensures IsLive(m, p) && 0 <= p && Base(p) + off + |d| <= |m|
    ensures var m' := OrInto(m, Base(p) + off, d);
      && Slice(m', p, SpanOf(m, p)) == OrInto(DiskOf(m)[p], off, d)
      && (forall i :: 0 <= i < |m| && !(Base(p) <= i < Base(p + SpanOf(m, p))) ==> m'[i] == m[i])
  {
    hide PageOf, PageBytes, Base, AllZero, Tiles, Unit, SectorEnd, Live;
    DiskAt(m, p);
    var e := p + SpanOf(m, p);
    BaseStep(p, SpanOf(m, p));
    BaseOrder(e, PAGE_COUNT);
    OrIntoSlice(m, Base(p), Base(e), off, d);
  }

  /** Data written behind the header keeps the layout. */
  lemma ProgramDisk(m: Bytes, p: int, off: nat, d: Bytes, hint: int)
    requires Sound(m) && p in DiskOf(m) && HEADER_SIZE <= off && off + |d| <= |DiskOf(m)[p]|
    requires Position(View(m), PAGES_PER_SECTOR, hint) && NoFreeBelow(View(m), PAGES_PER_SECTOR, hint)
    ensures 0 <= p && Base(p) + off + |d| <= |m|
    ensures var m' := OrInto(m, Base(p) + off, d);
      && Sound(m') && DiskOf(m') == DiskOf(m)[p := OrInto(DiskOf(m)[p], off, d)]
      && Position(View(m'), PAGES_PER_SECTOR, hint) && NoFreeBelow(View(m'), PAGES_PER_SECTOR, hint)
  {
    hide PageBytes, PageOf, Tiles, Unit, SectorEnd, Base, Slice, AllZero, Decode, Encode, PageClass, NoFreeBelow;
    hide Eligible, FreshExtent, Has;
    WriteSlice(m, p, off, d);
    var m' := OrInto(m, Base(p) + off, d);
    DiskHeader(m, p);
    WrittenPage(m, m', p, off, d);
    KeepsHeader(DiskOf(m)[p], off, d);
    HeaderPage(PageBytes(m', p));
    RewriteOf(m, m', p);
    RewriteDisk(m, m', p);
    RewriteHint(m, m', p, hint);
  }

  /** Programming inside an extent changes nothing of the layout outside. */
  lemma ProgrammedOutside(m: Bytes, p: int, off: nat, d: Bytes)
    requires Sound(m) && p in DiskOf(m) && HEADER_SIZE <= off && off + |d| <= |DiskOf(m)[p]|
    requires 0 <= p && Base(p) + off + |d| <= |m|
    ensures var L, G := View(m), View(OrInto(m, Base(p) + off, d));
      && Live(L, PAGES_PER_SECTOR, p) && |G| == |L| && 0 <= p < |L| && G[p] == L[p]
      && forall y :: 0 <= y < |L| && !(p <= y < p + L[p].span) ==> G[y] == L[y]
  {
    hide PageBytes, PageOf, Tiles, Unit, SectorEnd, Base, Slice, AllZero, Decode, Encode, PageClass, NoFreeBelow;
    hide Eligible, FreshExtent, Has;
    WriteSlice(m, p, off, d);
    var m' := OrInto(m, Base(p) + off, d);
    DiskHeader(m, p);
    WrittenPage(m, m', p, off, d);
    KeepsHeader(DiskOf(m)[p], off, d);
    HeaderPage(PageBytes(m', p));
    RewriteOf(m, m', p);
    RewriteScan(m, m', p);
  }

  lemma RewriteOf(m: Bytes, m': Bytes, p: int)
    requires Sound(m) && |m'| == |m| && IsLive(m, p)
    requires forall i :: 0 <= i < |m| && !(Base(p) <= i < Base(p + SpanOf(m, p))) ==> m'[i] == m[i]
    requires PageOf(PageBytes(m', p)) == Active(SpanOf(m, p)) || PageOf(PageBytes(m', p)) == Obsolete(SpanOf(m, p))
    ensures Rewrites(m, m', p)
  {
  }

  lemma WrittenPage(m: Bytes, m': Bytes, p: int, off: nat, d: Bytes)
    requires Sound(m) && p in DiskOf(m) && off + |d| <= |DiskOf(m)[p]| && |m'| == |m| && IsLive(m, p)
    requires Slice(m', p, SpanOf(m, p)) == OrInto(DiskOf(m)[p], off, d)
    ensures 0 <= p < PAGE_COUNT && |OrInto(DiskOf(m)[p], off, d)| >= HEADER_SIZE
    ensures Decode(PageBytes(m', p)) == Decode(OrInto(DiskOf(m)[p], off, d))
  {
    hide PageOf, PageBytes, Base, AllZero, Slice, Decode, Tiles, Unit, SectorEnd, Live;
    DiskHeader(m, p);
    DiskAt(m, p);
    SlicePage(m', p, SpanOf(m, p));
    DecodePrefix(OrInto(DiskOf(m)[p], off, d), PageBytes(m', p));
  }

  lemma KeepsHeader(b: Bytes, off: nat, d: Bytes)
    requires |b| >= HEADER_SIZE && HEADER_SIZE <= off && off + |d| <= |b|
    ensures Decode(OrInto(b, off, d)) == Decode(b)
  {
    var r := OrInto(b, off, d);
    assert r[..HEADER_SIZE] == b[..HEADER_SIZE];
    DecodePrefix(r, r[..HEADER_SIZE]);
    DecodePrefix(b, b[..HEADER_SIZE]);
  }

  /** write_header over a live header, which keeps the span and only adds flags. */
  lemma HeaderDisk(m: Bytes, p: int, h: Header, hint: int)
    requires Sound(m) && p in DiskOf(m) && h.Fits() && |DiskOf(m)[p]| >= HEADER_SIZE
    requires CanOverwrite(Decode(DiskOf(m)[p]), h) && h.maxPages == Decode(DiskOf(m)[p]).maxPages
    requires !Has(h.flags, HDR_FLAG_ISOLATED)
    requires Position(View(m), PAGES_PER_SECTOR, hint) && NoFreeBelow(View(m), PAGES_PER_SECTOR, hint)
    ensures 0 <= p && Base(p) + HEADER_SIZE <= |m|
    ensures var m' := OrInto(m, Base(p), Encode(h));
      && Sound(m')
      && DiskOf(m') == (if h.IsObsolete() then DiskOf(m) - {p} else DiskOf(m)[p := OrInto(DiskOf(m)[p], 0, Encode(h))])
      && Position(View(m'), PAGES_PER_SECTOR, hint) && NoFreeBelow(View(m'), PAGES_PER_SECTOR, hint)
  {
    hide PageBytes, PageOf, Tiles, Unit, SectorEnd, Base, Slice, AllZero, Decode, Encode, PageClass, NoFreeBelow;
    hide Eligible, FreshExtent, Has;
    WriteSlice(m, p, 0, Encode(h));
    var m' := OrInto(m, Base(p), Encode(h));
    DiskHeader(m, p);
    WrittenPage(m, m', p, 0, Encode(h));
    HeaderOr(DiskOf(m)[p], h);
    AddedFlags(Decode(DiskOf(m)[p]), h);
    HeaderPage(PageBytes(m', p));
    RewriteOf(m, m', p);
    RewriteDisk(m, m', p);
    RewriteHint(m, m', p, hint);
  }

  lemma AddedFlags(was: Header, h: Header)
    requires was.IsActive() && !Has(h.flags, HDR_FLAG_ISOLATED)
    ensures var r := h.(flags := was.flags | h.flags);
      !r.IsFree() && !r.IsIsolated() && (r.IsObsolete() <==> h.IsObsolete())
  {
    hide Has;
    HasOr(was.flags, h.flags, HDR_FLAG_ALLOCATED);
    HasOr(was.flags, h.flags, HDR_FLAG_ISOLATED);
    HasOr(was.flags, h.flags, HDR_FLAG_OBSOLETE);
  }

  // ------------------------------------------------------------- reserve, collect

  /** What a new extent holds: its header and zeros. */
  function FreshExtent(h: Header): (b: Bytes)
    requires h.Fits() && h.maxPages >= 1
    ensures |b| == Base(h.maxPages) && |b| >= HEADER_SIZE
  {
    BaseOrder(1, h.maxPages);
    BaseOne();
    Encode(h) + seq(Base(h.maxPages) - HEADER_SIZE, _ => 0)
  }

  lemma FreshParts(h: Header)
    requires h.Fits() && h.maxPages >= 1
    ensures FreshExtent(h)[..HEADER_SIZE] == Encode(h)
    ensures AllZero(FreshExtent(h)[HEADER_SIZE..])
  {
    hide Decode, Encode, Base;
  }

  lemma FreshHeader(h: Header)
    requires h.Fits() && h.maxPages >= 1
    ensures Decode(FreshExtent(h)) == h
    ensures AllZero(FreshExtent(h)[HEADER_SIZE..])
  {
    hide Decode, Encode, Base;
    HeaderRoundTrip(h);
    FreshParts(h);
    DecodePrefix(FreshExtent(h), Encode(h));
  }

  lemma {:induction false} SliceZero(m: Bytes, p: nat, span: nat)
    requires |m| == Base(PAGE_COUNT) && p + span <= PAGE_COUNT
    requires forall q :: p <= q < p + span ==> AllZero(PageBytes(m, q))
    ensures AllZero(Slice(m, p, span))
  {
    hide PageBytes, Slice, Base;
    BaseOne();
    if span > 0 {
      SliceZero(m, p, span - 1);
      SliceSplit(m, p, span - 1);
    }
  }

  lemma FreshSlice(b: Bytes, h: Header)
    requires h.Fits() && h.maxPages >= 1 && |b| == Base(h.maxPages) && AllZero(b) && |b| >= HEADER_SIZE
    ensures OrInto(b, 0, Encode(h)) == FreshExtent(h)
  {
    forall i | 0 <= i < HEADER_SIZE
      ensures OrInto(b, 0, Encode(h))[i] == Encode(h)[i]
    {
      OrZero(Encode(h)[i]);
    }
  }

  /** A header programmed at the start of a free run adds one extent to the disk. */
  lemma ReserveDisk(m: Bytes, start: int, h: Header, hint: int)
    requires Sound(m) && h.Fits() && h.maxPages >= 1 && h.IsActive()
    requires Position(View(m), PAGES_PER_SECTOR, start) && Eligible(View(m), PAGES_PER_SECTOR, 0, start, h.maxPages)
    requires Position(View(m), PAGES_PER_SECTOR, hint) && NoFreeBelow(View(m), PAGES_PER_SECTOR, hint)
    requires hint <= start
    ensures 0 <= start && Base(start) + HEADER_SIZE <= |m| && start !in DiskOf(m)
    ensures var m' := OrInto(m, Base(start), Encode(h));
      var hint' := if start == hint then start + h.maxPages else hint;
      && Sound(m') && DiskOf(m') == DiskOf(m)[start := FreshExtent(h)]
      && Position(View(m'), PAGES_PER_SECTOR, hint') && NoFreeBelow(View(m'), PAGES_PER_SECTOR, hint')
  {
    hide PageBytes, PageOf, Tiles, Unit, SectorEnd, Base, Slice, AllZero, Decode, Encode, PageClass, NoFreeBelow;
    hide Eligible, FreshExtent, Has;
    var L, n := View(m), PAGES_PER_SECTOR;
    ReservedPages(m, start, h);
    var m' := OrInto(m, Base(start), Encode(h));
    ReserveKeeps(L, n, start, h.maxPages, View(m'));
    ReserveHint(L, n, start, h.maxPages, View(m'), hint);
    ReserveSlices(m, m', start, h);
  }

  lemma TilesRange(L: Layout, n: nat, a: int, b: int)
    requires n > 0 && Tiles(L, n, a, b)
    ensures 0 <= a <= b <= |L|
  {
  }

  /** A header programmed at the start of a run that is free for a search from `from`. */
  lemma PlacedPages(m: Bytes, from: int, start: int, h: Header)
    requires |m| == Base(PAGE_COUNT) && h.Fits() && h.maxPages >= 1 && h.IsActive()
    requires Tiles(View(m), PAGES_PER_SECTOR, from, PAGE_COUNT)
    requires Eligible(View(m), PAGES_PER_SECTOR, from, start, h.maxPages)
    ensures 0 <= start && start + h.maxPages < PAGE_COUNT && View(m)[start] == Blank
    ensures Base(start) + HEADER_SIZE <= |m|
    ensures var m' := OrInto(m, Base(start), Encode(h));
      && View(m') == View(m)[start := Active(h.maxPages)]
      && (forall q :: 0 <= q < PAGE_COUNT && q != start ==> PageBytes(m', q) == PageBytes(m, q))
      && Slice(m', start, h.maxPages) == FreshExtent(h)
  {
    hide Tiles, Unit, SectorEnd, Base, Decode, Encode, PageClass, PageBytes, Slice, FreshExtent, AllZero;
    var span := h.maxPages;
    TilesRange(View(m), PAGES_PER_SECTOR, from, PAGE_COUNT);
    forall q | start <= q < start + span
      ensures View(m)[q] == Blank && AllZero(PageBytes(m, q))
    {
      FreePageIsBlank(View(m), PAGES_PER_SECTOR, from, q);
    }
    SliceZero(m, start, span);
    var m' := OrIntoSliceAt(m, start, span, Encode(h));
    FreshSlice(Slice(m, start, span), h);
    FreshHeader(h);
    SlicePage(m', start, span);
    DecodePrefix(FreshExtent(h), PageBytes(m', start));
    HeaderPage(PageBytes(m', start));
  }

  lemma ReservedPages(m: Bytes, start: int, h: Header)
    requires Sound(m) && h.Fits() && h.maxPages >= 1 && h.IsActive()
    requires Eligible(View(m), PAGES_PER_SECTOR, 0, start, h.maxPages)
    ensures 0 <= start && start + h.maxPages < PAGE_COUNT
    ensures Base(start) + HEADER_SIZE <= |m| && !IsLive(m, start)
    ensures var m' := OrInto(m, Base(start), Encode(h));
      && View(m') == View(m)[start := Active(h.maxPages)]
      && (forall q :: 0 <= q < PAGE_COUNT && q != start ==> PageBytes(m', q) == PageBytes(m, q))
      && Slice(m', start, h.maxPages) == FreshExtent(h)
  {
    hide Tiles, Unit, SectorEnd, Base, Decode, Encode, PageClass, PageBytes, Slice, FreshExtent, AllZero;
    PlacedPages(m, 0, start, h);
  }

  lemma OrIntoSliceAt(m: Bytes, p: nat, span: nat, d: Bytes) returns (m': Bytes)
    requires |m| == Base(PAGE_COUNT) && 1 <= span && p + span <= PAGE_COUNT && |d| <= PAGE_SIZE
    ensures Base(p) + |d| <= |m| && m' == OrInto(m, Base(p), d)
    ensures |d| <= Base(span) && Slice(m', p, span) == OrInto(Slice(m, p, span), 0, d)
    ensures forall q :: 0 <= q < PAGE_COUNT && q != p ==> PageBytes(m', q) == PageBytes(m, q)
  {
    BaseStep(p, span);
    BaseOrder(p + span, PAGE_COUNT);
    BaseOrder(1, span);
    BaseOne();
    BaseStep(p, 1);
    hide Base;
    m' := OrInto(m, Base(p), d);
    OrIntoSlice(m, Base(p), Base(p + span), 0, d);
    PagesOutside(m, m', p, p + 1);
  }

  lemma ReserveHint(L: Layout, n: nat, start: int, amount: nat, L': Layout, hint: int)
    requires WellFormed(L, n) && Position(L, n, start) && amount >= 1
    requires Eligible(L, n, 0, start, amount)
    requires L' == L[start := Active(amount)] && WellFormed(L', n) && Position(L', n, start + amount)
    requires forall x :: x <= start ==> (Position(L', n, x) <==> Position(L, n, x))
    requires Position(L, n, hint) && NoFreeBelow(L, n, hint) && hint <= start
    ensures Position(L', n, if start == hint then start + amount else hint)
    ensures NoFreeBelow(L', n, if start == hint then start + amount else hint)
  {
    var hint' := if start == hint then start + amount else hint;
    forall x | 0 <= x < hint' && x < |L'|
      ensures PageClass(L', n, 0, x) != Fr
    {
      assert Position(L', n, start);
      if x < start {
        var u := UnitAt(L', n, 0, x);
        assert Position(L', n, u);
        assert L'[u] == L[u];
        UnitClass(L, n, 0, u);
        assert PageClass(L, n, 0, x) != Fr;
      } else {
        UnitClass(L', n, 0, start);
      }
    }
  }

  lemma ReserveSlices(m: Bytes, m': Bytes, start: int, h: Header)
    requires Sound(m) && Sound(m') && h.Fits() && h.maxPages >= 1
    requires Eligible(View(m), PAGES_PER_SECTOR, 0, start, h.maxPages)
    requires forall x :: Live(View(m'), PAGES_PER_SECTOR, x) <==> Live(View(m), PAGES_PER_SECTOR, x) || x == start
    requires 0 <= start && start + h.maxPages < PAGE_COUNT && !IsLive(m, start)
    requires View(m') == View(m)[start := Active(h.maxPages)]
    requires forall q :: 0 <= q < PAGE_COUNT && q != start ==> PageBytes(m', q) == PageBytes(m, q)
    requires Slice(m', start, h.maxPages) == FreshExtent(h)
    ensures start !in DiskOf(m) && DiskOf(m') == DiskOf(m)[start := FreshExtent(h)]
  {
    hide PageBytes, Slice, FreshExtent, Base, PageOf, SectorEnd, PageClass, Eligible;
    forall x | IsLive(m, x)
      ensures IsLive(m', x) && Slice(m', x, SpanOf(m', x)) == Slice(m, x, SpanOf(m, x))
    {
      ReserveSlice(m, m', start, h, x);
    }
  }

  lemma ReserveSlice(m: Bytes, m': Bytes, start: int, h: Header, x: int)
    requires Sound(m) && Sound(m') && h.Fits() && h.maxPages >= 1
    requires Eligible(View(m), PAGES_PER_SECTOR, 0, start, h.maxPages)
    requires Live(View(m'), PAGES_PER_SECTOR, x) && Live(View(m), PAGES_PER_SECTOR, x)
    requires 0 <= start < PAGE_COUNT && x != start
    requires View(m') == View(m)[start := Active(h.maxPages)]
    requires forall q :: 0 <= q < PAGE_COUNT && q != start ==> PageBytes(m', q) == PageBytes(m, q)
    ensures IsLive(m', x) && Slice(m', x, SpanOf(m', x)) == Slice(m, x, SpanOf(m, x))
  {
    hide PageBytes, Slice, FreshExtent, Base, PageOf, SectorEnd, Tiles, Unit;
    UnitClass(View(m), PAGES_PER_SECTOR, 0, x);
    assert PageClass(View(m), PAGES_PER_SECTOR, 0, start) == Fr;
    assert !(x <= start < x + SpanOf(m, x));
    SliceSame(m, m', x, SpanOf(m, x));
  }

  /** A garbage-collection pass does not touch the disk. */
  lemma CollectDisk(m: Bytes, m': Bytes)
    requires Sound(m) && |m'| == |m| && View(m') == Collected(View(m), PAGES_PER_SECTOR)
    requires forall q :: 0 <= q < PAGE_COUNT && PageClass(View(m), PAGES_PER_SECTOR, 0, q) == Act ==>
      PageBytes(m', q) == PageBytes(m, q)
    ensures Sound(m') && DiskOf(m') == DiskOf(m)
  {
    hide PageBytes, Base, PageOf, SectorEnd, PageClass, Collected;
    PassKeepsExtents(View(m), PAGES_PER_SECTOR);
    SameDisk(m, m');
  }
}
