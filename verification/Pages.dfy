/** How the bytes of the device give a page layout. */
module Pages {
  import opened FlashDevice
  import opened Headers
  import opened Layouts

  function PageBytes(m: Bytes, p: int): (b: Bytes)
    requires |m| == Base(PAGE_COUNT) && 0 <= p < PAGE_COUNT
    ensures |b| == PAGE_SIZE
  {
    PageInDevice(p);
    m[Base(p)..Base(p) + PAGE_SIZE]
  }

  function PageOf(b: Bytes): Page
    requires |b| >= HEADER_SIZE
  {
    var h := Decode(b);
    if AllZero(b) then Blank
    else if h.IsFree() then Dirty
    else if h.IsIsolated() then Isolated
    else if h.IsObsolete() then Obsolete(h.maxPages)
    else Active(h.maxPages)
  }

  ghost function View(m: Bytes): (L: Layout)
    requires |m| == Base(PAGE_COUNT)
    ensures |L| == PAGE_COUNT
    ensures forall p :: 0 <= p < PAGE_COUNT ==> L[p] == PageOf(PageBytes(m, p))
  {
    seq(PAGE_COUNT, p requires 0 <= p < PAGE_COUNT => PageOf(PageBytes(m, p)))
  }

  /** The header flags decide the page, except that erased pages have none. */
  lemma HeaderTells(b: Bytes)
    requires |b| >= HEADER_SIZE && PageOf(b) != Dirty
    ensures var h, page := Decode(b), PageOf(b);
      && (page == Blank <==> h.IsFree())
      && (page == Blank ==> !h.IsIsolated() && !h.IsObsolete())
      && (page == Isolated <==> !h.IsFree() && h.IsIsolated())
      && (page.Active? <==> h.IsActive())
      && (page.Active? ==> page.span == h.maxPages)
      && (page.Obsolete? ==> h.IsObsolete() && page.span == h.maxPages)
  {
    if AllZero(b) {
      DecodeZero(b);
    }
  }

  /** Bytes that change only between two page boundaries leave the other pages alone. */
  lemma PagesOutside(m: Bytes, m': Bytes, lo: int, hi: int)
    requires |m| == |m'| == Base(PAGE_COUNT) && 0 <= lo <= hi <= PAGE_COUNT
    requires forall i :: 0 <= i < |m| && !(Base(lo) <= i < Base(hi)) ==> m'[i] == m[i]
    ensures forall q :: 0 <= q < PAGE_COUNT && !(lo <= q < hi) ==> PageBytes(m', q) == PageBytes(m, q)
  {
    forall q | 0 <= q < PAGE_COUNT && !(lo <= q < hi)
      ensures PageBytes(m', q) == PageBytes(m, q)
    {
      PageInDevice(q);
      if q < lo {
        BaseOrder(q, lo);
      } else {
        BaseOrder(hi, q);
      }
    }
  }

  lemma ZeroedPages(m: Bytes, lo: int, hi: int)
    requires |m| == Base(PAGE_COUNT) && 0 <= lo <= hi <= PAGE_COUNT
    requires Base(lo) <= Base(hi) <= |m|
    ensures var m' := Zeroed(m, Base(lo), Base(hi) - Base(lo));
      && (forall q :: 0 <= q < PAGE_COUNT && !(lo <= q < hi) ==> PageBytes(m', q) == PageBytes(m, q))
      && (forall q :: lo <= q < hi ==> PageOf(PageBytes(m', q)) == Blank)
  {
    var m' := Zeroed(m, Base(lo), Base(hi) - Base(lo));
    PagesOutside(m, m', lo, hi);
    forall q | lo <= q < hi
      ensures PageOf(PageBytes(m', q)) == Blank
    {
      PageInDevice(q);
      BaseOrder(lo, q);
      BaseOrder(q, hi);
      assert AllZero(PageBytes(m', q));
    }
  }

  /** The OR of an isolation header over stale bytes always reads as isolated. */
  lemma IsolationWins(b: Bytes, h: Header)
    requires |b| >= HEADER_SIZE && h.Fits()
    requires h.flags == HDR_FLAG_ALLOCATED | HDR_FLAG_ISOLATED | HDR_FLAG_VALID
    ensures PageOf(OrInto(b, 0, Encode(h))) == Isolated
  {
    var r := OrInto(b, 0, Encode(h));
    EncodeParts(h);
    assert r[9] == b[9] | h.flags;
    HasOr(b[9], h.flags, HDR_FLAG_ALLOCATED);
    HasOr(b[9], h.flags, HDR_FLAG_ISOLATED);
    IsolationFlags();
    assert Decode(r).flags == r[9];
    NonZeroFlags(r[9], HDR_FLAG_ALLOCATED);
  }

  lemma IsolationFlags()
    ensures Has(HDR_FLAG_ALLOCATED | HDR_FLAG_ISOLATED | HDR_FLAG_VALID, HDR_FLAG_ALLOCATED)
    ensures Has(HDR_FLAG_ALLOCATED | HDR_FLAG_ISOLATED | HDR_FLAG_VALID, HDR_FLAG_ISOLATED)
  {
  }

  lemma NonZeroFlags(flags: bv8, flag: bv8)
    requires Has(flags, flag)
    ensures flags != 0
  {
  }

  /** A program inside the pages `[p, p + k)` seen from the slice of those pages. */
  lemma OrIntoSlice(m: Bytes, lo: int, hi: int, off: int, d: Bytes)
    requires 0 <= lo <= hi <= |m| && 0 <= off && lo + off + |d| <= hi
    ensures OrInto(m, lo + off, d)[lo..hi] == OrInto(m[lo..hi], off, d)
    ensures forall i :: 0 <= i < |m| && !(lo <= i < hi) ==> OrInto(m, lo + off, d)[i] == m[i]
  {
  }
}
