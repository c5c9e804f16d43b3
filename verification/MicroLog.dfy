/** Micro logs: the content of a file whose overwrites go to an append-only log.

    `ext` is the file's extent and `log` its log extent, both with their headers. The
    log holds a table of region numbers, one more than the region each, and behind it
    one record of a whole region per table entry. */
module MicroLogs {
  import opened Arithmetic
  import opened FlashDevice
  import opened Headers

  // ------------------------------------------------------------------ geometry

  /** adjust_log_config */
  function RecordSize(h: Header): nat {
    if h.logRecordSize == 0 then PAGE_SIZE else h.logRecordSize
  }

  function Records(h: Header): nat
    requires RecordSize(h) > 0
  {
    if h.logRecords == 0 then LOG_SIZE / RecordSize(h) else h.logRecords
  }

  /** A log configuration that 16-bit region numbers and one table read can handle on
      this device. */
  ghost predicate ConfigOk(h: Header) {
    && 1 <= RecordSize(h) <= PAGE_SIZE
    && 1 <= Records(h) <= LOG_TABLE_LIMIT
    && LogSize(h) < 0x8000
    && forall o :: 0 <= o < Base(PAGE_COUNT) ==> Region(o, RecordSize(h)) + 1 < 0x1_0000
  }

  /** The bytes a log needs: its table and its records. */
  function LogSize(h: Header): nat
    requires RecordSize(h) > 0
  {
    Times(Records(h), 2 + RecordSize(h))
  }

  function Capacity(h: Header): int {
    Base(h.maxPages) - HEADER_SIZE
  }

  function Region(o: nat, size: nat): nat
    requires size > 0
  {
    o / size
  }

  function Within(o: nat, size: nat): (w: nat)
    requires size > 0
    ensures w < size
  {
    o % size
  }

  lemma RegionSplit(o: nat, size: nat)
    requires size > 0
    ensures o == Times(Region(o, size), size) + Within(o, size)
  {
    TimesIsProduct(Region(o, size), size);
  }

  lemma RegionOf(r: nat, w: nat, size: nat)
    requires w < size
    ensures Region(Times(r, size) + w, size) == r && Within(Times(r, size) + w, size) == w
  {
    TimesIsProduct(r, size);
    DivModUnique(r, size, w);
  }

  /** Two offsets in one region are as far apart as their places in it. */
  lemma SameRegion(o: nat, x: nat, size: nat)
    requires size > 0
    ensures Region(o, size) == Region(x, size) ==> x - o == Within(x, size) - Within(o, size)
    ensures Within(o, size) <= Within(o, size) + x - o < size && o <= x ==> Region(x, size) == Region(o, size)
  {
    RegionSplit(o, size);
    RegionSplit(x, size);
    if Within(o, size) <= Within(o, size) + x - o < size && o <= x {
      RegionOf(Region(o, size), Within(o, size) + x - o, size);
    }
  }

  /** page_count is the exact ceiling: the header and `size` bytes fit, one page less
      would not do. */
  function PageCountFor(size: nat): (pages: nat)
    ensures pages >= 1
  {
    assert PAGE_SIZE > 0 && size + HEADER_SIZE + PAGE_SIZE - 1 >= PAGE_SIZE;
    DivAtLeastOne(size + HEADER_SIZE + PAGE_SIZE - 1, PAGE_SIZE);
    (size + HEADER_SIZE + PAGE_SIZE - 1) / PAGE_SIZE
  }

  lemma DivAtLeastOne(x: nat, n: nat)
    requires 0 < n <= x
    ensures x / n >= 1
  {
  }

  lemma PageCountIsCeiling(size: nat)
    ensures HEADER_SIZE + size <= Base(PageCountFor(size))
    ensures Base(PageCountFor(size) - 1) < HEADER_SIZE + size
    ensures PageCountFor(size) <= size + 2
  {
    var x, q := size + HEADER_SIZE + PAGE_SIZE - 1, PageCountFor(size);
    Quotient(x, PAGE_SIZE);
    assert Base(q) == q * PAGE_SIZE && Base(q - 1) == (q - 1) * PAGE_SIZE by {
      TimesIsProduct(q, PAGE_SIZE);
      TimesIsProduct(q - 1, PAGE_SIZE);
    }
    MulDistributes(1, q, PAGE_SIZE);
    DivBound(x, PAGE_SIZE, size + 2);
  }

  lemma Quotient(x: nat, n: nat)
    requires n > 0
    ensures x / n * n <= x < x / n * n + n
  {
  }

  lemma DivBound(x: nat, n: nat, k: nat)
    requires n > 0 && x + 3 <= k + 2 * n && k >= 2
    ensures x / n <= k
  {
    var q := x / n;
    Quotient(x, n);
    MulOrder(2, k, n - 1);
    MulDistributes(1, n, k);
    MulDistributes(-1, k, n);
    if q > k {
      MulOrder(k + 1, q, n);
    }
  }

  // -------------------------------------------------------------- table and records

  function Entry(log: Bytes, i: nat): nat
    requires HEADER_SIZE + 2 * i + 2 <= |log|
  {
    Word(log, HEADER_SIZE + 2 * i)
  }

  /** Where record `i` starts in the log extent. */
  function RecordAt(h: Header, i: nat): nat
    requires RecordSize(h) > 0
  {
    HEADER_SIZE + 2 * Records(h) + Times(i, RecordSize(h))
  }

  lemma RecordBounds(h: Header, i: nat)
    requires RecordSize(h) > 0 && i < Records(h)
    ensures RecordAt(h, i) + RecordSize(h) == RecordAt(h, i + 1) <= HEADER_SIZE + LogSize(h)
    ensures HEADER_SIZE + 2 * Records(h) <= RecordAt(h, i)
  {
    var n, rs := Records(h), RecordSize(h);
    TimesAdd(i + 1, n - i - 1, rs);
    TimesSum(n, 2, rs);
  }

  /** The records, behind the table, fill the log to its end. */
  lemma RecordsFillLog(h: Header)
    requires RecordSize(h) > 0
    ensures RecordAt(h, Records(h)) == HEADER_SIZE + LogSize(h)
    ensures LogSize(h) == Records(h) * (2 + RecordSize(h))
  {
    TimesSum(Records(h), 2, RecordSize(h));
    TimesIsProduct(Records(h), 2 + RecordSize(h));
  }

  lemma {:induction false} TimesSum(k: nat, a: nat, b: nat)
    ensures Times(k, a + b) == Times(k, a) + Times(k, b)
    ensures Times(k, 2) == 2 * k
  {
    if k > 0 {
      TimesSum(k - 1, a, b);
    }
  }

  lemma {:induction false} RecordOrder(h: Header, i: nat, j: nat)
    requires RecordSize(h) > 0 && i <= j
    ensures RecordAt(h, i) <= RecordAt(h, j)
    ensures i < j ==> RecordAt(h, i) + RecordSize(h) <= RecordAt(h, j)
  {
    TimesAdd(i, j - i, RecordSize(h));
    if i < j {
      TimesAdd(i + 1, j - i - 1, RecordSize(h));
    }
  }

  /** The newest of the first `n` records for a region, or -1. */
  function Newest(log: Bytes, n: nat, region: nat): (k: int)
    requires HEADER_SIZE + 2 * n <= |log|
    ensures -1 <= k < n
  {
    if n == 0 then -1
    else if Entry(log, n - 1) == region + 1 then n - 1
    else Newest(log, n - 1, region)
  }

  lemma {:induction false} NewestIs(log: Bytes, n: nat, region: nat, k: int)
    requires HEADER_SIZE + 2 * n <= |log| && -1 <= k < n
    requires k >= 0 ==> Entry(log, k) == region + 1
    requires forall i :: k < i < n ==> Entry(log, i) != region + 1
    ensures Newest(log, n, region) == k
  {
    if k < n - 1 {
      NewestIs(log, n - 1, region, k);
    }
  }

  lemma {:induction false} NewestFound(log: Bytes, n: nat, region: nat)
    requires HEADER_SIZE + 2 * n <= |log|
    ensures var k := Newest(log, n, region);
      && (k >= 0 ==> Entry(log, k) == region + 1)
      && (forall i :: k < i < n ==> Entry(log, i) != region + 1)
  {
    if n > 0 && Entry(log, n - 1) != region + 1 {
      NewestFound(log, n - 1, region);
    }
  }

  /** How many records are in use: table entries are filled in order. */
  function Used(log: Bytes, i: nat, n: nat): (k: nat)
    requires i <= n && HEADER_SIZE + 2 * n <= |log|
    ensures i <= k <= n
    decreases n - i
  {
    if i == n || Entry(log, i) == 0 then i else Used(log, i + 1, n)
  }

  lemma {:induction false} UsedFilled(log: Bytes, i: nat, n: nat)
    requires i <= n && HEADER_SIZE + 2 * n <= |log|
    ensures var k := Used(log, i, n);
      && (k < n ==> Entry(log, k) == 0)
      && forall j :: i <= j < k ==> Entry(log, j) != 0
    decreases n - i
  {
    if i < n && Entry(log, i) != 0 {
      UsedFilled(log, i + 1, n);
    }
  }

  lemma {:induction false} UsedIs(log: Bytes, i: nat, n: nat, k: nat)
    requires i <= k <= n && HEADER_SIZE + 2 * n <= |log|
    requires k < n ==> Entry(log, k) == 0
    requires forall j :: i <= j < k ==> Entry(log, j) != 0
    ensures Used(log, i, n) == k
    decreases k - i
  {
    if i < k {
      UsedIs(log, i + 1, n, k);
    }
  }

  /** A log that can hold the records of `h`, blank behind its used ones. */
  ghost predicate CleanLog(h: Header, log: Bytes) {
    && ConfigOk(h)
    && HEADER_SIZE + LogSize(h) <= |log|
    && HEADER_SIZE + 2 * Records(h) <= |log|
    && var k := Used(log, 0, Records(h));
       && (forall i :: k <= i < Records(h) ==> Entry(log, i) == 0)
       && (forall x :: RecordAt(h, k) <= x < HEADER_SIZE + LogSize(h) ==> log[x] == 0)
  }

  // ------------------------------------------------------------------- content

  /** The byte a reader sees at offset `o`. */
  function Byte(ext: Bytes, log: Bytes, o: nat): bv8
    requires |ext| >= HEADER_SIZE && HEADER_SIZE + o < |ext|
    requires var h := Decode(ext); h.IsModified() ==>
      RecordSize(h) > 0 && HEADER_SIZE + LogSize(h) <= |log|
  {
    var h := Decode(ext);
    if !h.IsModified() then ext[HEADER_SIZE + o]
    else
      TableFits(h);
      var k := Newest(log, Records(h), Region(o, RecordSize(h)));
      if k < 0 then ext[HEADER_SIZE + o]
      else
        RecordBounds(h, k);
        log[RecordAt(h, k) + Within(o, RecordSize(h))]
  }

  lemma TableFits(h: Header)
    requires RecordSize(h) > 0
    ensures 2 * Records(h) <= LogSize(h)
  {
    TimesSum(Records(h), 2, RecordSize(h));
  }

  /** `s` with `d` written over it at `off`, growing if need be. */
  function Overlay(s: Bytes, off: nat, d: Bytes): (r: Bytes)
    requires off <= |s|
    ensures |r| == if off + |d| > |s| then off + |d| else |s|
  {
    s[..off] + d + if off + |d| < |s| then s[off + |d|..] else []
  }

  // ----------------------------------------------------------- appending a record

  /** The log after record `k` was filled for `region`. */
  function Appended(h: Header, log: Bytes, k: nat, region: nat, data: Bytes): (r: Bytes)
    requires RecordSize(h) > 0 && k < Records(h) && region + 1 < 0x1_0000
    requires HEADER_SIZE + LogSize(h) <= |log| && |data| == RecordSize(h)
    ensures |r| == |log|
  {
    TableFits(h);
    RecordBounds(h, k);
    OrInto(OrInto(log, HEADER_SIZE + 2 * k, WordBytes(region + 1)), RecordAt(h, k), data)
  }

  lemma TwoWrites(log: Bytes, a: nat, w: Bytes, b: nat, d: Bytes)
    requires a + |w| <= b && b + |d| <= |log|
    requires forall x :: b <= x < b + |d| ==> log[x] == 0
    ensures var r := OrInto(OrInto(log, a, w), b, d);
      && r[b..b + |d|] == d
      && (forall x :: a <= x < a + |w| ==> r[x] == OrInto(log, a, w)[x])
      && (forall x :: 0 <= x < |log| && !(a <= x < a + |w|) && !(b <= x < b + |d|) ==> r[x] == log[x])
  {
    OrIntoBlank(OrInto(log, a, w), b, d);
  }

  /** What appending a record does to the bytes of the log. */
  lemma AppendedBytes(h: Header, log: Bytes, k: nat, region: nat, data: Bytes)
    requires CleanLog(h, log) && k == Used(log, 0, Records(h)) < Records(h)
    requires region + 1 < 0x1_0000 && |data| == RecordSize(h)
    ensures HEADER_SIZE + 2 * Records(h) <= RecordAt(h, k) && RecordAt(h, k) + RecordSize(h) <= |log|
    ensures var log' := Appended(h, log, k, region, data); var at := HEADER_SIZE + 2 * k;
      && log'[RecordAt(h, k)..RecordAt(h, k) + RecordSize(h)] == data
      && (forall x :: at <= x < at + 2 ==> log'[x] == OrInto(log, at, WordBytes(region + 1))[x])
      && (forall x ::
            0 <= x < |log| && !(at <= x < at + 2) && !(RecordAt(h, k) <= x < RecordAt(h, k) + RecordSize(h)) ==>
            log'[x] == log[x])
  {
    hide OrInto, Times, ConfigOk, Entry, Used, RecordAt, Records, RecordSize, CleanLog;
    RecordsBehindTable(h, log, k);
    TwoWrites(log, HEADER_SIZE + 2 * k, WordBytes(region + 1), RecordAt(h, k), data);
  }

  /** An unused record lies behind the table, inside the log, and is blank. */
  lemma RecordsBehindTable(h: Header, log: Bytes, k: nat)
    requires CleanLog(h, log) && k == Used(log, 0, Records(h)) < Records(h)
    ensures RecordSize(h) > 0 && HEADER_SIZE + 2 * Records(h) <= RecordAt(h, k) && HEADER_SIZE + LogSize(h) <= |log|
    ensures RecordAt(h, k) + RecordSize(h) <= |log|
    ensures forall x :: RecordAt(h, k) <= x < RecordAt(h, k) + RecordSize(h) ==> log[x] == 0
  {
    hide Times, Entry, Used;
    RecordBounds(h, k);
  }

  lemma AppendedEntries(h: Header, log: Bytes, k: nat, region: nat, data: Bytes)
    requires CleanLog(h, log) && k == Used(log, 0, Records(h)) < Records(h)
    requires region + 1 < 0x1_0000 && |data| == RecordSize(h)
    ensures var log' := Appended(h, log, k, region, data);
      forall i :: 0 <= i < Records(h) ==> Entry(log', i) == if i == k then region + 1 else Entry(log, i)
  {
    hide OrInto, Times, ConfigOk, Appended, RecordAt, Uint16;
    AppendedBytes(h, log, k, region, data);
    UsedFilled(log, 0, Records(h));
    WordOver(log, HEADER_SIZE + 2 * k, region + 1);
  }

  lemma WordOver(b: Bytes, at: nat, x: nat)
    requires at + 2 <= |b| && x < 0x1_0000 && Word(b, at) == 0
    ensures Word(OrInto(b, at, WordBytes(x)), at) == x
  {
    hide Uint16, LowByte, HighByte;
    ZeroUint16();
    Uint16Injective(b[at], b[at + 1], 0, 0);
    OrZero(LowByte(x));
    OrZero(HighByte(x));
    Uint16RoundTrip(x);
  }

  lemma AppendedClean(h: Header, log: Bytes, k: nat, region: nat, data: Bytes)
    requires CleanLog(h, log) && k == Used(log, 0, Records(h)) < Records(h)
    requires region + 1 < 0x1_0000 && |data| == RecordSize(h)
    ensures var log' := Appended(h, log, k, region, data);
      CleanLog(h, log') && Used(log', 0, Records(h)) == k + 1
  {
    hide Times, ConfigOk, Entry, Appended;
    TableFits(h);
    AppendedEntries(h, log, k, region, data);
    AppendedBytes(h, log, k, region, data);
    var log' := Appended(h, log, k, region, data);
    UsedFilled(log, 0, Records(h));
    UsedIs(log', 0, Records(h), k + 1);
    RecordBounds(h, k);
  }

  /** Only the region just written changes, and it reads as the record. */
  lemma AppendedByte(ext: Bytes, log: Bytes, k: nat, region: nat, data: Bytes, o: nat)
    requires |ext| >= HEADER_SIZE && HEADER_SIZE + o < |ext|
    requires Decode(ext).IsModified() && CleanLog(Decode(ext), log)
    requires k == Used(log, 0, Records(Decode(ext))) < Records(Decode(ext))
    requires region + 1 < 0x1_0000 && |data| == RecordSize(Decode(ext))
    ensures var h := Decode(ext); var log' := Appended(h, log, k, region, data);
      Byte(ext, log', o) ==
        if Region(o, RecordSize(h)) == region then data[Within(o, RecordSize(h))] else Byte(ext, log, o)
  {
    hide Times, ConfigOk, Entry, Appended, Decode, Region, Within, Used;
    var h := Decode(ext);
    var n, rs := Records(h), RecordSize(h);
    var log' := Appended(h, log, k, region, data);
    TableFits(h);
    AppendedEntries(h, log, k, region, data);
    AppendedBytes(h, log, k, region, data);
    var r := Region(o, rs);
    if r == region {
      NewestIs(log', n, r, k);
      assert log'[RecordAt(h, k) + Within(o, rs)] == log'[RecordAt(h, k)..RecordAt(h, k) + rs][Within(o, rs)];
    } else {
      NewestFound(log, n, r);
      var j := Newest(log, n, r);
      UnusedEntry(h, log, k, r);
      NewestIs(log', n, r, j);
      if j >= 0 {
        RecordBounds(h, j);
        RecordOrder(h, j, k);
      }
    }
  }

  lemma UnusedEntry(h: Header, log: Bytes, k: nat, region: nat)
    requires CleanLog(h, log) && k == Used(log, 0, Records(h)) < Records(h)
    ensures Entry(log, k) == 0
    ensures Newest(log, Records(h), region) < k
  {
    NewestFound(log, Records(h), region);
  }

  // ------------------------------------------------------- finding the next record

  /** find_next_record from table entry `from` on, `limit` entries at a time. The source
      does not leave its outer loop on a hit, so only the last batch decides. */
  function NextRecord(log: Bytes, from: nat, n: nat, limit: nat): (r: nat)
    requires from < n && limit > 0 && HEADER_SIZE + 2 * n <= |log|
    decreases n - from
  {
    var to := if from + limit <= n then from + limit else n;
    var z := Used(log, from, to);
    if to < n then NextRecord(log, to, n, limit)
    else if z < to then z
    else to - from
  }

  /** Where the last batch starts. */
  function LastBatch(from: nat, n: nat, limit: nat): (b: nat)
    requires from < n && limit > 0
    ensures from <= b < n <= b + limit
    ensures n <= from + limit ==> b == from
    decreases n - from
  {
    if from + limit < n then LastBatch(from + limit, n, limit) else from
  }

  lemma {:induction false} NextRecordIs(log: Bytes, from: nat, n: nat, limit: nat, k: nat)
    requires from < n && limit > 0 && HEADER_SIZE + 2 * n <= |log| && k <= n
    requires forall i :: 0 <= i < n ==> (Entry(log, i) == 0 <==> k <= i)
    ensures var b := LastBatch(from, n, limit);
      NextRecord(log, from, n, limit) == if k == n then n - b else if k < b then b else k
    decreases n - from
  {
    var to := if from + limit <= n then from + limit else n;
    if to < n {
      NextRecordIs(log, to, n, limit, k);
    } else {
      UsedIs(log, from, n, if k < from then from else k);
    }
  }

  /** find_next_record finds the next record exactly when the table fits in one read,
      or when the next record happens to lie in the last batch. */
  lemma NextRecordExact(log: Bytes, n: nat, limit: nat, k: nat)
    requires 0 < n && limit > 0 && HEADER_SIZE + 2 * n <= |log| && k <= n
    requires forall i :: 0 <= i < n ==> (Entry(log, i) == 0 <==> k <= i)
    ensures NextRecord(log, 0, n, limit) == k <==> n <= limit || LastBatch(0, n, limit) <= k < n
  {
    NextRecordIs(log, 0, n, limit, k);
  }

  // --------------------------------------------------------------- reading a region

  /** modify_log_buffer: how much of a request falls into the region of its offset. */
  function Chunk(o: nat, size: nat, rs: nat): (c: nat)
    requires rs > 0
    ensures c <= size && (size > 0 ==> c > 0)
  {
    if size > rs - Within(o, rs) then rs - Within(o, rs) else size
  }

  /** Inside one region the content is one run of bytes, of the newest record if there
      is one and of the extent otherwise. */
  lemma ReadRegion(ext: Bytes, log: Bytes, o: nat, c: nat)
    requires |ext| >= HEADER_SIZE && HEADER_SIZE + o + c <= |ext|
    requires Decode(ext).IsModified() && CleanLog(Decode(ext), log)
    requires c <= RecordSize(Decode(ext)) - Within(o, RecordSize(Decode(ext)))
    ensures var h := Decode(ext); var rs := RecordSize(h); var k := Newest(log, Records(h), Region(o, rs));
      && (k >= 0 ==> RecordAt(h, k) + Within(o, rs) + c <= |log|)
      && forall x :: o <= x < o + c ==>
           Byte(ext, log, x) == if k >= 0 then log[RecordAt(h, k) + Within(o, rs) + (x - o)] else ext[HEADER_SIZE + x]
  {
    hide ConfigOk, Times, Region, Within, Entry, Used, Decode;
    var h := Decode(ext);
    var rs := RecordSize(h);
    var k := Newest(log, Records(h), Region(o, rs));
    if k >= 0 {
      RecordBounds(h, k);
    }
    forall x | o <= x < o + c
      ensures Byte(ext, log, x) ==
        if k >= 0 then log[RecordAt(h, k) + Within(o, rs) + (x - o)] else ext[HEADER_SIZE + x]
    {
      SameRegion(o, x, rs);
    }
  }

  /** Searching only the records in use finds the same record. */
  lemma {:induction false} NewestUsed(h: Header, log: Bytes, n: nat, region: nat)
    requires CleanLog(h, log) && Used(log, 0, Records(h)) <= n <= Records(h)
    ensures Newest(log, n, region) == Newest(log, Records(h), region)
  {
    hide ConfigOk, Times;
    NewestFound(log, n, region);
    NewestIs(log, Records(h), region, Newest(log, n, region));
  }
}
