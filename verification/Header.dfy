/** Conversions between bytes and numbers, kept apart from everything else because the
    solver treats the two sorts very differently. */
module ByteValues {

  function ToNat(b: bv8): (n: nat)
    ensures n < 256
  {
    b as nat
  }

  /** The byte with value `x`, built by counting so that no proof needs the solver's
      conversion from integers to bit-vectors. */
  function ToByte(x: nat): bv8
    requires x < 256
  {
    if x == 0 then 0 else ToByte(x - 1) + 1
  }

  lemma Successor(b: bv8)
    requires b != 0xff
    ensures ToNat(b + 1) == ToNat(b) + 1
  {
  }

  lemma Extremes()
    ensures ToNat(0xff) == 255 && ToNat(0) == 0
  {
  }

  lemma ToNatInjective(a: bv8, b: bv8)
    requires ToNat(a) == ToNat(b)
    ensures a == b
  {
  }

  lemma {:induction false} ByteRoundTrip(x: nat)
    requires x < 256
    ensures ToNat(ToByte(x)) == x
  {
    hide ToNat;
    Extremes();
    if x > 0 {
      ByteRoundTrip(x - 1);
      Successor(ToByte(x - 1));
    }
  }

  lemma NatRoundTrip(b: bv8)
    ensures ToByte(ToNat(b)) == b
  {
    hide ToNat, ToByte;
    ByteRoundTrip(ToNat(b));
    ToNatInjective(ToByte(ToNat(b)), b);
  }
}

/** The on-flash file header (struct file_header), byte for byte. */
module Headers {
  import opened FlashDevice
  import opened ByteValues

  const HDR_FLAG_VALID: bv8 := 0x1
  const HDR_FLAG_ALLOCATED: bv8 := 0x2
  const HDR_FLAG_OBSOLETE: bv8 := 0x4
  const HDR_FLAG_MODIFIED: bv8 := 0x8
  const HDR_FLAG_LOG: bv8 := 0x10
  const HDR_FLAG_ISOLATED: bv8 := 0x20

  predicate Has(flags: bv8, flag: bv8) {
    flags & flag != 0
  }

  lemma HasOr(a: bv8, b: bv8, flag: bv8)
    ensures Has(a | b, flag) <==> Has(a, flag) || Has(b, flag)
  {
  }

  /** Setting one flag leaves the others; the flags are six different bits. */
  lemma HasSet(a: bv8, flag: bv8)
    ensures Has(a | flag, flag) <==> flag != 0
    ensures forall other :: other & flag == 0 ==> (Has(a | flag, other) <==> Has(a, other))
  {
    forall other | other & flag == 0
      ensures Has(a | flag, other) <==> Has(a, other)
    {
      HasOr(a, flag, other);
      AndCommutes(flag, other);
    }
    HasOr(a, flag, flag);
    AndIdempotent(flag);
  }

  lemma AndCommutes(a: bv8, b: bv8)
    ensures a & b == b & a
  {
  }

  lemma AndIdempotent(a: bv8)
    ensures a & a == a
  {
  }

  /** A little-endian uint16_t. */
  function Uint16(lo: bv8, hi: bv8): (n: nat)
    ensures n < 0x1_0000
  {
    ToNat(lo) + 256 * ToNat(hi)
  }

  lemma SplitWord(lo: nat, hi: nat, lo': nat, hi': nat)
    requires lo < 256 && lo' < 256
    requires lo + 256 * hi == lo' + 256 * hi'
    ensures lo == lo' && hi == hi'
  {
  }

  lemma Uint16Injective(lo: bv8, hi: bv8, lo': bv8, hi': bv8)
    requires Uint16(lo, hi) == Uint16(lo', hi')
    ensures lo == lo' && hi == hi'
  {
    hide ToNat, ToByte;
    SplitWord(ToNat(lo), ToNat(hi), ToNat(lo'), ToNat(hi'));
    NatRoundTrip(lo);
    NatRoundTrip(hi);
    NatRoundTrip(lo');
    NatRoundTrip(hi');
  }

  function Word(b: Bytes, at: nat): (n: nat)
    requires at + 2 <= |b|
    ensures n < 0x1_0000
  {
    Uint16(b[at], b[at + 1])
  }

  function LowByte(x: nat): bv8
    requires x < 0x1_0000
  {
    ToByte(x % 256)
  }

  function HighByte(x: nat): bv8
    requires x < 0x1_0000
  {
    ToByte(x / 256)
  }

  function WordBytes(x: nat): (b: Bytes)
    requires x < 0x1_0000
    ensures |b| == 2
  {
    [LowByte(x), HighByte(x)]
  }

  lemma Uint16RoundTrip(x: nat)
    requires x < 0x1_0000
    ensures Uint16(LowByte(x), HighByte(x)) == x
  {
    ByteRoundTrip(x % 256);
    ByteRoundTrip(x / 256);
  }

  /** The low byte comes first. */
  lemma LittleEndian(x: nat)
    requires x < 0x1_0000
    ensures ToNat(WordBytes(x)[0]) == x % 256 && ToNat(WordBytes(x)[1]) == x / 256
  {
    ByteRoundTrip(x % 256);
    ByteRoundTrip(x / 256);
  }

  lemma ZeroUint16()
    ensures Uint16(0, 0) == 0
  {
  }

  datatype Header = Header(
    logPage: nat,
    logRecords: nat,
    logRecordSize: nat,
    maxPages: nat,
    eofHint: bv8,
    flags: bv8,
    name: Bytes)
  {
    predicate Fits() {
      && logPage < 0x1_0000
      && logRecords < 0x1_0000
      && logRecordSize < 0x1_0000
      && maxPages < 0x1_0000
      && |name| == NAME_LENGTH
    }

    predicate IsFree() { !Has(flags, HDR_FLAG_ALLOCATED) }
    predicate IsLog() { Has(flags, HDR_FLAG_LOG) }
    predicate IsModified() { Has(flags, HDR_FLAG_MODIFIED) }
    predicate IsIsolated() { Has(flags, HDR_FLAG_ISOLATED) }
    predicate IsObsolete() { Has(flags, HDR_FLAG_OBSOLETE) }

    /** HDR_ACTIVE */
    predicate IsActive() {
      !IsFree() && !IsObsolete() && !IsIsolated()
    }
  }

  function Decode(b: Bytes): (h: Header)
    requires |b| >= HEADER_SIZE
    ensures h.Fits()
  {
    Header(Word(b, 0), Word(b, 2), Word(b, 4), Word(b, 6), b[8], b[9], b[10..HEADER_SIZE])
  }

  function Encode(h: Header): (b: Bytes)
    requires h.Fits()
    ensures |b| == HEADER_SIZE
  {
    WordBytes(h.logPage) + WordBytes(h.logRecords) + WordBytes(h.logRecordSize) + WordBytes(h.maxPages)
    + [h.eofHint, h.flags] + h.name
  }

  lemma EncodeParts(h: Header)
    requires h.Fits()
    ensures Encode(h)[0..2] == WordBytes(h.logPage)
    ensures Encode(h)[2..4] == WordBytes(h.logRecords)
    ensures Encode(h)[4..6] == WordBytes(h.logRecordSize)
    ensures Encode(h)[6..8] == WordBytes(h.maxPages)
    ensures Encode(h)[8] == h.eofHint && Encode(h)[9] == h.flags
    ensures Encode(h)[10..HEADER_SIZE] == h.name
  {
  }

  lemma WordAt(b: Bytes, at: nat, x: nat)
    requires at + 2 <= |b| && x < 0x1_0000
    requires b[at..at + 2] == WordBytes(x)
    ensures Word(b, at) == x
  {
    assert b[at] == b[at..at + 2][0] && b[at + 1] == b[at..at + 2][1];
    Uint16RoundTrip(x);
  }

  lemma HeaderRoundTrip(h: Header)
    requires h.Fits()
    ensures Decode(Encode(h)) == h
  {
    EncodeParts(h);
    WordAt(Encode(h), 0, h.logPage);
    WordAt(Encode(h), 2, h.logRecords);
    WordAt(Encode(h), 4, h.logRecordSize);
    WordAt(Encode(h), 6, h.maxPages);
  }

  /** `h` can be programmed over `was` without mangling a field: each field is still
      zero or already holds the value. */
  predicate CanOverwrite(was: Header, h: Header) {
    && (was.logPage == 0 || was.logPage == h.logPage)
    && (was.logRecords == 0 || was.logRecords == h.logRecords)
    && (was.logRecordSize == 0 || was.logRecordSize == h.logRecordSize)
    && (was.maxPages == 0 || was.maxPages == h.maxPages)
    && (was.eofHint == 0 || was.eofHint == h.eofHint)
    && (AllZero(was.name) || was.name == h.name)
  }

  lemma OrIdempotent(b: bv8)
    ensures b | b == b
  {
  }

  /** A byte that is still zero or already holds the value takes the value. */
  lemma OrTakes(b: bv8, d: bv8)
    requires b == 0 || b == d
    ensures b | d == d
  {
    OrZero(d);
    OrIdempotent(d);
  }

  lemma WordOr(b: Bytes, at: nat, d: Bytes)
    requires at + 2 <= |b| && |d| <= |b| && at + 2 <= |d|
    requires Word(b, at) == 0 || Word(b, at) == Word(d, at)
    ensures Word(OrInto(b, 0, d), at) == Word(d, at)
  {
    Uint16Takes(b[at], b[at + 1], d[at], d[at + 1]);
  }

  lemma Uint16Takes(lo: bv8, hi: bv8, lo': bv8, hi': bv8)
    requires Uint16(lo, hi) == 0 || Uint16(lo, hi) == Uint16(lo', hi')
    ensures lo | lo' == lo' && hi | hi' == hi'
  {
    ZeroUint16();
    if Uint16(lo, hi) == 0 {
      Uint16Injective(lo, hi, 0, 0);
    } else {
      Uint16Injective(lo, hi, lo', hi');
    }
    OrTakes(lo, lo');
    OrTakes(hi, hi');
  }

  /** write_header over an existing header keeps every field and adds the flags. */
  lemma HeaderOr(b: Bytes, h: Header)
    requires |b| >= HEADER_SIZE && h.Fits()
    requires CanOverwrite(Decode(b), h)
    ensures Decode(OrInto(b, 0, Encode(h))) == h.(flags := Decode(b).flags | h.flags)
  {
    hide Uint16, LowByte, HighByte;
    var d := Encode(h);
    var r := OrInto(b, 0, d);
    HeaderRoundTrip(h);
    WordOr(b, 0, d);
    WordOr(b, 2, d);
    WordOr(b, 4, d);
    WordOr(b, 6, d);
    OrTakes(b[8], h.eofHint);
    EncodeParts(h);
    forall i | 10 <= i < HEADER_SIZE
      ensures r[i] == h.name[i - 10]
    {
      assert d[i] == d[10..HEADER_SIZE][i - 10];
      assert b[i] == Decode(b).name[i - 10];
      OrTakes(b[i], d[i]);
    }
    assert r[10..HEADER_SIZE] == h.name;
  }

  lemma DecodeZero(b: Bytes)
    requires |b| >= HEADER_SIZE && AllZero(b[..HEADER_SIZE])
    ensures Decode(b).logPage == 0 && Decode(b).logRecords == 0 && Decode(b).logRecordSize == 0
    ensures Decode(b).maxPages == 0 && Decode(b).eofHint == 0 && Decode(b).flags == 0
    ensures AllZero(Decode(b).name)
  {
    assert forall i :: 0 <= i < HEADER_SIZE ==> b[i] == b[..HEADER_SIZE][i];
    ZeroUint16();
  }
}
