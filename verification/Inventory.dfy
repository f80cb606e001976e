/** The descriptor scan: every word-aligned offset that passes all checks, and no other. */
module Inventory {
  import opened Basics
  import opened Fields
  import opened Descriptor

  // ------------------------------------------------------------------
  // Three ranges, sorted, neighbours compared
  // ------------------------------------------------------------------

  datatype Range = Range(lo: int, hi: int)

  /** Tuple order. */
  predicate Before(r: Range, s: Range) {
    r.lo < s.lo || (r.lo == s.lo && r.hi <= s.hi)
  }

  function Sort3(a: Range, b: Range, c: Range): (Range, Range, Range) {
    var (lo, hi) := if Before(a, b) then (a, b) else (b, a);
    if Before(hi, c) then (lo, hi, c)
    else if Before(lo, c) then (lo, c, hi)
    else (c, lo, hi)
  }

  /** No range runs past the start of the next. */
  predicate NeighboursApart(r: (Range, Range, Range)) {
    r.0.hi <= r.1.lo && r.1.hi <= r.2.lo
  }

  predicate Apart(r: Range, s: Range) {
    r.hi <= s.lo || s.hi <= r.lo
  }

  /** For ranges that are not empty, comparing sorted neighbours compares every pair. */
  lemma SortedNeighbours(a: Range, b: Range, c: Range)
    requires a.lo < a.hi && b.lo < b.hi && c.lo < c.hi
    ensures NeighboursApart(Sort3(a, b, c)) <==> Apart(a, b) && Apart(a, c) && Apart(b, c)
  {
  }

  // ------------------------------------------------------------------
  // Axes
  // ------------------------------------------------------------------

  /** `_strictly_increasing`: neighbours only. */
  predicate StrictlyIncreasing(v: seq<nat>) {
    forall i :: 0 <= i < |v| - 1 ==> v[i] < v[i + 1]
  }

  /** Neighbours suffice. */
  lemma {:induction false} IncreasingPairs(v: seq<nat>, i: nat, j: nat)
    requires StrictlyIncreasing(v) && i < j < |v|
    ensures v[i] < v[j]
  {
    if i + 1 < j {
      IncreasingPairs(v, i, j - 1);
    }
  }

  ghost predicate Ascending(v: seq<nat>) {
    forall i, j :: 0 <= i < j < |v| ==> v[i] < v[j]
  }

  lemma IncreasingExact(v: seq<nat>)
    ensures StrictlyIncreasing(v) <==> Ascending(v)
  {
    if StrictlyIncreasing(v) {
      forall i, j | 0 <= i < j < |v|
        ensures v[i] < v[j]
      {
        IncreasingPairs(v, i, j);
      }
    }
  }

  // ------------------------------------------------------------------
  // One offset
  // ------------------------------------------------------------------

  predicate CountsOk(h: Heading, maxAxis: int) {
    2 <= h.xCount <= maxAxis && 2 <= h.yCount <= maxAxis
  }

  predicate PointersOk(h: Heading, base: int, end: int) {
    && base <= h.dataAddress < end
    && base <= h.xAddress < end
    && base <= h.yAddress < end
  }

  predicate AlignedOk(h: Heading, xType: XType) {
    && h.dataAddress % 2 == 0
    && h.xAddress % XWidth(xType) == 0
    && h.yAddress % 2 == 0
  }

  function DataRange(h: Heading): Range {
    Range(h.dataAddress, h.dataAddress + Area(h.xCount, h.yCount) * 2)
  }

  function XRange(h: Heading, xType: XType): Range {
    Range(h.xAddress, h.xAddress + h.xCount * XWidth(xType))
  }

  function YRange(h: Heading): Range {
    Range(h.yAddress, h.yAddress + h.yCount * 2)
  }

  /** The body of the scan loop: the first failing check skips the offset. */
  function Candidate(blob: Bytes, base: int, maxAxis: int, xType: XType, offset: nat): Option<Item>
    requires offset + HEADER <= |blob|
  {
    var h := ReadHeading(blob, offset);
    if !CountsOk(h, maxAxis) then None
    else if !PointersOk(h, base, base + |blob|) then None
    else if !AlignedOk(h, xType) then None
    else if !NeighboursApart(Sort3(DataRange(h), XRange(h, xType), YRange(h))) then None
    else
      match Decode(blob, base + offset, base, xType)
      case Err(_) => None
      case Ok(item) =>
        if StrictlyIncreasing(item.xAxis) && StrictlyIncreasing(item.yAxis) then Some(item) else None
  }

  /** No address is in both of `size` bytes from `a` and `length` bytes from `b`. */
  ghost predicate NoOverlap(a: int, size: int, b: int, length: int) {
    forall i :: Within(i, a, size) ==> !Within(i, b, length)
  }

  predicate Within(i: int, start: int, size: int) {
    start <= i < start + size
  }

  /** The conditions the scan looks for, on a descriptor rather than on bytes. */
  ghost predicate Plausible(item: Item, base: int, end: int, maxAxis: int, xType: XType) {
    var wide := if xType == U32 then 4 else 2;
    var xSize, ySize, gridSize := wide * item.xCount, 2 * item.yCount, 2 * (item.xCount * item.yCount);
    && 2 <= item.xCount <= maxAxis && 2 <= item.yCount <= maxAxis
    && base <= item.dataAddress < end && base <= item.xAddress < end && base <= item.yAddress < end
    && item.dataAddress % 2 == 0 && item.yAddress % 2 == 0 && item.xAddress % wide == 0
    && NoOverlap(item.dataAddress, gridSize, item.xAddress, xSize)
    && NoOverlap(item.dataAddress, gridSize, item.yAddress, ySize)
    && NoOverlap(item.xAddress, xSize, item.yAddress, ySize)
    && Ascending(item.xAxis) && Ascending(item.yAxis)
  }

  lemma ApartExact(a: int, size: int, b: int, length: int)
    requires size > 0 && length > 0
    ensures Apart(Range(a, a + size), Range(b, b + length)) <==> NoOverlap(a, size, b, length)
  {
    assert Within(a, a, size) && Within(b, b, length);
  }

  /** The three checks on the heading are the conditions on counts, pointers, alignment and ranges. */
  lemma PlausibleHeading(item: Item, base: int, end: int, maxAxis: int, xType: XType)
    ensures var h := HeadingOf(item);
      Plausible(item, base, end, maxAxis, xType) <==>
        && CountsOk(h, maxAxis) && PointersOk(h, base, end) && AlignedOk(h, xType)
        && Apart(DataRange(h), XRange(h, xType)) && Apart(DataRange(h), YRange(h)) && Apart(XRange(h, xType), YRange(h))
        && Ascending(item.xAxis) && Ascending(item.yAxis)
  {
    var h := HeadingOf(item);
    if CountsOk(h, maxAxis) {
      var wide := XWidth(xType);
      Peel(h.yCount, h.xCount);
      var area := Area(h.xCount, h.yCount);
      ApartExact(h.dataAddress, 2 * area, h.xAddress, wide * h.xCount);
      ApartExact(h.dataAddress, 2 * area, h.yAddress, 2 * h.yCount);
      ApartExact(h.xAddress, wide * h.xCount, h.yAddress, 2 * h.yCount);
    }
    hide Ascending, NoOverlap, Apart;
  }

  lemma RangesNotEmpty(h: Heading, xType: XType)
    requires h.xCount > 0 && h.yCount > 0
    ensures DataRange(h).lo < DataRange(h).hi
    ensures XRange(h, xType).lo < XRange(h, xType).hi
    ensures YRange(h).lo < YRange(h).hi
  {
    Peel(h.yCount, h.xCount);
  }

  lemma DecodedFrom(blob: Bytes, address: int, base: int, xType: XType)
    requires Decode(blob, address, base, xType).Ok?
    ensures InMapping(blob, base, address, HEADER)
    ensures HeadingOf(Decode(blob, address, base, xType).value) == ReadHeading(blob, address - base)
    ensures Decode(blob, address, base, xType).value.address == address
  {
    hide DecodeTargets, ReadHeading;
    DecodedHeading(blob, address, base, xType, ReadHeading(blob, address - base));
  }

  /** An offset is reported exactly when a plausible descriptor is written there. */
  lemma CandidateExact(blob: Bytes, base: int, maxAxis: int, xType: XType, offset: nat, item: Item)
    requires offset + HEADER <= |blob|
    ensures Candidate(blob, base, maxAxis, xType, offset) == Some(item)
      <==> && item.address == base + offset
           && Written(blob, base, xType, item)
           && Plausible(item, base, base + |blob|, maxAxis, xType)
  {
    hide Decode, Written, ReadHeading, NeighboursApart, StrictlyIncreasing, DataRange, XRange, YRange,
         AlignedOk, PointersOk, Apart, Ascending, Sort3, Plausible;
    var h := ReadHeading(blob, offset);
    var d := Decode(blob, base + offset, base, xType);
    if d.Ok? {
      DecodedFrom(blob, base + offset, base, xType);
      IncreasingExact(d.value.xAxis);
      IncreasingExact(d.value.yAxis);
      PlausibleHeading(d.value, base, base + |blob|, maxAxis, xType);
      if CountsOk(h, maxAxis) {
        RangesNotEmpty(h, xType);
        SortedNeighbours(DataRange(h), XRange(h, xType), YRange(h));
      }
    }
    PlausibleHeading(item, base, base + |blob|, maxAxis, xType);
    if item.address == base + offset {
      DecodeExact(blob, base, xType, item);
    }
  }

  // ------------------------------------------------------------------
  // References to an address
  // ------------------------------------------------------------------

  /** The positions from `p` on where `needle` stands. */
  function References(blob: Bytes, needle: Bytes, p: nat): seq<nat>
    decreases |blob| - p
  {
    if p + 4 > |blob| then []
    else if blob[p..p + 4] == needle then [p] + References(blob, needle, p + 1)
    else References(blob, needle, p + 1)
  }

  lemma {:induction false} ReferencesExact(blob: Bytes, needle: Bytes, p: nat, q: nat)
    requires |needle| == 4
    ensures q in References(blob, needle, p) <==> p <= q && Holds(blob, q, needle)
    decreases |blob| - p
  {
    if p + 4 <= |blob| {
      ReferencesExact(blob, needle, p + 1, q);
    }
  }

  // ------------------------------------------------------------------
  // The scan
  // ------------------------------------------------------------------

  datatype Found = Found(item: Item, references: seq<nat>)

  datatype ScanError = UnknownXType | AddressNotU32(address: int)

  predicate IsU32(address: int) {
    0 <= address < 0x1_0000_0000
  }

  function Report(blob: Bytes, item: Item): Found
    requires IsU32(item.address)
  {
    Found(item, References(blob, ToBigEndian(item.address, 4), 0))
  }

  function After(first: seq<Found>, rest: Result<seq<Found>, ScanError>): Result<seq<Found>, ScanError> {
    match rest
    case Err(e) => Err(e)
    case Ok(found) => Ok(first + found)
  }

  /** What the loop finds from `offset` on. */
  function ScanFrom(blob: Bytes, base: int, maxAxis: int, xType: XType, offset: nat): Result<seq<Found>, ScanError>
    decreases |blob| - offset
  {
    if offset + HEADER > |blob| then Ok([])
    else
      match Candidate(blob, base, maxAxis, xType, offset)
      case None => ScanFrom(blob, base, maxAxis, xType, offset + 4)
      case Some(item) =>
        if !IsU32(item.address) then Err(AddressNotU32(item.address))
        else After([Report(blob, item)], ScanFrom(blob, base, maxAxis, xType, offset + 4))
  }

  /** `scan`. */
  method Scan(blob: Bytes, base: int, maxAxis: int, xType: XType) returns (r: Result<seq<Found>, ScanError>)
    ensures r == if xType == OtherType then Err(UnknownXType) else ScanFrom(blob, base, maxAxis, xType, 0)
  {
    hide Candidate, Report;
    if xType == OtherType {
      return Err(UnknownXType);
    }
    var results := [];
    var offset: nat := 0;
    AfterNothing(ScanFrom(blob, base, maxAxis, xType, 0));
    while offset < |blob| - 13
      invariant ScanFrom(blob, base, maxAxis, xType, 0) == After(results, ScanFrom(blob, base, maxAxis, xType, offset))
    {
      var candidate := Candidate(blob, base, maxAxis, xType, offset);
      if candidate.Some? {
        var item := candidate.value;
        if !IsU32(item.address) {
          return Err(AddressNotU32(item.address));
        }
        AfterTwice(results, [Report(blob, item)], ScanFrom(blob, base, maxAxis, xType, offset + 4));
        results := results + [Report(blob, item)];
      }
      offset := offset + 4;
    }
    assert results + [] == results;
    r := Ok(results);
  }

  lemma AfterNothing(r: Result<seq<Found>, ScanError>)
    ensures After([], r) == r
  {
    if r.Ok? {
      assert [] + r.value == r.value;
    }
  }

  lemma AfterTwice(a: seq<Found>, b: seq<Found>, r: Result<seq<Found>, ScanError>)
    ensures After(a, After(b, r)) == After(a + b, r)
  {
    if r.Ok? {
      Assoc(a, b, r.value);
    }
  }

  /** A plausible descriptor stands at a word-aligned offset, from `from` on. */
  ghost predicate Listed(blob: Bytes, base: int, maxAxis: int, xType: XType, from: nat, item: Item) {
    var offset := item.address - base;
    && from <= offset && (offset - from) % 4 == 0
    && Written(blob, base, xType, item)
    && Plausible(item, base, base + |blob|, maxAxis, xType)
  }

  lemma WrittenInside(blob: Bytes, base: int, xType: XType, item: Item)
    requires Written(blob, base, xType, item)
    ensures InMapping(blob, base, item.address, HEADER)
  {
    hide Pack, Header;
    HoldsInside(blob, item.address - base, Header(item));
  }

  /** Past the first offset, what is listed is listed from the next one. */
  lemma ListedStep(blob: Bytes, base: int, maxAxis: int, xType: XType, from: nat, item: Item)
    requires from + HEADER <= |blob|
    ensures Listed(blob, base, maxAxis, xType, from, item)
      <==> || Candidate(blob, base, maxAxis, xType, from) == Some(item)
           || Listed(blob, base, maxAxis, xType, from + 4, item)
  {
    hide Candidate, Written, Plausible;
    CandidateExact(blob, base, maxAxis, xType, from, item);
    var d := item.address - base - from;
    if 0 < d && d % 4 == 0 {
      assert d >= 4 && (d - 4) % 4 == 0;
    }
  }

  lemma NothingListed(blob: Bytes, base: int, maxAxis: int, xType: XType, from: nat, item: Item)
    requires from + HEADER > |blob|
    ensures !Listed(blob, base, maxAxis, xType, from, item)
  {
    hide Plausible, Written;
    if Listed(blob, base, maxAxis, xType, from, item) {
      WrittenInside(blob, base, xType, item);
    }
  }

  /** A result with this descriptor and exactly the places that point at it. */
  ghost predicate Reports(blob: Bytes, f: Found, item: Item) {
    && f.item == item
    && IsU32(item.address)
    && forall q: nat :: q in f.references <==> Holds(blob, q, ToBigEndian(item.address, 4))
  }

  ghost predicate Reported(blob: Bytes, found: seq<Found>, item: Item) {
    exists f <- found :: Reports(blob, f, item)
  }

  lemma ReportReports(blob: Bytes, item: Item)
    requires IsU32(item.address)
    ensures Reports(blob, Report(blob, item), item)
  {
    hide References, Holds, ToBigEndian;
    forall q: nat
      ensures q in Report(blob, item).references <==> Holds(blob, q, ToBigEndian(item.address, 4))
    {
      ReferencesExact(blob, ToBigEndian(item.address, 4), 0, q);
    }
  }

  /** A finished scan reports exactly the listed descriptors, each with exactly its references. */
  lemma {:induction false} ScanExact(blob: Bytes, base: int, maxAxis: int, xType: XType, from: nat, item: Item)
    requires ScanFrom(blob, base, maxAxis, xType, from).Ok?
    ensures Listed(blob, base, maxAxis, xType, from, item)
      <==> Reported(blob, ScanFrom(blob, base, maxAxis, xType, from).value, item)
    decreases |blob| - from
  {
    hide Candidate, Listed, Reports, Report;
    if from + HEADER > |blob| {
      NothingListed(blob, base, maxAxis, xType, from, item);
    } else {
      ListedStep(blob, base, maxAxis, xType, from, item);
      ScanExact(blob, base, maxAxis, xType, from + 4, item);
      var c := Candidate(blob, base, maxAxis, xType, from);
      if c.Some? {
        var rest := ScanFrom(blob, base, maxAxis, xType, from + 4).value;
        ReportReports(blob, c.value);
        ReportedHead(blob, Report(blob, c.value), c.value, rest, item);
      }
    }
  }

  lemma ReportedHead(blob: Bytes, f: Found, first: Item, rest: seq<Found>, item: Item)
    requires Reports(blob, f, first)
    ensures Reported(blob, [f] + rest, item) <==> item == first || Reported(blob, rest, item)
  {
    hide Holds, ToBigEndian, IsU32;
    if Reported(blob, [f] + rest, item) {
      var g :| g in [f] + rest && Reports(blob, g, item);
      assert g == f || g in rest;
    }
    assert f in [f] + rest;
    if Reported(blob, rest, item) {
      var g :| g in rest && Reports(blob, g, item);
      assert g in [f] + rest;
    }
  }

  /** The scan stops with an error exactly when a listed descriptor's own address is not 32 bits wide. */
  lemma {:induction false} ScanFailsExactly(blob: Bytes, base: int, maxAxis: int, xType: XType, from: nat)
    ensures ScanFrom(blob, base, maxAxis, xType, from).Err? <==>
            exists item :: Listed(blob, base, maxAxis, xType, from, item) && !(0 <= item.address < 4294967296)
    decreases |blob| - from
  {
    hide Candidate, Listed, Report;
    if from + HEADER > |blob| {
      forall item
        ensures !Listed(blob, base, maxAxis, xType, from, item)
      {
        NothingListed(blob, base, maxAxis, xType, from, item);
      }
    } else {
      ScanFailsExactly(blob, base, maxAxis, xType, from + 4);
      forall item
        ensures Listed(blob, base, maxAxis, xType, from, item)
          <==> || Candidate(blob, base, maxAxis, xType, from) == Some(item)
               || Listed(blob, base, maxAxis, xType, from + 4, item)
      {
        ListedStep(blob, base, maxAxis, xType, from, item);
      }
    }
  }

  /** An image that lies in the 32-bit address space is scanned to the end. */
  lemma ScanInside(blob: Bytes, base: int, maxAxis: int, xType: XType)
    requires 0 <= base && base + |blob| <= 0x1_0000_0000
    ensures ScanFrom(blob, base, maxAxis, xType, 0).Ok?
  {
    hide Plausible, Written, ScanFrom;
    ScanFailsExactly(blob, base, maxAxis, xType, 0);
    forall item | Listed(blob, base, maxAxis, xType, 0, item)
      ensures IsU32(item.address)
    {
      WrittenInside(blob, base, xType, item);
    }
  }

  /** A two by two descriptor at the start of an image that is mapped 16 bytes below address 0. */
  const BELOW_ZERO: Bytes := [
    0, 0, 0, 0, 0, 0, 0, 8, 0, 0, 0, 12, 2, 2, 0, 0,
    0, 0, 0, 0, 0, 0, 0, 0, 0, 0, 0, 1, 0, 0, 0, 1
  ]

  function Pair(hi: int, lo: int): int {
    hi * 256 + lo
  }

  lemma ReadTwo(blob: Bytes, o: nat)
    requires o + 2 <= |blob|
    ensures FromBigEndian(blob[o..o + 2]) == Pair(blob[o], blob[o + 1])
  {
    var s := blob[o..o + 2];
    assert s[..1] == [blob[o]] && s[..1][..0] == [];
    assert FromBigEndian(s[..1]) == blob[o];
  }

  lemma ReadFour(blob: Bytes, o: nat)
    requires o + 4 <= |blob|
    ensures U32At(blob, o) == Pair(Pair(Pair(blob[o], blob[o + 1]), blob[o + 2]), blob[o + 3])
  {
    var s := blob[o..o + 4];
    ReadTwo(blob, o);
    assert s[..3][..2] == blob[o..o + 2];
    assert FromBigEndian(s[..3]) == Pair(FromBigEndian(s[..3][..2]), s[..3][2]);
    assert FromBigEndian(s) == Pair(FromBigEndian(s[..3]), s[3]);
  }

  lemma UnpackTwo(blob: Bytes, o: nat)
    requires o + 4 <= |blob|
    ensures Unpack(blob, o, 2, 2) == [Pair(blob[o], blob[o + 1]), Pair(blob[o + 2], blob[o + 3])]
  {
    hide FromBigEndian;
    ReadTwo(blob, o);
    ReadTwo(blob, o + 2);
    assert Unpack(blob, o + 4, 2, 0) == [];
    assert Unpack(blob, o + 2, 2, 1) == [FromBigEndian(blob[o + 2..o + 4])];
  }

  lemma HeadingOfBytes(blob: Bytes, d: Byte, x: Byte, y: Byte, n: Byte, m: Byte)
    requires |blob| >= 14 && blob[..14] == [0, 0, 0, d, 0, 0, 0, x, 0, 0, 0, y, n, m]
    ensures ReadHeading(blob, 0) == Heading(d, x, y, n, m)
  {
    hide U32At;
    var h := blob[..14];
    assert forall i :: 0 <= i < 14 ==> blob[i] == h[i];
    ReadFour(blob, 0);
    ReadFour(blob, 4);
    ReadFour(blob, 8);
  }

  lemma BelowZeroDecodes(h: Heading)
    requires h == Heading(0, 8, 12, 2, 2)
    ensures var d := DecodeTargets(BELOW_ZERO, -16, -16, U16, h);
      d.Ok? && d.value.address == -16 && d.value.xAxis == [0, 1] && d.value.yAxis == [0, 1]
  {
    hide Rows, Unpack;
    UnpackTwo(BELOW_ZERO, 24);
    UnpackTwo(BELOW_ZERO, 28);
  }

  lemma BelowZeroFails()
    ensures ScanFrom(BELOW_ZERO, -16, 64, U16, 0) == Err(AddressNotU32(-16))
  {
    hide ReadHeading, DecodeTargets;
    assert BELOW_ZERO[..14] == [0, 0, 0, 0, 0, 0, 0, 8, 0, 0, 0, 12, 2, 2];
    HeadingOfBytes(BELOW_ZERO, 0, 8, 12, 2, 2);
    BelowZeroDecodes(ReadHeading(BELOW_ZERO, 0));
    assert Decode(BELOW_ZERO, -16, -16, U16) == DecodeTargets(BELOW_ZERO, -16, -16, U16, Heading(0, 8, 12, 2, 2));
    assert Candidate(BELOW_ZERO, -16, 64, U16, 0).Some?;
  }

  ghost predicate AddressesAscend(found: seq<Found>) {
    forall i, j :: 0 <= i < j < |found| ==> found[i].item.address < found[j].item.address
  }

  ghost predicate AddressesFrom(found: seq<Found>, least: int) {
    forall i :: 0 <= i < |found| ==> least <= found[i].item.address
  }

  lemma CandidateAddress(blob: Bytes, base: int, maxAxis: int, xType: XType, offset: nat)
    requires offset + HEADER <= |blob| && Candidate(blob, base, maxAxis, xType, offset).Some?
    ensures Candidate(blob, base, maxAxis, xType, offset).value.address == base + offset
  {
    hide Candidate, Written, Plausible;
    CandidateExact(blob, base, maxAxis, xType, offset, Candidate(blob, base, maxAxis, xType, offset).value);
  }

  /** Results come in address order, so none is reported twice. */
  lemma {:induction false} ScanAscends(blob: Bytes, base: int, maxAxis: int, xType: XType, from: nat)
    requires ScanFrom(blob, base, maxAxis, xType, from).Ok?
    ensures AddressesAscend(ScanFrom(blob, base, maxAxis, xType, from).value)
    ensures AddressesFrom(ScanFrom(blob, base, maxAxis, xType, from).value, base + from)
    decreases |blob| - from
  {
    hide Candidate, References;
    if from + HEADER <= |blob| {
      ScanAscends(blob, base, maxAxis, xType, from + 4);
      var c := Candidate(blob, base, maxAxis, xType, from);
      if c.Some? {
        CandidateAddress(blob, base, maxAxis, xType, from);
      }
    }
  }
}
