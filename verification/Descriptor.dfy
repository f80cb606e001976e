/** The big-endian interpolation descriptor: header, two axes, a signed grid. */
module Descriptor {
  import opened Basics
  import opened Fields

  const HEADER := 14

  /** The X axis type as given; anything but the two known ones is `OtherType`. */
  datatype XType = U16 | U32 | OtherType

  datatype Item = Item(
    address: int,
    dataAddress: nat, xAddress: nat, yAddress: nat,
    xCount: nat, yCount: nat,
    xAxis: seq<nat>, yAxis: seq<nat>, grid: seq<seq<int>>)

  datatype Error = OutsideMapping(address: int) | ZeroCount | BadXType | TargetOutside(target: int)

  function XWidth(t: XType): nat {
    if t == U32 then 4 else 2
  }

  /** The fourteen fixed bytes. */
  datatype Heading = Heading(dataAddress: nat, xAddress: nat, yAddress: nat, xCount: nat, yCount: nat)

  function U32At(blob: Bytes, offset: nat): nat
    requires offset + 4 <= |blob|
  {
    FromBigEndian(blob[offset..offset + 4])
  }

  function ReadHeading(blob: Bytes, offset: nat): (h: Heading)
    requires offset + HEADER <= |blob|
    ensures h.xCount < 256 && h.yCount < 256
  {
    Heading(U32At(blob, offset), U32At(blob, offset + 4), U32At(blob, offset + 8),
            blob[offset + 12], blob[offset + 13])
  }

  function Area(xCount: nat, yCount: nat): nat {
    xCount * yCount
  }

  predicate InMapping(blob: Bytes, base: int, target: int, size: nat) {
    0 <= target - base && target - base + size <= |blob|
  }

  /** `unpack_at`, for an unsigned field of `width` bytes. */
  function UnpackAt(blob: Bytes, base: int, target: int, width: nat, count: nat): Result<seq<nat>, Error> {
    if !InMapping(blob, base, target, width * count) then Err(TargetOutside(target))
    else Ok(Unpack(blob, target - base, width, count))
  }

  /** `flat` cut into rows of `width`. */
  function Rows(flat: seq<int>, width: nat): seq<seq<int>>
    requires width > 0
    decreases |flat|
  {
    if flat == [] then []
    else if |flat| <= width then [flat]
    else [flat[..width]] + Rows(flat[width..], width)
  }

  /** The grid part of the decoder. */
  function ReadGrid(blob: Bytes, base: int, h: Heading): Result<seq<seq<int>>, Error>
    requires h.yCount > 0
  {
    match UnpackAt(blob, base, h.dataAddress, 2, Area(h.xCount, h.yCount))
    case Err(e) => Err(e)
    case Ok(flat) => Ok(Rows(AllSigned16(flat), h.yCount))
  }

  /** The axes and the grid a heading points at: X first, then Y, then the data. */
  function DecodeTargets(blob: Bytes, address: int, base: int, xType: XType, h: Heading): Result<Item, Error>
    requires h.yCount > 0
  {
    match UnpackAt(blob, base, h.xAddress, XWidth(xType), h.xCount)
    case Err(e) => Err(e)
    case Ok(xs) =>
      match UnpackAt(blob, base, h.yAddress, 2, h.yCount)
      case Err(e) => Err(e)
      case Ok(ys) =>
        match ReadGrid(blob, base, h)
        case Err(e) => Err(e)
        case Ok(grid) =>
          Ok(Item(address, h.dataAddress, h.xAddress, h.yAddress, h.xCount, h.yCount, xs, ys, grid))
  }

  /** `decode`. */
  function Decode(blob: Bytes, address: int, base: int, xType: XType): Result<Item, Error> {
    if address < base || address - base + HEADER > |blob| then Err(OutsideMapping(address))
    else
      var h := ReadHeading(blob, address - base);
      if h.xCount == 0 || h.yCount == 0 then Err(ZeroCount)
      else if xType == OtherType then Err(BadXType)
      else DecodeTargets(blob, address, base, xType, h)
  }

  // ------------------------------------------------------------------
  // What a descriptor looks like in the image
  // ------------------------------------------------------------------

  function Header(item: Item): (h: Bytes)
    requires item.xCount < 256 && item.yCount < 256
    ensures |h| == HEADER
  {
    ToBigEndian(item.dataAddress, 4) + ToBigEndian(item.xAddress, 4) + ToBigEndian(item.yAddress, 4)
    + [item.xCount, item.yCount]
  }

  predicate AllLong(rows: seq<seq<int>>, width: nat) {
    forall i :: 0 <= i < |rows| ==> |rows[i]| == width
  }

  function HeadingOf(item: Item): Heading {
    Heading(item.dataAddress, item.xAddress, item.yAddress, item.xCount, item.yCount)
  }

  predicate AddressesFit(h: Heading) {
    h.dataAddress < Pow256(4) && h.xAddress < Pow256(4) && h.yAddress < Pow256(4)
  }

  predicate GridFits(grid: seq<seq<int>>, xCount: nat, yCount: nat) {
    |grid| == xCount && AllLong(grid, yCount) && InS16(Flatten(grid))
  }

  /** The counts fit a byte and are those of the axes and the grid; every value fits its field. */
  predicate Fits(item: Item, xType: XType) {
    && 0 < item.xCount == |item.xAxis| < 256
    && 0 < item.yCount == |item.yAxis| < 256
    && AddressesFit(HeadingOf(item))
    && AllBelow(item.xAxis, Pow256(XWidth(xType)))
    && AllBelow(item.yAxis, Pow256(2))
    && GridFits(item.grid, item.xCount, item.yCount)
  }

  /** The image holds `item`, written big-endian, with its header at `item.address`. */
  predicate Written(blob: Bytes, base: int, xType: XType, item: Item) {
    && xType != OtherType
    && Fits(item, xType)
    && Holds(blob, item.address - base, Header(item))
    && Holds(blob, item.xAddress - base, Pack(item.xAxis, XWidth(xType)))
    && Holds(blob, item.yAddress - base, Pack(item.yAxis, 2))
    && Holds(blob, item.dataAddress - base, Pack(AllUnsigned16(Flatten(item.grid)), 2))
  }

  // ------------------------------------------------------------------
  // Rows
  // ------------------------------------------------------------------

  lemma {:induction false} FlattenLength(rows: seq<seq<int>>, width: nat)
    requires AllLong(rows, width)
    ensures |Flatten(rows)| == |rows| * width
  {
    if rows != [] {
      FlattenLength(rows[1..], width);
      Peel(width, |rows|);
    }
  }

  /** Cutting gives `rows` exactly when the flat list is `rows` put together. */
  lemma {:induction false} RowsExact(flat: seq<int>, count: nat, width: nat, rows: seq<seq<int>>)
    requires width > 0 && |flat| == count * width
    ensures Rows(flat, width) == rows <==> |rows| == count && AllLong(rows, width) && flat == Flatten(rows)
    decreases count
  {
    if count == 0 {
      if |rows| == 0 {
        assert flat == [];
      }
    } else {
      Peel(width, count);
      var head, rest := flat[..width], flat[width..];
      assert |rest| == (count - 1) * width;
      RowsStep(flat, count, width);
      if rows != [] {
        RowsExact(rest, count - 1, width, rows[1..]);
        AllLongStep(rows, width);
        assert rows == [rows[0]] + rows[1..];
        assert flat == head + rest;
        if |rows[0]| == width {
          FlattenSplit(head, rest, rows);
        }
      }
    }
  }

  lemma RowsStep(flat: seq<int>, count: nat, width: nat)
    requires width > 0 && count > 0 && |flat| == count * width
    ensures |flat| >= width && Rows(flat, width) == [flat[..width]] + Rows(flat[width..], width)
  {
    Peel(width, count);
    if |flat| == width {
      assert flat[..width] == flat && flat[width..] == [];
    }
  }

  lemma FlattenSplit(head: seq<int>, rest: seq<int>, rows: seq<seq<int>>)
    requires rows != [] && |rows[0]| == |head|
    ensures head + rest == Flatten(rows) <==> head == rows[0] && rest == Flatten(rows[1..])
  {
    var f := Flatten(rows);
    assert f[..|head|] == rows[0] && f[|head|..] == Flatten(rows[1..]);
    assert (head + rest)[..|head|] == head && (head + rest)[|head|..] == rest;
  }

  lemma AllLongStep(rows: seq<seq<int>>, width: nat)
    requires rows != []
    ensures AllLong(rows, width) <==> |rows[0]| == width && AllLong(rows[1..], width)
  {
    assert forall i :: 1 <= i < |rows| ==> rows[i] == rows[1..][i - 1];
    assert forall i :: 0 <= i < |rows| - 1 ==> rows[1..][i] == rows[i + 1];
  }

  // ------------------------------------------------------------------
  // Decoding is exact
  // ------------------------------------------------------------------

  lemma U32Exact(blob: Bytes, offset: nat, n: nat)
    requires offset + 4 <= |blob|
    ensures U32At(blob, offset) == n <==> n < Pow256(4) && Holds(blob, offset, ToBigEndian(n, 4))
  {
    hide FromBigEndian, ToBigEndian, Pow256;
    FieldExact(blob[offset..offset + 4], n);
  }

  lemma TwoBytes(blob: Bytes, offset: nat, a: Byte, b: Byte)
    requires offset + 2 <= |blob|
    ensures Holds(blob, offset, [a, b]) <==> blob[offset] == a && blob[offset + 1] == b
  {
    var s := blob[offset..offset + 2];
    assert s == [blob[offset], blob[offset + 1]];
    assert s == [a, b] <==> s[0] == a && s[1] == b;
  }

  /** Four consecutive fields. */
  lemma HoldsFour(blob: Bytes, offset: int, a: Bytes, b: Bytes, c: Bytes, d: Bytes)
    requires |a| == |b| == |c| == 4
    ensures Holds(blob, offset, a + b + c + d)
      <==> && Holds(blob, offset, a) && Holds(blob, offset + 4, b)
           && Holds(blob, offset + 8, c) && Holds(blob, offset + 12, d)
  {
    hide Holds;
    HoldsSplit(blob, offset, a + b + c, d);
    HoldsSplit(blob, offset, a + b, c);
    HoldsSplit(blob, offset, a, b);
  }

  lemma HeadingExact(blob: Bytes, offset: nat, item: Item)
    requires offset + HEADER <= |blob| && item.xCount < 256 && item.yCount < 256
    ensures ReadHeading(blob, offset) == HeadingOf(item)
      <==> AddressesFit(HeadingOf(item)) && Holds(blob, offset, Header(item))
  {
    hide Holds, U32At, ToBigEndian, Pow256;
    var a, b, c := ToBigEndian(item.dataAddress, 4), ToBigEndian(item.xAddress, 4), ToBigEndian(item.yAddress, 4);
    HoldsFour(blob, offset, a, b, c, [item.xCount, item.yCount]);
    U32Exact(blob, offset, item.dataAddress);
    U32Exact(blob, offset + 4, item.xAddress);
    U32Exact(blob, offset + 8, item.yAddress);
    TwoBytes(blob, offset + 12, item.xCount, item.yCount);
  }

  /** A field array reads as `values` exactly when it is in the mapping and their encoding stands there. */
  lemma UnpackAtExact(blob: Bytes, base: int, target: int, width: nat, values: seq<nat>)
    ensures UnpackAt(blob, base, target, width, |values|) == Ok(values)
      <==> AllBelow(values, Pow256(width)) && Holds(blob, target - base, Pack(values, width))
  {
    hide AllBelow, Unpack, Pow256;
    if InMapping(blob, base, target, width * |values|) {
      UnpackExact(blob, target - base, width, values);
    }
  }

  lemma UnpackAtBelow(blob: Bytes, base: int, target: int, width: nat, count: nat)
    requires UnpackAt(blob, base, target, width, count).Ok?
    ensures AllBelow(UnpackAt(blob, base, target, width, count).value, Pow256(width))
    ensures |UnpackAt(blob, base, target, width, count).value| == count
  {
    hide AllBelow, Pow256;
    UnpackAtExact(blob, base, target, width, UnpackAt(blob, base, target, width, count).value);
  }

  lemma TwoByteBound()
    ensures Pow256(2) == 0x1_0000
  {
    assert Pow256(0) == 1 && Pow256(1) == 256;
  }

  lemma GridExact(blob: Bytes, base: int, h: Heading, grid: seq<seq<int>>)
    requires h.yCount > 0
    ensures ReadGrid(blob, base, h) == Ok(grid)
      <==> && GridFits(grid, h.xCount, h.yCount)
           && Holds(blob, h.dataAddress - base, Pack(AllUnsigned16(Flatten(grid)), 2))
  {
    hide UnpackAt, Rows, Pack, AllLong, InS16, AllUnsigned16, AllSigned16, AllBelow, Holds, Pow256;
    var n := Area(h.xCount, h.yCount);
    var want := AllUnsigned16(Flatten(grid));
    if ReadGrid(blob, base, h) == Ok(grid) {
      var flat := UnpackAt(blob, base, h.dataAddress, 2, n).value;
      UnpackAtBelow(blob, base, h.dataAddress, 2, n);
      TwoByteBound();
      RowsExact(AllSigned16(flat), h.xCount, h.yCount, grid);
      SignedExact(flat, Flatten(grid));
      UnpackAtExact(blob, base, h.dataAddress, 2, flat);
    }
    if GridFits(grid, h.xCount, h.yCount) && Holds(blob, h.dataAddress - base, Pack(want, 2)) {
      FlattenLength(grid, h.yCount);
      UnsignedBelow(Flatten(grid));
      TwoByteBound();
      UnpackAtExact(blob, base, h.dataAddress, 2, want);
      SignedExact(want, Flatten(grid));
      RowsExact(Flatten(grid), h.xCount, h.yCount, grid);
    }
  }

  lemma TargetsExact(blob: Bytes, base: int, xType: XType, item: Item)
    requires item.yCount > 0
    ensures DecodeTargets(blob, item.address, base, xType, HeadingOf(item)) == Ok(item)
      <==> && UnpackAt(blob, base, item.xAddress, XWidth(xType), item.xCount) == Ok(item.xAxis)
           && UnpackAt(blob, base, item.yAddress, 2, item.yCount) == Ok(item.yAxis)
           && ReadGrid(blob, base, HeadingOf(item)) == Ok(item.grid)
  {
    hide UnpackAt, ReadGrid;
  }

  /** Everything `Decode` returned stands in the image. */
  lemma DecodedIsWritten(blob: Bytes, base: int, xType: XType, item: Item)
    requires Decode(blob, item.address, base, xType) == Ok(item)
    ensures Written(blob, base, xType, item)
  {
    hide UnpackAt, ReadGrid, ReadHeading, DecodeTargets, Header, Pack, AllBelow, GridFits, Pow256, AddressesFit, Holds;
    var h := ReadHeading(blob, item.address - base);
    DecodedHeading(blob, item.address, base, xType, h);
    assert h == HeadingOf(item);
    HeadingExact(blob, item.address - base, item);
    TargetsExact(blob, base, xType, item);
    UnpackAtBelow(blob, base, item.xAddress, XWidth(xType), item.xCount);
    UnpackAtBelow(blob, base, item.yAddress, 2, item.yCount);
    UnpackAtExact(blob, base, item.xAddress, XWidth(xType), item.xAxis);
    UnpackAtExact(blob, base, item.yAddress, 2, item.yAxis);
    GridExact(blob, base, h, item.grid);
  }

  lemma HoldsInside(blob: Bytes, offset: int, content: Bytes)
    requires Holds(blob, offset, content)
    ensures 0 <= offset && offset + |content| <= |blob|
  {
  }

  /** Everything written is decoded. */
  lemma WrittenDecodes(blob: Bytes, base: int, xType: XType, item: Item)
    requires Written(blob, base, xType, item)
    ensures Decode(blob, item.address, base, xType) == Ok(item)
  {
    hide UnpackAt, ReadGrid, ReadHeading, DecodeTargets, Header, Pack, AllBelow, GridFits, Pow256, AddressesFit, Holds;
    HoldsInside(blob, item.address - base, Header(item));
    HeadingExact(blob, item.address - base, item);
    UnpackAtExact(blob, base, item.xAddress, XWidth(xType), item.xAxis);
    UnpackAtExact(blob, base, item.yAddress, 2, item.yAxis);
    GridExact(blob, base, HeadingOf(item), item.grid);
    TargetsExact(blob, base, xType, item);
  }

  /**
   * Decoding yields `item` exactly when the image holds `item` written big-endian: the reader
   * inverts the writer, and whatever it returns is what stands in the image.
   */
  lemma DecodeExact(blob: Bytes, base: int, xType: XType, item: Item)
    ensures Decode(blob, item.address, base, xType) == Ok(item) <==> Written(blob, base, xType, item)
  {
    hide Decode, Written;
    if Decode(blob, item.address, base, xType) == Ok(item) {
      DecodedIsWritten(blob, base, xType, item);
    }
    if Written(blob, base, xType, item) {
      WrittenDecodes(blob, base, xType, item);
    }
  }

  lemma DecodedHeading(blob: Bytes, address: int, base: int, xType: XType, h: Heading)
    requires h.yCount > 0 && DecodeTargets(blob, address, base, xType, h).Ok?
    ensures HeadingOf(DecodeTargets(blob, address, base, xType, h).value) == h
    ensures DecodeTargets(blob, address, base, xType, h).value.address == address
  {
    hide UnpackAt, ReadGrid;
  }

  /** When decoding succeeds: header and targets inside the image, counts not zero, X type known. */
  lemma DecodeSucceeds(blob: Bytes, address: int, base: int, xType: XType)
    ensures Decode(blob, address, base, xType).Ok? <==>
            && InMapping(blob, base, address, HEADER)
            && xType != OtherType
            && var h := ReadHeading(blob, address - base);
               && h.xCount > 0 && h.yCount > 0
               && InMapping(blob, base, h.xAddress, XWidth(xType) * h.xCount)
               && InMapping(blob, base, h.yAddress, 2 * h.yCount)
               && InMapping(blob, base, h.dataAddress, 2 * Area(h.xCount, h.yCount))
  {
    hide Unpack, Rows, AllSigned16, Area, FromBigEndian, XWidth;
  }

  /**
   A descriptor is written at an address exactly when its header and all it points at lie in the
   image and its counts are not zero: no byte content is refused.
   */
  lemma ReadableExactly(blob: Bytes, address: int, base: int, xType: XType)
    ensures (exists item: Item :: item.address == address && Written(blob, base, xType, item)) <==>
            && InMapping(blob, base, address, HEADER)
            && xType != OtherType
            && var h := ReadHeading(blob, address - base);
               && h.xCount > 0 && h.yCount > 0
               && InMapping(blob, base, h.xAddress, XWidth(xType) * h.xCount)
               && InMapping(blob, base, h.yAddress, 2 * h.yCount)
               && InMapping(blob, base, h.dataAddress, 2 * Area(h.xCount, h.yCount))
  {
    DecodeSucceeds(blob, address, base, xType);
    DecodedAddress(blob, address, base, xType);
    hide *;
    var d: Result<Item, Error> := Decode(blob, address, base, xType);
    if d.Ok? {
      DecodeExact(blob, base, xType, d.value);
    }
    forall item: Item | item.address == address && Written(blob, base, xType, item)
      ensures d == Ok(item)
    {
      DecodeExact(blob, base, xType, item);
    }
  }

  lemma DecodedAddress(blob: Bytes, address: int, base: int, xType: XType)
    ensures var d: Result<Item, Error> := Decode(blob, address, base, xType);
      d.Ok? ==> d.value.address == address
  {
    hide UnpackAt, ReadGrid, ReadHeading;
  }
}
