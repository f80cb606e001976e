/** The flash-image checksum: the 16-bit words of an image add up to 0x5AA5 modulo 2^16. */
module Checksum {
  import opened Basics

  const TARGET := 0x5AA5
  const MODULUS := 0x1_0000
  const MAGIC: Byte := 0x55

  /** The byte order as given; anything but the two known ones is `OtherOrder`. */
  datatype Endian = Big | Little | OtherOrder

  datatype Error = OddLength(length: nat) | UnknownEndian

  function Word(a: Byte, b: Byte, e: Endian): nat {
    var hi: int := if e == Little then b else a;
    var lo: int := if e == Little then a else b;
    hi * 256 + lo
  }

  predicate Even(data: Bytes) {
    |data| % 2 == 0
  }

  /** The 16-bit words of an image of even length. */
  function Words(data: Bytes, e: Endian): (ws: seq<nat>)
    requires Even(data)
    ensures |ws| == |data| / 2
  {
    if data == [] then [] else [Word(data[0], data[1], e)] + Words(data[2..], e)
  }

  function Total(ws: seq<nat>): nat {
    if ws == [] then 0 else ws[0] + Total(ws[1..])
  }

  function SumOf(data: Bytes, e: Endian): nat
    requires Even(data)
  {
    Total(Words(data, e)) % MODULUS
  }

  /** What the words from offset `i` on add up to, one word at a time. */
  lemma TotalFrom(data: Bytes, i: nat, e: Endian)
    requires Even(data) && i % 2 == 0 && i <= |data|
    ensures Total(Words(data[i..], e)) ==
      if i == |data| then 0 else Word(data[i], data[i + 1], e) + Total(Words(data[i + 2..], e))
  {
    if i < |data| {
      var w := Word(data[i], data[i + 1], e);
      assert data[i..][2..] == data[i + 2..];
      assert ([w] + Words(data[i + 2..], e))[1..] == Words(data[i + 2..], e);
    }
  }

  /** `sum16`; the length is checked before the byte order. */
  method Sum16(data: Bytes, e: Endian) returns (r: Result<nat, Error>)
    ensures r == if !Even(data) then Err(OddLength(|data|))
                 else if e == OtherOrder then Err(UnknownEndian)
                 else Ok(SumOf(data, e))
  {
    if |data| % 2 != 0 {
      return Err(OddLength(|data|));
    }
    if e == OtherOrder {
      return Err(UnknownEndian);
    }
    hide Words, Total, Word;
    var total := 0;
    var i := 0;
    assert data[0..] == data;
    while i < |data|
      invariant i % 2 == 0 && i <= |data|
      invariant total + Total(Words(data[i..], e)) == Total(Words(data, e))
    {
      TotalFrom(data, i, e);
      if e == Big {
        total := total + Word(data[i], data[i + 1], Big);
      } else {
        total := total + Word(data[i], data[i + 1], Little);
      }
      i := i + 2;
    }
    TotalFrom(data, i, e);
    r := Ok(total % MODULUS);
  }

  datatype Verdict = Pass | BadMagic | OddImage(length: nat) | BadSum(got: nat)

  /** Magic 55 55, even length, and words that add up to 5AA5 in a known byte order. */
  predicate Passes(image: Bytes, e: Endian) {
    [0x55, 0x55] <= image && |image| % 2 == 0 && e != OtherOrder && Total(Words(image, e)) % 0x1_0000 == 0x5AA5
  }

  /** `verify`: magic, then length, then sum; only the sum can hit an unknown byte order. */
  method Verify(image: Bytes, e: Endian) returns (r: Result<Verdict, Error>)
    ensures r == Ok(Pass) <==> Passes(image, e)
    ensures r == Ok(BadMagic) <==> !([0x55, 0x55] <= image)
    ensures r == Ok(OddImage(|image|)) <==> [0x55, 0x55] <= image && |image| % 2 == 1
    ensures forall got :: r == Ok(BadSum(got)) <==>
              && [0x55, 0x55] <= image && |image| % 2 == 0 && e != OtherOrder
              && got == Total(Words(image, e)) % 0x1_0000 != 0x5AA5
    ensures r == Err(UnknownEndian) <==> [0x55, 0x55] <= image && |image| % 2 == 0 && e == OtherOrder
  {
    if |image| < 2 || image[0] != MAGIC || image[1] != MAGIC {
      return Ok(BadMagic);
    }
    if |image| % 2 != 0 {
      return Ok(OddImage(|image|));
    }
    var s := Sum16(image, e);
    match s
    case Err(error) => r := Err(error);
    case Ok(sum) => r := Ok(if sum != TARGET then BadSum(sum) else Pass);
  }

  // ------------------------------------------------------------------
  // One word
  // ------------------------------------------------------------------

  /** The bytes of a 16-bit value in the given order. */
  function WordBytes(v: nat, e: Endian): (b: Bytes)
    requires v < MODULUS
    ensures |b| == 2 && Word(b[0], b[1], e) == v
  {
    var hi: Byte := v / 256;
    var lo: Byte := v % 256;
    if e == Little then [lo, hi] else [hi, lo]
  }

  function SetWord(data: Bytes, slot: nat, v: nat, e: Endian): (r: Bytes)
    requires 2 * slot + 2 <= |data| && v < MODULUS
    ensures |r| == |data|
  {
    data[..2 * slot] + WordBytes(v, e) + data[2 * slot + 2..]
  }

  lemma SetWordHead(data: Bytes, v: nat, e: Endian)
    requires Even(data) && data != [] && v < MODULUS
    ensures var after := SetWord(data, 0, v, e);
      after[2..] == data[2..] && Word(after[0], after[1], e) == v
  {
    hide Word;
    var after := SetWord(data, 0, v, e);
    assert after == WordBytes(v, e) + data[2..];
  }

  lemma SetWordTail(data: Bytes, slot: nat, v: nat, e: Endian)
    requires 0 < slot && 2 * slot + 2 <= |data| && v < MODULUS
    ensures var after := SetWord(data, slot, v, e);
      after[2..] == SetWord(data[2..], slot - 1, v, e) && after[0] == data[0] && after[1] == data[1]
  {
    hide WordBytes, Word;
  }

  lemma {:induction false} WordsSet(data: Bytes, slot: nat, v: nat, e: Endian)
    requires Even(data) && 2 * slot + 2 <= |data| && v < MODULUS
    ensures Words(SetWord(data, slot, v, e), e) == Words(data, e)[slot := v]
    decreases slot
  {
    hide SetWord, Word;
    if slot == 0 {
      SetWordHead(data, v, e);
    } else {
      SetWordTail(data, slot, v, e);
      WordsSet(data[2..], slot - 1, v, e);
    }
  }

  lemma {:induction false} TotalSet(ws: seq<nat>, slot: nat, v: nat)
    requires slot < |ws|
    ensures Total(ws[slot := v]) == Total(ws) - ws[slot] + v
    decreases slot
  {
    var after := ws[slot := v];
    if slot == 0 {
      assert after[1..] == ws[1..];
    } else {
      TotalSet(ws[1..], slot - 1, v);
      assert after[1..] == ws[1..][slot - 1 := v];
    }
  }

  /** What the slot must hold: the target less the sum of all other words. */
  function Filler(data: Bytes, slot: nat, e: Endian): (v: nat)
    requires Even(data) && 2 * slot + 2 <= |data|
    ensures v < MODULUS
  {
    var ws := Words(data, e);
    (TARGET - (Total(ws) - ws[slot])) % MODULUS
  }

  lemma OnlyFiller(others: int, v: nat)
    requires v < MODULUS
    ensures (others + v) % MODULUS == TARGET <==> v == (TARGET - others) % MODULUS
  {
  }

  /** For every slot exactly one 16-bit value gives the image the right sum. */
  lemma OneValueFits(data: Bytes, slot: nat, v: nat, e: Endian)
    requires Even(data) && 2 * slot + 2 <= |data| && v < MODULUS
    ensures SumOf(SetWord(data, slot, v, e), e) == TARGET <==> v == Filler(data, slot, e)
  {
    var ws := Words(data, e);
    WordsSet(data, slot, v, e);
    TotalSet(ws, slot, v);
    OnlyFiller(Total(ws) - ws[slot], v);
  }

  lemma {:induction false} WordAt(data: Bytes, slot: nat, e: Endian)
    requires Even(data) && 2 * slot + 2 <= |data|
    ensures Words(data, e)[slot] == Word(data[2 * slot], data[2 * slot + 1], e) < MODULUS
    decreases slot
  {
    if slot > 0 {
      WordAt(data[2..], slot - 1, e);
    }
  }

  /** In an image with the right sum every slot looks like the checksum slot, and in no other image does any. */
  lemma EverySlotFits(data: Bytes, slot: nat, e: Endian)
    requires Even(data) && 2 * slot + 2 <= |data|
    ensures SumOf(data, e) == TARGET <==> Words(data, e)[slot] == Filler(data, slot, e)
  {
    var ws := Words(data, e);
    WordAt(data, slot, e);
    OnlyFiller(Total(ws) - ws[slot], ws[slot]);
  }

  /**
   An image passes exactly when it starts with the magic, has even length, and every slot, the
   magic's own included, holds what all others leave for it.
   */
  lemma PassesExactly(data: Bytes, e: Endian)
    ensures Passes(data, e) <==>
      && [0x55, 0x55] <= data && |data| % 2 == 0 && e != OtherOrder
      && forall slot: nat :: 2 * slot + 2 <= |data| ==> Words(data, e)[slot] == Filler(data, slot, e)
  {
    hide Words, Filler;
    if [0x55, 0x55] <= data && Even(data) {
      forall slot: nat | 2 * slot + 2 <= |data|
        ensures SumOf(data, e) == TARGET <==> Words(data, e)[slot] == Filler(data, slot, e)
      {
        EverySlotFits(data, slot, e);
      }
      EverySlotFits(data, 0, e);
    }
  }

  /** Putting the right value in any slot behind the magic makes the image pass. */
  lemma RepairPasses(data: Bytes, slot: nat, e: Endian)
    requires [0x55, 0x55] <= data && Even(data) && e != OtherOrder && 1 <= slot && 2 * slot + 2 <= |data|
    ensures Passes(SetWord(data, slot, Filler(data, slot, e), e), e)
  {
    OneValueFits(data, slot, Filler(data, slot, e), e);
    var after := SetWord(data, slot, Filler(data, slot, e), e);
    assert after[0] == data[0] && after[1] == data[1];
  }

  // ------------------------------------------------------------------
  // Whole edits
  // ------------------------------------------------------------------

  /** The changes of the words, added up. */
  function TotalDelta(before: seq<nat>, after: seq<nat>): int
    requires |before| == |after|
  {
    if before == [] then 0 else after[0] - before[0] + TotalDelta(before[1..], after[1..])
  }

  lemma {:induction false} DeltaIsDifference(before: seq<nat>, after: seq<nat>)
    requires |before| == |after|
    ensures TotalDelta(before, after) == Total(after) - Total(before)
  {
    if before != [] {
      DeltaIsDifference(before[1..], after[1..]);
    }
  }

  lemma SameResidue(x: nat, y: nat)
    ensures x % MODULUS == y % MODULUS <==> (y - x) % MODULUS == 0
  {
  }

  /** An edit keeps the sum exactly when its word changes add up to 0 modulo 2^16. */
  lemma EditKeepsSum(before: Bytes, after: Bytes, e: Endian)
    requires Even(before) && |before| == |after|
    ensures SumOf(before, e) == SumOf(after, e)
      <==> TotalDelta(Words(before, e), Words(after, e)) % MODULUS == 0
  {
    DeltaIsDifference(Words(before, e), Words(after, e));
    SameResidue(Total(Words(before, e)), Total(Words(after, e)));
  }

  // ------------------------------------------------------------------
  // Byte order
  // ------------------------------------------------------------------

  function SwapPairs(data: Bytes): (r: Bytes)
    requires Even(data)
    ensures |r| == |data|
  {
    if data == [] then [] else [data[1], data[0]] + SwapPairs(data[2..])
  }

  lemma {:induction false} SwapPairsWords(data: Bytes)
    requires Even(data)
    ensures Words(data, Little) == Words(SwapPairs(data), Big)
  {
    if data != [] {
      SwapPairsWords(data[2..]);
      assert SwapPairs(data)[2..] == SwapPairs(data[2..]);
    }
  }

  /** The little-endian sum is the big-endian sum of the byte-swapped image. */
  lemma LittleIsSwappedBig(data: Bytes)
    requires Even(data)
    ensures SumOf(data, Little) == SumOf(SwapPairs(data), Big)
  {
    SwapPairsWords(data);
  }

  function ByteSum(data: Bytes): nat {
    if data == [] then 0
    else
      var b: int := data[0];
      b + ByteSum(data[1..])
  }

  /** The two sums together count every byte 257 times. */
  lemma {:induction false} BothOrders(data: Bytes)
    requires Even(data)
    ensures Total(Words(data, Big)) + Total(Words(data, Little)) == 257 * ByteSum(data)
  {
    if data != [] {
      BothOrders(data[2..]);
      assert data[1..][1..] == data[2..];
      assert ByteSum(data) == data[0] as int + (data[1] as int + ByteSum(data[2..]));
    }
  }
}
