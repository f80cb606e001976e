/** The 16-round Feistel network of the SecurityAccess key arithmetic and its inverse. */
module Feistel {

  type Word = bv32

  /** `GEN_A_SBOX`. */
  const SBOX: seq<Word> := [
    0x05, 0x06, 0x07, 0x01, 0x09, 0x0c, 0x0d, 0x08,
    0x0a, 0x0d, 0x02, 0x0b, 0x0f, 0x04, 0x00, 0x03,
    0x0b, 0x04, 0x06, 0x00, 0x0f, 0x02, 0x0d, 0x09,
    0x05, 0x0c, 0x01, 0x0a, 0x03, 0x0d, 0x0e, 0x08
  ]

  /** One table lookup: the index is below 32 and the entry fits four bits. */
  function Lookup(i: Word): (r: Word)
    requires i < 32
    ensures r < 16
  {
    assert (i as int) < 32;
    SBOX[i as int]
  }

  lemma At(i: Word, n: nat)
    requires i < 32 && i as int == n
    ensures n < 32 && Lookup(i) == SBOX[n]
  {
  }

  lemma Entries0()
    ensures Lookup(0) == 0x5 && Lookup(1) == 0x6 && Lookup(2) == 0x7 && Lookup(3) == 0x1
  {
    hide Lookup;
    At(0, 0);
    At(1, 1);
    At(2, 2);
    At(3, 3);
  }

  lemma Entries1()
    ensures Lookup(4) == 0x9 && Lookup(5) == 0xc && Lookup(6) == 0xd && Lookup(7) == 0x8
  {
    hide Lookup;
    At(4, 4);
    At(5, 5);
    At(6, 6);
    At(7, 7);
  }

  lemma Entries2()
    ensures Lookup(8) == 0xa && Lookup(9) == 0xd && Lookup(10) == 0x2 && Lookup(11) == 0xb
  {
    hide Lookup;
    At(8, 8);
    At(9, 9);
    At(10, 10);
    At(11, 11);
  }

  lemma Entries3()
    ensures Lookup(12) == 0xf && Lookup(13) == 0x4 && Lookup(14) == 0x0 && Lookup(15) == 0x3
  {
    hide Lookup;
    At(12, 12);
    At(13, 13);
    At(14, 14);
    At(15, 15);
  }

  lemma Entries4()
    ensures Lookup(16) == 0xb && Lookup(17) == 0x4 && Lookup(18) == 0x6 && Lookup(19) == 0x0
  {
    hide Lookup;
    At(16, 16);
    At(17, 17);
    At(18, 18);
    At(19, 19);
  }

  lemma Entries5()
    ensures Lookup(20) == 0xf && Lookup(21) == 0x2 && Lookup(22) == 0xd && Lookup(23) == 0x9
  {
    hide Lookup;
    At(20, 20);
    At(21, 21);
    At(22, 22);
    At(23, 23);
  }

  lemma Entries6()
    ensures Lookup(24) == 0x5 && Lookup(25) == 0xc && Lookup(26) == 0x1 && Lookup(27) == 0xa
  {
    hide Lookup;
    At(24, 24);
    At(25, 25);
    At(26, 26);
    At(27, 27);
  }

  lemma Entries7()
    ensures Lookup(28) == 0x3 && Lookup(29) == 0xd && Lookup(30) == 0xe && Lookup(31) == 0x8
  {
    hide Lookup;
    At(28, 28);
    At(29, 29);
    At(30, 30);
    At(31, 31);
  }

  /** The table, entry by entry. */
  lemma Entries()
    ensures Lookup(0) == 0x5 && Lookup(1) == 0x6 && Lookup(2) == 0x7 && Lookup(3) == 0x1
    ensures Lookup(4) == 0x9 && Lookup(5) == 0xc && Lookup(6) == 0xd && Lookup(7) == 0x8
    ensures Lookup(8) == 0xa && Lookup(9) == 0xd && Lookup(10) == 0x2 && Lookup(11) == 0xb
    ensures Lookup(12) == 0xf && Lookup(13) == 0x4 && Lookup(14) == 0x0 && Lookup(15) == 0x3
    ensures Lookup(16) == 0xb && Lookup(17) == 0x4 && Lookup(18) == 0x6 && Lookup(19) == 0x0
    ensures Lookup(20) == 0xf && Lookup(21) == 0x2 && Lookup(22) == 0xd && Lookup(23) == 0x9
    ensures Lookup(24) == 0x5 && Lookup(25) == 0xc && Lookup(26) == 0x1 && Lookup(27) == 0xa
    ensures Lookup(28) == 0x3 && Lookup(29) == 0xd && Lookup(30) == 0xe && Lookup(31) == 0x8
  {
    Entries0();
    Entries1();
    Entries2();
    Entries3();
    Entries4();
    Entries5();
    Entries6();
    Entries7();
    hide Lookup;
  }

  /** `_gen_a_rol16`. */
  function Rol16(v: Word, n: Word): (r: Word)
    requires 0 < n < 16
    ensures r < 0x1_0000
  {
    var w := v & 0xFFFF;
    ((w << n) | (w >> (16 - n))) & 0xFFFF
  }

  /** `gen_a_F`: the four indices overlap, and bit 0 becomes bit 4 of the top one. */
  function F(half: Word, k: Word): (r: Word)
    ensures r < 0x1_0000
  {
    var x := (half ^ k) & 0xFFFF;
    var i3 := ((x & 0x0001) << 4) | (x >> 12);
    var i2 := (x >> 8) & 0x1F;
    var i1 := (x >> 4) & 0x1F;
    var i0 := x & 0x1F;
    var y := (Lookup(i3) << 12) | (Lookup(i2) << 8) | (Lookup(i1) << 4) | Lookup(i0);
    Rol16(y, 13)
  }

  /** The values the repository's tests pin; equal halves and keys always cancel to the first. */
  lemma KnownValues(k: Word)
    ensures F(0x0000, 0xFFFF) == 0x1111
    ensures F(0x1234, 0x5678) == 0xF333
    ensures F(k, k) == 0xAAAA
  {
  }

  function Low(s: Word): Word {
    s & 0xFFFF
  }

  function High(s: Word): Word {
    (s >> 16) & 0xFFFF
  }

  function Join(high: Word, low: Word): Word {
    (high << 16) | low
  }

  function Mix(half: Word, f: Word): Word {
    (half ^ f) & 0xFFFF
  }

  function Round(s: Word, k: Word): Word {
    Join(Low(s), Mix(High(s), F(Low(s), k)))
  }

  function Unround(s: Word, k: Word): Word {
    Join(Mix(Low(s), F(High(s), k)), High(s))
  }

  /** All rounds, first key first. */
  function Forward(s: Word, rk: seq<Word>): Word
    decreases |rk|
  {
    if rk == [] then s else Forward(Round(s, rk[0]), rk[1..])
  }

  /** All rounds undone, last key first. */
  function Inverse(s: Word, rk: seq<Word>): Word
    decreases |rk|
  {
    if rk == [] then s else Inverse(Unround(s, rk[|rk| - 1]), rk[..|rk| - 1])
  }

  /** `gen_a_feistel_forward`. */
  method FeistelForward(state: Word, rk: seq<Word>) returns (s: Word)
    ensures s == Forward(state, rk)
  {
    hide F;
    s := state & 0xFFFF_FFFF;
    for i := 0 to |rk|
      invariant Forward(s, rk[i..]) == Forward(state, rk)
    {
      var k := rk[i];
      var low := s & 0xFFFF;
      var high := (s >> 16) & 0xFFFF;
      var newLow := (high ^ F(low, k)) & 0xFFFF;
      var newHigh := low;
      assert rk[i..][1..] == rk[i + 1..];
      s := ((newHigh << 16) | newLow) & 0xFFFF_FFFF;
    }
  }

  /** `gen_a_feistel_inverse`. */
  method FeistelInverse(state: Word, rk: seq<Word>) returns (s: Word)
    ensures s == Inverse(state, rk)
  {
    hide F;
    s := state & 0xFFFF_FFFF;
    assert rk[..|rk|] == rk;
    for i := |rk| downto 0
      invariant Inverse(s, rk[..i]) == Inverse(state, rk)
    {
      var k := rk[i];
      var lowNew := s & 0xFFFF;
      var highNew := (s >> 16) & 0xFFFF;
      var lowOld := highNew;
      var highOld := (lowNew ^ F(lowOld, k)) & 0xFFFF;
      assert rk[..i + 1][..i] == rk[..i];
      s := ((highOld << 16) | lowOld) & 0xFFFF_FFFF;
    }
  }

  lemma Undo(s: Word, f: Word)
    requires f < 0x1_0000
    ensures var t := Join(Low(s), Mix(High(s), f));
      High(t) == Low(s) && Join(Mix(Low(t), f), High(t)) == s
  {
  }

  lemma Redo(s: Word, f: Word)
    requires f < 0x1_0000
    ensures var t := Join(Mix(Low(s), f), High(s));
      Low(t) == High(s) && Join(Low(t), Mix(High(t), f)) == s
  {
  }

  lemma RoundInverse(s: Word, k: Word)
    ensures Unround(Round(s, k), k) == s
    ensures Round(Unround(s, k), k) == s
  {
    hide F, High, Low, Join, Mix;
    Undo(s, F(Low(s), k));
    Redo(s, F(High(s), k));
  }

  lemma {:induction false} ForwardSnoc(s: Word, rk: seq<Word>, k: Word)
    ensures Forward(s, rk + [k]) == Round(Forward(s, rk), k)
    decreases |rk|
  {
    hide Round;
    if rk == [] {
      assert [] + [k] == [k];
    } else {
      ForwardSnoc(Round(s, rk[0]), rk[1..], k);
      assert (rk + [k])[1..] == rk[1..] + [k];
    }
  }

  /** Undoing the rounds gives the state back ... */
  lemma {:induction false} InverseForward(s: Word, rk: seq<Word>)
    ensures Inverse(Forward(s, rk), rk) == s
    decreases |rk|
  {
    hide Round, Unround;
    if rk != [] {
      var front, k := rk[..|rk| - 1], rk[|rk| - 1];
      assert rk == front + [k];
      ForwardSnoc(s, front, k);
      RoundInverse(Forward(s, front), k);
      InverseForward(s, front);
    }
  }

  /** ... and so does doing them after undoing them. */
  lemma {:induction false} ForwardInverse(s: Word, rk: seq<Word>)
    ensures Forward(Inverse(s, rk), rk) == s
    decreases |rk|
  {
    hide Round, Unround;
    if rk != [] {
      var front, k := rk[..|rk| - 1], rk[|rk| - 1];
      assert rk == front + [k];
      ForwardSnoc(Inverse(s, rk), front, k);
      ForwardInverse(Unround(s, k), front);
      RoundInverse(s, k);
    }
  }

  /** `_gen_a_wordswap32`. */
  function WordSwap(v: Word): Word {
    (v >> 16) | ((v & 0xFFFF) << 16)
  }

  lemma SwapTwice(v: Word)
    ensures WordSwap(WordSwap(v)) == v
  {
  }

  function Reversed(rk: seq<Word>): seq<Word>
    decreases |rk|
  {
    if rk == [] then [] else [rk[|rk| - 1]] + Reversed(rk[..|rk| - 1])
  }

  lemma SwapOut(s: Word, f: Word)
    ensures Low(WordSwap(s)) == High(s)
    ensures WordSwap(Join(Mix(Low(s), f), High(s))) == Join(High(s), Mix(High(WordSwap(s)), f))
  {
  }

  lemma SwappedRound(s: Word, k: Word)
    ensures WordSwap(Unround(s, k)) == Round(WordSwap(s), k)
  {
    hide F, High, Low, Join, Mix, WordSwap;
    SwapOut(s, F(High(s), k));
  }

  /** One network serves both ways: swap the halves and reverse the round keys. */
  lemma {:induction false} InverseIsSwappedForward(s: Word, rk: seq<Word>)
    ensures Inverse(s, rk) == WordSwap(Forward(WordSwap(s), Reversed(rk)))
    decreases |rk|
  {
    hide Round, Unround, WordSwap;
    if rk == [] {
      SwapTwice(s);
    } else {
      var front, k := rk[..|rk| - 1], rk[|rk| - 1];
      InverseIsSwappedForward(Unround(s, k), front);
      SwappedRound(s, k);
      assert ([k] + Reversed(front))[1..] == Reversed(front);
    }
  }
}
