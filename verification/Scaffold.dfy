/** The table-driven scaffold cipher: sixteen rounds that amount to an XOR with one constant. */
module Scaffold {
  import opened Basics
  import opened Feistel
  import opened SeedKey

  const NUM_ROUNDS := 16
  const TABLE_BYTES := 32

  /** IndexKeyBase and KeyPartsTable. */
  datatype Tables = Tables(ikb: Wire, kpt: Wire) {
    predicate Valid() {
      |ikb| == TABLE_BYTES && |kpt| == TABLE_BYTES
    }
  }

  datatype TableError = BadIkb(got: nat) | BadKpt(got: nat)

  /** Building the tables checks both lengths, IndexKeyBase first. */
  function MakeTables(ikb: Wire, kpt: Wire): (r: Result<Tables, TableError>)
    ensures r.Ok? <==> Tables(ikb, kpt).Valid()
    ensures r.Ok? ==> r.value == Tables(ikb, kpt)
    ensures r.Err? ==> r.error == (if |ikb| != TABLE_BYTES then BadIkb(|ikb|) else BadKpt(|kpt|))
  {
    if |ikb| != TABLE_BYTES then Err(BadIkb(|ikb|))
    else if |kpt| != TABLE_BYTES then Err(BadKpt(|kpt|))
    else Ok(Tables(ikb, kpt))
  }

  function Pair16(hi: bv8, lo: bv8): Word {
    (Widen(hi) << 8) | Widen(lo)
  }

  /** `_rotr32`. */
  function Rotr(x: Word, n: Word): Word
    requires 0 < n < 32
  {
    (x >> n) | (x << (32 - n))
  }

  function Xor(a: Word, b: Word): Word {
    a ^ b
  }

  function Up16(v: Word): Word {
    v << 16
  }

  function Stack(hi: Word, lo: Word): Word {
    Xor(Up16(hi), lo)
  }

  /** What round `r` mixes in: IndexKeyBase above, KeyPartsTable below. */
  function RoundWord(t: Tables, r: nat): Word
    requires t.Valid() && r < NUM_ROUNDS
  {
    Stack(Pair16(t.ikb[2 * r], t.ikb[2 * r + 1]), Pair16(t.kpt[2 * r], t.kpt[2 * r + 1]))
  }

  /** The words of rounds `r .. 16`. */
  function RoundWords(t: Tables, r: nat): (ks: seq<Word>)
    requires t.Valid() && r <= NUM_ROUNDS
    ensures |ks| == NUM_ROUNDS - r
    decreases NUM_ROUNDS - r
  {
    if r == NUM_ROUNDS then [] else [RoundWord(t, r)] + RoundWords(t, r + 1)
  }

  function Step(s: Word, k: Word): Word {
    Rotr(Xor(s, k), 3)
  }

  function Run(s: Word, ks: seq<Word>): Word
    decreases |ks|
  {
    if ks == [] then s else Run(Step(s, ks[0]), ks[1..])
  }

  /** The cipher on 32-bit words. */
  function Cipher(s: Word, t: Tables): Word
    requires t.Valid()
  {
    WordSwap(Run(s, RoundWords(t, 0)))
  }

  /** `ssmcan1_encrypt`. */
  function Encrypt(seed: Wire, t: Tables): Result<Wire, Error>
    requires t.Valid()
  {
    if |seed| != 4 then Err(WrongLength(|seed|))
    else Ok(KeyOut(1, Cipher(SeedIn(1, seed), t)))
  }

  method EncryptLoop(seed: Wire, t: Tables) returns (r: Result<Wire, Error>)
    requires t.Valid()
    ensures r == Encrypt(seed, t)
  {
    hide Pair16, Rotr, Xor, Up16, WordSwap, SeedIn, KeyOut;
    if |seed| != 4 {
      return Err(WrongLength(|seed|));
    }
    var state := SeedIn(1, seed);
    for i := 0 to NUM_ROUNDS
      invariant Run(state, RoundWords(t, i)) == Run(SeedIn(1, seed), RoundWords(t, 0))
    {
      var hi := Pair16(t.ikb[2 * i], t.ikb[2 * i + 1]);
      var lo := Pair16(t.kpt[2 * i], t.kpt[2 * i + 1]);
      XorAssoc(state, Up16(hi), lo);
      state := Xor(state, Up16(hi));
      state := Xor(state, lo);
      state := Rotr(state, 3);
    }
    state := WordSwap(state);
    r := Ok(KeyOut(1, state));
  }

  // ------------------------------------------------------------------
  // Linearity
  // ------------------------------------------------------------------

  lemma XorZero(a: Word)
    ensures Xor(a, 0) == a && Xor(0, a) == a
  {
  }

  lemma XorAssoc(a: Word, b: Word, c: Word)
    ensures Xor(Xor(a, b), c) == Xor(a, Xor(b, c))
  {
  }

  lemma XorCommutes(a: Word, b: Word)
    ensures Xor(a, b) == Xor(b, a)
  {
  }

  lemma XorShuffle(s: Word, t: Word, k: Word, l: Word)
    ensures Xor(Xor(s, t), Xor(k, l)) == Xor(Xor(s, k), Xor(t, l))
  {
    hide Xor;
    XorAssoc(s, t, Xor(k, l));
    XorAssoc(t, k, l);
    XorCommutes(t, k);
    XorAssoc(k, t, l);
    XorAssoc(s, k, Xor(t, l));
  }

  lemma RotrLinear(x: Word, y: Word)
    ensures Rotr(Xor(x, y), 3) == Xor(Rotr(x, 3), Rotr(y, 3))
  {
  }

  lemma StepLinear(s: Word, t: Word, k: Word, l: Word)
    ensures Step(Xor(s, t), Xor(k, l)) == Xor(Step(s, k), Step(t, l))
  {
    hide Xor, Rotr;
    XorShuffle(s, t, k, l);
    RotrLinear(Xor(s, k), Xor(t, l));
  }

  lemma SwapLinear(s: Word, t: Word)
    ensures WordSwap(Xor(s, t)) == Xor(WordSwap(s), WordSwap(t))
  {
  }

  function XorAll(ks: seq<Word>, ls: seq<Word>): (r: seq<Word>)
    requires |ks| == |ls|
    ensures |r| == |ks|
    decreases |ks|
  {
    if ks == [] then [] else [Xor(ks[0], ls[0])] + XorAll(ks[1..], ls[1..])
  }

  lemma {:induction false} RunLinear(s: Word, t: Word, ks: seq<Word>, ls: seq<Word>)
    requires |ks| == |ls|
    ensures Run(Xor(s, t), XorAll(ks, ls)) == Xor(Run(s, ks), Run(t, ls))
    decreases |ks|
  {
    hide Xor, Step;
    if ks != [] {
      StepLinear(s, t, ks[0], ls[0]);
      assert XorAll(ks, ls)[1..] == XorAll(ks[1..], ls[1..]);
      RunLinear(Step(s, ks[0]), Step(t, ls[0]), ks[1..], ls[1..]);
    }
  }

  function Xor8(a: bv8, b: bv8): bv8 {
    a ^ b
  }

  function XorWire(v: Wire, w: Wire): (r: Wire)
    requires |v| == |w|
    ensures |r| == |v|
    ensures forall i :: 0 <= i < |v| ==> r[i] == Xor8(v[i], w[i])
  {
    seq(|v|, i requires 0 <= i < |v| => Xor8(v[i], w[i]))
  }

  function XorTables(t: Tables, u: Tables): (r: Tables)
    requires t.Valid() && u.Valid()
    ensures r.Valid()
  {
    Tables(XorWire(t.ikb, u.ikb), XorWire(t.kpt, u.kpt))
  }

  lemma PairLinear(a: bv8, b: bv8, c: bv8, d: bv8)
    ensures Pair16(Xor8(a, c), Xor8(b, d)) == Xor(Pair16(a, b), Pair16(c, d))
  {
  }

  lemma StackLinear(a: Word, b: Word, c: Word, d: Word)
    ensures Stack(Xor(a, c), Xor(b, d)) == Xor(Stack(a, b), Stack(c, d))
  {
    hide Xor, Up16;
    UpLinear(a, c);
    XorShuffle(Up16(a), Up16(c), b, d);
  }

  lemma UpLinear(a: Word, c: Word)
    ensures Up16(Xor(a, c)) == Xor(Up16(a), Up16(c))
  {
  }

  lemma RoundWordLinear(t: Tables, u: Tables, r: nat)
    requires t.Valid() && u.Valid() && r < NUM_ROUNDS
    ensures RoundWord(XorTables(t, u), r) == Xor(RoundWord(t, r), RoundWord(u, r))
  {
    hide Pair16, Xor, Xor8, Stack;
    PairLinear(t.ikb[2 * r], t.ikb[2 * r + 1], u.ikb[2 * r], u.ikb[2 * r + 1]);
    PairLinear(t.kpt[2 * r], t.kpt[2 * r + 1], u.kpt[2 * r], u.kpt[2 * r + 1]);
    StackLinear(Pair16(t.ikb[2 * r], t.ikb[2 * r + 1]), Pair16(t.kpt[2 * r], t.kpt[2 * r + 1]),
                Pair16(u.ikb[2 * r], u.ikb[2 * r + 1]), Pair16(u.kpt[2 * r], u.kpt[2 * r + 1]));
  }

  lemma {:induction false} RoundWordsLinear(t: Tables, u: Tables, r: nat)
    requires t.Valid() && u.Valid() && r <= NUM_ROUNDS
    ensures RoundWords(XorTables(t, u), r) == XorAll(RoundWords(t, r), RoundWords(u, r))
    decreases NUM_ROUNDS - r
  {
    hide RoundWord, Xor, XorTables;
    if r < NUM_ROUNDS {
      RoundWordsLinear(t, u, r + 1);
      RoundWordLinear(t, u, r);
    }
  }

  /** The cipher is linear in seed and tables together. */
  lemma CipherLinear(s: Word, t: Word, tt: Tables, uu: Tables)
    requires tt.Valid() && uu.Valid()
    ensures Cipher(Xor(s, t), XorTables(tt, uu)) == Xor(Cipher(s, tt), Cipher(t, uu))
  {
    hide Xor, Run, RoundWords, WordSwap, XorTables;
    RoundWordsLinear(tt, uu, 0);
    RunLinear(s, t, RoundWords(tt, 0), RoundWords(uu, 0));
    SwapLinear(Run(s, RoundWords(tt, 0)), Run(t, RoundWords(uu, 0)));
  }

  // ------------------------------------------------------------------
  // Zero tables do nothing
  // ------------------------------------------------------------------

  function Zeros(n: nat): (r: Wire)
    ensures |r| == n && forall i :: 0 <= i < n ==> r[i] == 0
  {
    seq(n, i => 0)
  }

  function ZeroTables(): (t: Tables)
    ensures t.Valid()
  {
    Tables(Zeros(TABLE_BYTES), Zeros(TABLE_BYTES))
  }

  /** `n` rotations by 3. */
  function Spin(s: Word, n: nat): Word
    decreases n
  {
    if n == 0 then s else Spin(Rotr(s, 3), n - 1)
  }

  lemma {:induction false} SpinAdd(s: Word, m: nat, n: nat)
    ensures Spin(s, m + n) == Spin(Spin(s, m), n)
    decreases m
  {
    hide Rotr;
    if m > 0 {
      SpinAdd(Rotr(s, 3), m - 1, n);
    }
  }

  lemma Turn3(s: Word)
    ensures Rotr(Rotr(s, 3), 3) == Rotr(s, 6)
  {
  }

  lemma Turn6(s: Word)
    ensures Rotr(Rotr(s, 6), 6) == Rotr(s, 12)
  {
  }

  lemma Turn12(s: Word)
    ensures Rotr(Rotr(s, 12), 12) == Rotr(s, 24)
  {
  }

  lemma Turn24(s: Word)
    ensures WordSwap(Rotr(Rotr(s, 24), 24)) == s
  {
  }

  lemma SpinTwo(s: Word)
    ensures Spin(s, 2) == Rotr(s, 6)
  {
    hide Rotr;
    SpinAdd(s, 1, 1);
    Turn3(s);
    assert Spin(s, 1) == Rotr(s, 3);
  }

  lemma SpinFour(s: Word)
    ensures Spin(s, 4) == Rotr(s, 12)
  {
    hide Rotr, Spin;
    SpinAdd(s, 2, 2);
    SpinTwo(s);
    SpinTwo(Rotr(s, 6));
    Turn6(s);
  }

  lemma SpinEight(s: Word)
    ensures Spin(s, 8) == Rotr(s, 24)
  {
    hide Rotr, Spin;
    SpinAdd(s, 4, 4);
    SpinFour(s);
    SpinFour(Rotr(s, 12));
    Turn12(s);
  }

  /** Sixteen rotations by 3 turn a word by 48 bits, which the half swap undoes. */
  lemma SpinSixteen(s: Word)
    ensures WordSwap(Spin(s, NUM_ROUNDS)) == s
  {
    hide Rotr, WordSwap, Spin;
    SpinAdd(s, 8, 8);
    SpinEight(s);
    SpinEight(Rotr(s, 24));
    Turn24(s);
  }

  function ZeroWords(n: nat): (r: seq<Word>)
    ensures |r| == n
  {
    if n == 0 then [] else [0] + ZeroWords(n - 1)
  }

  lemma ZeroRoundWord(t: Tables, r: nat)
    requires t.Valid() && r < NUM_ROUNDS
    requires t.ikb[2 * r] == t.ikb[2 * r + 1] == t.kpt[2 * r] == t.kpt[2 * r + 1] == 0
    ensures RoundWord(t, r) == 0
  {
  }

  lemma {:induction false} ZeroRoundWords(r: nat)
    requires r <= NUM_ROUNDS
    ensures RoundWords(ZeroTables(), r) == ZeroWords(NUM_ROUNDS - r)
    decreases NUM_ROUNDS - r
  {
    hide RoundWord;
    if r < NUM_ROUNDS {
      ZeroRoundWords(r + 1);
      ZeroRoundWord(ZeroTables(), r);
    }
  }

  lemma ZeroStep(s: Word)
    ensures Step(s, 0) == Rotr(s, 3)
  {
  }

  lemma {:induction false} RunZeros(s: Word, n: nat)
    ensures Run(s, ZeroWords(n)) == Spin(s, n)
    decreases n
  {
    hide Step, Rotr;
    if n > 0 {
      ZeroStep(s);
      assert ZeroWords(n)[1..] == ZeroWords(n - 1);
      RunZeros(Rotr(s, 3), n - 1);
    }
  }

  /** With zero tables the rounds and the final swap cancel. */
  lemma ZeroTablesIdentity(s: Word)
    ensures Cipher(s, ZeroTables()) == s
  {
    hide RoundWords, WordSwap, Run, Spin;
    ZeroRoundWords(0);
    RunZeros(s, NUM_ROUNDS);
    SpinSixteen(s);
  }

  lemma XorZeroTables(t: Tables)
    requires t.Valid()
    ensures XorTables(ZeroTables(), t) == t
  {
    hide Xor8;
    forall i | 0 <= i < TABLE_BYTES
      ensures XorWire(Zeros(TABLE_BYTES), t.ikb)[i] == t.ikb[i]
      ensures XorWire(Zeros(TABLE_BYTES), t.kpt)[i] == t.kpt[i]
    {
      XorZeroByte(t.ikb[i]);
      XorZeroByte(t.kpt[i]);
    }
    assert XorWire(Zeros(TABLE_BYTES), t.ikb) == t.ikb;
    assert XorWire(Zeros(TABLE_BYTES), t.kpt) == t.kpt;
  }

  lemma XorZeroByte(b: bv8)
    ensures Xor8(0, b) == b
  {
  }

  /** The whole cipher is an XOR with what it makes of the zero seed. */
  lemma CipherIsOffset(s: Word, t: Tables)
    requires t.Valid()
    ensures Cipher(s, t) == Xor(s, Cipher(0, t))
  {
    hide Xor, Cipher, XorTables, ZeroTables;
    CipherLinear(s, 0, ZeroTables(), t);
    XorZero(s);
    XorZeroTables(t);
    ZeroTablesIdentity(s);
  }

  // ------------------------------------------------------------------
  // The offset in closed form
  // ------------------------------------------------------------------

  /** `n` rotations to the left by 3. */
  function Unspin(w: Word, n: nat): Word
    decreases n
  {
    if n == 0 then w else Rotr(Unspin(w, n - 1), 29)
  }

  lemma TurnBack(w: Word)
    ensures Rotr(Rotr(w, 29), 3) == w
  {
  }

  lemma {:induction false} SpinUnspin(w: Word, n: nat)
    ensures Spin(Unspin(w, n), n) == w
    decreases n
  {
    hide Rotr;
    if n > 0 {
      TurnBack(Unspin(w, n - 1));
      SpinUnspin(w, n - 1);
    }
  }

  /** What is left of the rotations after round `r`, and the swap, turn a word left `r` times. */
  lemma RestOfRounds(w: Word, r: nat)
    requires r <= NUM_ROUNDS
    ensures WordSwap(Spin(w, NUM_ROUNDS - r)) == Unspin(w, r)
  {
    hide Rotr, WordSwap, Spin, Unspin;
    SpinUnspin(w, r);
    SpinAdd(Unspin(w, r), r, NUM_ROUNDS - r);
    SpinSixteen(Unspin(w, r));
  }

  lemma {:induction false} SpinLinear(x: Word, y: Word, n: nat)
    ensures Spin(Xor(x, y), n) == Xor(Spin(x, n), Spin(y, n))
    decreases n
  {
    hide Rotr, Xor;
    if n > 0 {
      RotrLinear(x, y);
      SpinLinear(Rotr(x, 3), Rotr(y, 3), n - 1);
    }
  }

  /** The words of rounds `r .. 16`, each turned left by three times its round number. */
  function OffsetFrom(t: Tables, r: nat): Word
    requires t.Valid() && r <= NUM_ROUNDS
    decreases NUM_ROUNDS - r
  {
    if r == NUM_ROUNDS then 0 else Xor(Unspin(RoundWord(t, r), r), OffsetFrom(t, r + 1))
  }

  lemma {:induction false} RunFrom(s: Word, t: Tables, r: nat)
    requires t.Valid() && r <= NUM_ROUNDS
    ensures WordSwap(Run(s, RoundWords(t, r))) == Xor(WordSwap(Spin(s, NUM_ROUNDS - r)), OffsetFrom(t, r))
    decreases NUM_ROUNDS - r
  {
    hide Rotr, Xor, WordSwap, RoundWord, Unspin;
    if r == NUM_ROUNDS {
      XorZero(WordSwap(s));
    } else {
      var k := RoundWord(t, r);
      var turned, word := WordSwap(Spin(s, NUM_ROUNDS - r)), Unspin(k, r);
      assert RoundWords(t, r)[1..] == RoundWords(t, r + 1);
      RunFrom(Step(s, k), t, r + 1);
      SpinLinear(s, k, NUM_ROUNDS - r);
      SwapLinear(Spin(s, NUM_ROUNDS - r), Spin(k, NUM_ROUNDS - r));
      RestOfRounds(k, r);
      XorAssoc(turned, word, OffsetFrom(t, r + 1));
    }
  }

  /** The cipher in one line: the seed XOR every round word turned left by three times its round. */
  lemma ClosedForm(s: Word, t: Tables)
    requires t.Valid()
    ensures Cipher(s, t) == Xor(s, OffsetFrom(t, 0))
  {
    hide Rotr, Xor, WordSwap, OffsetFrom, Run, Spin;
    RunFrom(s, t, 0);
    SpinSixteen(s);
  }

  // ------------------------------------------------------------------
  // On the wire
  // ------------------------------------------------------------------

  lemma OctetXor0(a: Word, b: Word)
    ensures Octet(Xor(a, b), 0) == Xor(Octet(a, 0), Octet(b, 0))
  {
  }

  lemma OctetXor8(a: Word, b: Word)
    ensures Octet(Xor(a, b), 8) == Xor(Octet(a, 8), Octet(b, 8))
  {
  }

  lemma OctetXor16(a: Word, b: Word)
    ensures Octet(Xor(a, b), 16) == Xor(Octet(a, 16), Octet(b, 16))
  {
  }

  lemma OctetXor24(a: Word, b: Word)
    ensures Octet(Xor(a, b), 24) == Xor(Octet(a, 24), Octet(b, 24))
  {
  }

  lemma Narrow(a: Word, b: Word)
    requires a < 256 && b < 256
    ensures Xor(a, b) < 256 && Xor(a, b) as bv8 == Xor8(a as bv8, b as bv8)
  {
  }

  lemma ByteXor(a: Word, b: Word, shift: Word)
    requires shift <= 24 && Octet(Xor(a, b), shift) == Xor(Octet(a, shift), Octet(b, shift))
    ensures ByteOf(Xor(a, b), shift) == Xor8(ByteOf(a, shift), ByteOf(b, shift))
  {
    hide Octet, Xor, Xor8;
    Narrow(Octet(a, shift), Octet(b, shift));
  }

  lemma WireXor(a: Word, b: Word)
    ensures KeyOut(1, Xor(a, b)) == XorWire(KeyOut(1, a), KeyOut(1, b))
  {
    hide ByteOf, Octet, Xor, Xor8;
    OctetXor24(a, b);
    ByteXor(a, b, 24);
    OctetXor16(a, b);
    ByteXor(a, b, 16);
    OctetXor8(a, b);
    ByteXor(a, b, 8);
    OctetXor0(a, b);
    ByteXor(a, b, 0);
  }

  const ZERO_SEED: Wire := [0, 0, 0, 0]

  lemma ZeroSeed()
    ensures SeedIn(1, ZERO_SEED) == 0
  {
  }

  /** `encrypt(s, T) == s XOR encrypt(0, T)`, byte for byte; and `encrypt(s, 0) == s`. */
  lemma EncryptIsOffset(seed: Wire, t: Tables)
    requires t.Valid() && |seed| == 4
    ensures Encrypt(ZERO_SEED, t).Ok? && |Encrypt(ZERO_SEED, t).value| == 4
    ensures Encrypt(seed, t) == Ok(XorWire(seed, Encrypt(ZERO_SEED, t).value))
    ensures Encrypt(seed, ZeroTables()) == Ok(seed)
  {
    hide Cipher, SeedIn, KeyOut, Xor, ZeroTables, XorWire;
    var s := SeedIn(1, seed);
    SeedWire(seed);
    ZeroSeed();
    CipherIsOffset(s, t);
    WireXor(s, Cipher(0, t));
    ZeroTablesIdentity(s);
  }

  lemma SeedWire(w: Wire)
    requires |w| == 4
    ensures KeyOut(1, SeedIn(1, w)) == w
  {
    hide Pack, ByteOf;
    PackBytes(w[0], w[1], w[2], w[3]);
  }

  /** Two table sets that agree on one seed agree on every seed. */
  lemma AgreeOnOneAgreeOnAll(t: Tables, u: Tables, seed: Wire, other: Wire)
    requires t.Valid() && u.Valid() && |seed| == 4 && Encrypt(seed, t) == Encrypt(seed, u)
    ensures Encrypt(other, t) == Encrypt(other, u)
  {
    hide Cipher, SeedIn, KeyOut, ZeroTables;
    if |other| == 4 {
      EncryptIsOffset(seed, t);
      EncryptIsOffset(seed, u);
      EncryptIsOffset(other, t);
      EncryptIsOffset(other, u);
      XorWireInjective(seed, Encrypt(ZERO_SEED, t).value, Encrypt(ZERO_SEED, u).value);
    }
  }

  lemma XorWireInjective(w: Wire, a: Wire, b: Wire)
    requires |w| == |a| == |b| && XorWire(w, a) == XorWire(w, b)
    ensures a == b
  {
    hide Xor8;
    forall i | 0 <= i < |a|
      ensures a[i] == b[i]
    {
      assert XorWire(w, a)[i] == XorWire(w, b)[i];
      XorCancel(w[i], a[i], b[i]);
    }
  }

  lemma XorCancel(w: bv8, a: bv8, b: bv8)
    requires Xor8(w, a) == Xor8(w, b)
    ensures a == b
  {
    assert a == w ^ (w ^ a);
    assert b == w ^ (w ^ b);
  }

  // ------------------------------------------------------------------
  // Every offset occurs
  // ------------------------------------------------------------------

  /** Only the last round's entries are set. */
  function LastRoundTables(k: Word): (t: Tables)
    ensures t.Valid()
  {
    Tables(Zeros(TABLE_BYTES - 2) + [ByteOf(k, 24), ByteOf(k, 16)],
           Zeros(TABLE_BYTES - 2) + [ByteOf(k, 8), ByteOf(k, 0)])
  }

  lemma LastRoundWord(k: Word)
    ensures RoundWord(LastRoundTables(k), NUM_ROUNDS - 1) == k
  {
    hide ByteOf, Octet, Widen;
    WidenByte(k, 24);
    WidenByte(k, 16);
    WidenByte(k, 8);
    WidenByte(k, 0);
    PairsMakeWord(k);
  }

  lemma PairsMakeWord(k: Word)
    ensures (((Octet(k, 24) << 8) | Octet(k, 16)) << 16) ^ ((Octet(k, 8) << 8) | Octet(k, 0)) == k
  {
  }

  lemma {:induction false} RunLastRound(k: Word, r: nat)
    requires r < NUM_ROUNDS
    ensures Run(0, RoundWords(LastRoundTables(k), r)) == Rotr(k, 3)
    decreases NUM_ROUNDS - r
  {
    hide RoundWord, Step, Rotr;
    var t := LastRoundTables(k);
    assert RoundWords(t, r)[1..] == RoundWords(t, r + 1);
    if r == NUM_ROUNDS - 1 {
      LastRoundWord(k);
      StepFromZero(k);
    } else {
      ZeroRoundWord(t, r);
      StepFromZero(0);
      RunLastRound(k, r + 1);
    }
  }

  lemma StepFromZero(k: Word)
    ensures Step(0, k) == Rotr(k, 3)
    ensures Step(0, 0) == 0
  {
  }

  lemma UnrotateSwap(c: Word)
    ensures WordSwap(Rotr(Rotr(WordSwap(c), 29), 3)) == c
  {
  }

  /** The tables that make the cipher an XOR with `c`. */
  function TablesFor(c: Word): (t: Tables)
    ensures t.Valid()
  {
    LastRoundTables(Rotr(WordSwap(c), 29))
  }

  /** The table sets realise exactly the 2^32 XOR-by-a-constant functions. */
  lemma EveryOffset(c: Word, s: Word)
    ensures MakeTables(TablesFor(c).ikb, TablesFor(c).kpt) == Ok(TablesFor(c))
    ensures Cipher(s, TablesFor(c)) == Xor(s, c)
  {
    hide Xor, Run, RoundWords, LastRoundTables, Rotr, WordSwap;
    CipherIsOffset(s, TablesFor(c));
    RunLastRound(Rotr(WordSwap(c), 29), 0);
    UnrotateSwap(c);
  }
}
