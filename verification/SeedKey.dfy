/** Seed to key and back at the three SecurityAccess levels: byte shuffles around the Feistel network. */
module SeedKey {
  import opened Basics
  import opened Feistel

  type Wire = seq<bv8>

  const RK_L1: seq<Word> := [
    0x78b1, 0x4625, 0x201c, 0x9ea5,
    0xad6b, 0x35f4, 0xfd21, 0x5e71,
    0xb046, 0x7f4a, 0x4b75, 0x93f9,
    0x1895, 0x8961, 0x3ecc, 0x862b
  ]

  const RK_L35: seq<Word> := [
    0x794b, 0x3caf, 0x3019, 0x8b57,
    0x52a0, 0xa77c, 0x38c9, 0xb0b5,
    0x6520, 0x3b66, 0xa09d, 0x2877,
    0x479f, 0xb685, 0x7568, 0x84d7
  ]

  datatype Error = WrongLength(got: nat) | UnsupportedLevel(level: int)

  predicate Supported(level: int) {
    level == 1 || level == 3 || level == 5
  }

  /** `_stock_rk_for_level`. */
  function RoundKeys(level: int): seq<Word>
    requires Supported(level)
  {
    if level == 1 then RK_L1 else RK_L35
  }

  function Widen(b: bv8): Word {
    b as Word
  }

  function Combine(a: Word, b: Word, c: Word, d: Word): Word {
    (a << 24) | (b << 16) | (c << 8) | d
  }

  /** Four bytes, most significant first. */
  function Pack(b0: bv8, b1: bv8, b2: bv8, b3: bv8): Word {
    Combine(Widen(b0), Widen(b1), Widen(b2), Widen(b3))
  }

  function Octet(s: Word, shift: Word): (r: Word)
    requires shift <= 24
    ensures r < 256
  {
    (s >> shift) & 0xFF
  }

  function ByteOf(s: Word, shift: Word): bv8
    requires shift <= 24
  {
    Octet(s, shift) as bv8
  }

  /** The wire bytes of a seed, arranged as the ECU holds them. */
  function SeedIn(level: int, w: Wire): Word
    requires Supported(level) && |w| == 4
  {
    if level == 1 then Pack(w[0], w[1], w[2], w[3])
    else if level == 3 then
      var (s1, s2, s0, s3) := (w[0], w[1], w[2], w[3]);
      Pack(s0, s1, s2, s3)
    else
      var (s3, s1, s0, s2) := (w[0], w[1], w[2], w[3]);
      Pack(s0, s1, s2, s3)
  }

  /** The key state as it goes on the wire. */
  function KeyOut(level: int, s: Word): (w: Wire)
    requires Supported(level)
    ensures |w| == 4
  {
    var (k0, k1, k2, k3) := (ByteOf(s, 24), ByteOf(s, 16), ByteOf(s, 8), ByteOf(s, 0));
    if level == 1 then [k0, k1, k2, k3]
    else if level == 3 then [k3, k1, k2, k0]
    else [k2, k0, k3, k1]
  }

  /** The key shuffle run backwards. */
  function KeyIn(level: int, w: Wire): Word
    requires Supported(level) && |w| == 4
  {
    if level == 1 then Pack(w[0], w[1], w[2], w[3])
    else if level == 3 then
      var (k3, k1, k2, k0) := (w[0], w[1], w[2], w[3]);
      Pack(k0, k1, k2, k3)
    else
      var (k2, k0, k3, k1) := (w[0], w[1], w[2], w[3]);
      Pack(k0, k1, k2, k3)
  }

  /** The seed shuffle run backwards. */
  function SeedOut(level: int, s: Word): (w: Wire)
    requires Supported(level)
    ensures |w| == 4
  {
    var (s0, s1, s2, s3) := (ByteOf(s, 24), ByteOf(s, 16), ByteOf(s, 8), ByteOf(s, 0));
    if level == 1 then [s0, s1, s2, s3]
    else if level == 3 then [s1, s2, s0, s3]
    else [s3, s1, s0, s2]
  }

  /** `gen_a_seed_to_key`; the length is checked before the level. */
  function SeedToKey(seed: Wire, level: int): Result<Wire, Error> {
    if |seed| != 4 then Err(WrongLength(|seed|))
    else if !Supported(level) then Err(UnsupportedLevel(level))
    else Ok(KeyOut(level, Inverse(WordSwap(SeedIn(level, seed)), RoundKeys(level))))
  }

  /** `gen_a_key_to_seed`. */
  function KeyToSeed(key: Wire, level: int): Result<Wire, Error> {
    if |key| != 4 then Err(WrongLength(|key|))
    else if !Supported(level) then Err(UnsupportedLevel(level))
    else Ok(SeedOut(level, WordSwap(Forward(KeyIn(level, key), RoundKeys(level)))))
  }

  lemma PackBytes(b0: bv8, b1: bv8, b2: bv8, b3: bv8)
    ensures var s := Pack(b0, b1, b2, b3);
      ByteOf(s, 24) == b0 && ByteOf(s, 16) == b1 && ByteOf(s, 8) == b2 && ByteOf(s, 0) == b3
  {
  }

  lemma WidenByte(s: Word, shift: Word)
    requires shift <= 24
    ensures Widen(ByteOf(s, shift)) == Octet(s, shift)
  {
  }

  lemma CombineOctets(s: Word)
    ensures Combine(Octet(s, 24), Octet(s, 16), Octet(s, 8), Octet(s, 0)) == s
  {
  }

  lemma BytesPack(s: Word)
    ensures Pack(ByteOf(s, 24), ByteOf(s, 16), ByteOf(s, 8), ByteOf(s, 0)) == s
  {
    hide ByteOf, Octet, Widen, Combine;
    WidenByte(s, 24);
    WidenByte(s, 16);
    WidenByte(s, 8);
    WidenByte(s, 0);
    CombineOctets(s);
  }

  lemma SeedShuffle(level: int, w: Wire, s: Word)
    requires Supported(level) && |w| == 4
    ensures SeedOut(level, SeedIn(level, w)) == w && SeedIn(level, SeedOut(level, s)) == s
  {
    hide Pack, ByteOf;
    BytesPack(s);
    if level == 1 {
      PackBytes(w[0], w[1], w[2], w[3]);
    } else if level == 3 {
      PackBytes(w[2], w[0], w[1], w[3]);
    } else {
      PackBytes(w[2], w[1], w[3], w[0]);
    }
  }

  lemma KeyShuffle(level: int, w: Wire, s: Word)
    requires Supported(level) && |w| == 4
    ensures KeyOut(level, KeyIn(level, w)) == w && KeyIn(level, KeyOut(level, s)) == s
  {
    hide Pack, ByteOf;
    BytesPack(s);
    if level == 1 {
      PackBytes(w[0], w[1], w[2], w[3]);
    } else if level == 3 {
      PackBytes(w[3], w[1], w[2], w[0]);
    } else {
      PackBytes(w[1], w[3], w[0], w[2]);
    }
  }

  /** At every supported level the two functions are inverse to each other on all four-byte values. */
  lemma SeedKeyRoundTrip(w: Wire, level: int)
    requires |w| == 4 && Supported(level)
    ensures SeedToKey(w, level).Ok? && KeyToSeed(SeedToKey(w, level).value, level) == Ok(w)
    ensures KeyToSeed(w, level).Ok? && SeedToKey(KeyToSeed(w, level).value, level) == Ok(w)
  {
    hide Inverse, Forward, WordSwap, SeedIn, KeyIn, SeedOut, KeyOut;
    var rk := RoundKeys(level);
    var packed, state := SeedIn(level, w), Inverse(WordSwap(SeedIn(level, w)), rk);
    KeyShuffle(level, w, state);
    ForwardInverse(WordSwap(packed), rk);
    SwapTwice(packed);
    var internal, post := KeyIn(level, w), Forward(KeyIn(level, w), rk);
    SeedShuffle(level, w, WordSwap(post));
    SwapTwice(post);
    InverseForward(internal, rk);
  }

  /**
   `k` is the key of `s` exactly when `s` is the seed of `k`, for inputs of every length and every
   level; on an input neither accepts the two fail alike, and they accept four bytes at levels 1, 3, 5.
   */
  lemma MutuallyInverse(s: Wire, k: Wire, level: int)
    ensures SeedToKey(s, level) == Ok(k) <==> KeyToSeed(k, level) == Ok(s)
    ensures SeedToKey(s, level).Ok? <==> |s| == 4 && level in {1, 3, 5}
    ensures SeedToKey(s, level).Err? ==> KeyToSeed(s, level) == SeedToKey(s, level)
  {
    OutputLength(s, level);
    OutputLength(k, level);
    hide *;
    if |s| == 4 && Supported(level) {
      SeedKeyRoundTrip(s, level);
    }
    if |k| == 4 && Supported(level) {
      SeedKeyRoundTrip(k, level);
    }
  }

  lemma OutputLength(w: Wire, level: int)
    ensures Supported(level) <==> level in {1, 3, 5}
    ensures SeedToKey(w, level).Ok? == KeyToSeed(w, level).Ok? == (|w| == 4 && Supported(level))
    ensures SeedToKey(w, level).Ok? ==> |SeedToKey(w, level).value| == |KeyToSeed(w, level).value| == 4
    ensures SeedToKey(w, level).Err? ==> KeyToSeed(w, level) == SeedToKey(w, level)
  {
    hide Inverse, Forward, WordSwap, SeedIn, KeyIn, SeedOut, KeyOut;
  }

  /** Different seeds have different keys. */
  lemma SeedToKeyInjective(v: Wire, w: Wire, level: int)
    requires |v| == |w| == 4 && Supported(level) && SeedToKey(v, level) == SeedToKey(w, level)
    ensures v == w
  {
    hide SeedToKey, KeyToSeed;
    SeedKeyRoundTrip(v, level);
    SeedKeyRoundTrip(w, level);
  }

  /** Levels 3 and 5 run the same cipher: only the positions of the bytes differ. */
  lemma LevelsThreeAndFive(w: Wire)
    requires |w| == 4
    ensures var k3 := SeedToKey([w[1], w[3], w[2], w[0]], 3);
      k3.Ok? && |k3.value| == 4
      && SeedToKey(w, 5) == Ok([k3.value[2], k3.value[3], k3.value[0], k3.value[1]])
  {
    hide Inverse, WordSwap, Pack, ByteOf;
  }
}
