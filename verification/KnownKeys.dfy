/** Seed and key pairs worked out round by round. */
module KnownKeys {
  import opened Basics
  import opened Feistel
  import opened SeedKey

  /** Undoing the rounds one key at a time, last key first. */
  lemma UndoLast(s: Word, rk: seq<Word>, n: nat)
    requires n < |rk|
    ensures Inverse(s, rk[..n + 1]) == Inverse(Unround(s, rk[n]), rk[..n])
  {
    hide Unround;
    assert rk[..n + 1][..n] == rk[..n];
  }

  // Level 1, four rounds at a time.

  lemma FirstStates1()
    ensures Unround(0xE322720B, 0x862B) == 0xC99CE322
    ensures Unround(0xC99CE322, 0x3ECC) == 0x8407C99C
    ensures Unround(0x8407C99C, 0x8961) == 0x63078407
    ensures Unround(0x63078407, 0x1895) == 0x555F6307
  {
    Entries();
    hide Lookup;
  }

  lemma FirstRounds1()
    ensures Inverse(0xE322720B, RK_L1[..16]) == Inverse(0x555F6307, RK_L1[..12])
  {
    FirstStates1();
    hide Unround, Inverse;
    UndoLast(0xE322720B, RK_L1, 15);
    UndoLast(0xC99CE322, RK_L1, 14);
    UndoLast(0x8407C99C, RK_L1, 13);
    UndoLast(0x63078407, RK_L1, 12);
  }

  lemma FirstStates2()
    ensures Unround(0x555F6307, 0x93F9) == 0xDCA2555F
    ensures Unround(0xDCA2555F, 0x4B75) == 0x6C64DCA2
    ensures Unround(0x6C64DCA2, 0x7F4A) == 0xD0AE6C64
    ensures Unround(0xD0AE6C64, 0xB046) == 0x36C5D0AE
  {
    Entries();
    hide Lookup;
  }

  lemma FirstRounds2()
    ensures Inverse(0x555F6307, RK_L1[..12]) == Inverse(0x36C5D0AE, RK_L1[..8])
  {
    FirstStates2();
    hide Unround, Inverse;
    UndoLast(0x555F6307, RK_L1, 11);
    UndoLast(0xDCA2555F, RK_L1, 10);
    UndoLast(0x6C64DCA2, RK_L1, 9);
    UndoLast(0xD0AE6C64, RK_L1, 8);
  }

  lemma FirstStates3()
    ensures Unround(0x36C5D0AE, 0x5E71) == 0x2BF936C5
    ensures Unround(0x2BF936C5, 0xFD21) == 0x9F6D2BF9
    ensures Unround(0x9F6D2BF9, 0x35F4) == 0xA9A29F6D
    ensures Unround(0xA9A29F6D, 0xAD6B) == 0x2852A9A2
  {
    Entries();
    hide Lookup;
  }

  lemma FirstRounds3()
    ensures Inverse(0x36C5D0AE, RK_L1[..8]) == Inverse(0x2852A9A2, RK_L1[..4])
  {
    FirstStates3();
    hide Unround, Inverse;
    UndoLast(0x36C5D0AE, RK_L1, 7);
    UndoLast(0x2BF936C5, RK_L1, 6);
    UndoLast(0x9F6D2BF9, RK_L1, 5);
    UndoLast(0xA9A29F6D, RK_L1, 4);
  }

  lemma FirstStates4()
    ensures Unround(0x2852A9A2, 0x9EA5) == 0x9C052852
    ensures Unround(0x9C052852, 0x201C) == 0xBC3F9C05
    ensures Unround(0xBC3F9C05, 0x4625) == 0xBA29BC3F
    ensures Unround(0xBA29BC3F, 0x78B1) == 0x02C5BA29
  {
    Entries();
    hide Lookup;
  }

  lemma FirstRounds4()
    ensures Inverse(0x2852A9A2, RK_L1[..4]) == Inverse(0x02C5BA29, RK_L1[..0])
  {
    FirstStates4();
    hide Unround, Inverse;
    UndoLast(0x2852A9A2, RK_L1, 3);
    UndoLast(0x9C052852, RK_L1, 2);
    UndoLast(0xBC3F9C05, RK_L1, 1);
    UndoLast(0xBA29BC3F, RK_L1, 0);
  }

  lemma FirstInverse()
    ensures Inverse(0xE322720B, RK_L1) == 0x02C5BA29
  {
    FirstRounds1();
    FirstRounds2();
    FirstRounds3();
    FirstRounds4();
    assert RK_L1[..16] == RK_L1;
    assert Inverse(0x02C5BA29, []) == 0x02C5BA29;
  }

  /** The answer the repository pins to a first attempt on a car: seed 72 0B E3 22, key 02 C5 BA 29. */
  lemma KnownKey()
    ensures SeedToKey([0x72, 0x0B, 0xE3, 0x22], 1) == Ok([0x02, 0xC5, 0xBA, 0x29])
  {
    FirstInverse();
    hide Inverse;
  }

  // Level 3, likewise.

  lemma ThirdStates1()
    ensures Unround(0x0B22E372, 0x84D7) == 0xA9020B22
    ensures Unround(0xA9020B22, 0x7568) == 0x4358A902
    ensures Unround(0x4358A902, 0xB685) == 0x19594358
    ensures Unround(0x19594358, 0x479F) == 0xFA871959
  {
    Entries();
    hide Lookup;
  }

  lemma ThirdRounds1()
    ensures Inverse(0x0B22E372, RK_L35[..16]) == Inverse(0xFA871959, RK_L35[..12])
  {
    ThirdStates1();
    hide Unround, Inverse;
    UndoLast(0x0B22E372, RK_L35, 15);
    UndoLast(0xA9020B22, RK_L35, 14);
    UndoLast(0x4358A902, RK_L35, 13);
    UndoLast(0x19594358, RK_L35, 12);
  }

  lemma ThirdStates2()
    ensures Unround(0xFA871959, 0x2877) == 0x719EFA87
    ensures Unround(0x719EFA87, 0xA09D) == 0xC011719E
    ensures Unround(0xC011719E, 0x3B66) == 0x40CDC011
    ensures Unround(0x40CDC011, 0x6520) == 0x4D8D40CD
  {
    Entries();
    hide Lookup;
  }

  lemma ThirdRounds2()
    ensures Inverse(0xFA871959, RK_L35[..12]) == Inverse(0x4D8D40CD, RK_L35[..8])
  {
    ThirdStates2();
    hide Unround, Inverse;
    UndoLast(0xFA871959, RK_L35, 11);
    UndoLast(0x719EFA87, RK_L35, 10);
    UndoLast(0xC011719E, RK_L35, 9);
    UndoLast(0x40CDC011, RK_L35, 8);
  }

  lemma ThirdStates3()
    ensures Unround(0x4D8D40CD, 0xB0B5) == 0xE76D4D8D
    ensures Unround(0xE76D4D8D, 0x38C9) == 0x648EE76D
    ensures Unround(0x648EE76D, 0xA77C) == 0x395D648E
    ensures Unround(0x395D648E, 0x52A0) == 0xDFFF395D
  {
    Entries();
    hide Lookup;
  }

  lemma ThirdRounds3()
    ensures Inverse(0x4D8D40CD, RK_L35[..8]) == Inverse(0xDFFF395D, RK_L35[..4])
  {
    ThirdStates3();
    hide Unround, Inverse;
    UndoLast(0x4D8D40CD, RK_L35, 7);
    UndoLast(0xE76D4D8D, RK_L35, 6);
    UndoLast(0x648EE76D, RK_L35, 5);
    UndoLast(0x395D648E, RK_L35, 4);
  }

  lemma ThirdStates4()
    ensures Unround(0xDFFF395D, 0x8B57) == 0x60B8DFFF
    ensures Unround(0x60B8DFFF, 0x3019) == 0x1A9B60B8
    ensures Unround(0x1A9B60B8, 0x3CAF) == 0x8F1B1A9B
    ensures Unround(0x8F1B1A9B, 0x794B) == 0x7D228F1B
  {
    Entries();
    hide Lookup;
  }

  lemma ThirdRounds4()
    ensures Inverse(0xDFFF395D, RK_L35[..4]) == Inverse(0x7D228F1B, RK_L35[..0])
  {
    ThirdStates4();
    hide Unround, Inverse;
    UndoLast(0xDFFF395D, RK_L35, 3);
    UndoLast(0x60B8DFFF, RK_L35, 2);
    UndoLast(0x1A9B60B8, RK_L35, 1);
    UndoLast(0x8F1B1A9B, RK_L35, 0);
  }

  lemma ThirdInverse()
    ensures Inverse(0x0B22E372, RK_L35) == 0x7D228F1B
  {
    ThirdRounds1();
    ThirdRounds2();
    ThirdRounds3();
    ThirdRounds4();
    assert RK_L35[..16] == RK_L35;
    assert Inverse(0x7D228F1B, []) == 0x7D228F1B;
  }

  /** The same seed at level 3, whose keys level 5 shares. */
  lemma KnownKeyLevelThree()
    ensures SeedToKey([0x72, 0x0B, 0xE3, 0x22], 3) == Ok([0x1B, 0x22, 0x8F, 0x7D])
  {
    ThirdInverse();
    hide Inverse;
  }
}
