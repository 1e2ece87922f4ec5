/** The example vector of appendix C.1 of FIPS 197: its key and block, with every round key and state on the way.
    Key expansion and the cipher are pinned here to published values. */
module KnownAnswer {
  import opened GaloisField
  import opened Cipher
  import opened Rijndael

  /** The four bytes of a word, most significant first. */
  function W(w: bv32): Column {
    Column((w >> 24) as bv8, ((w >> 16) & 0xff) as bv8, ((w >> 8) & 0xff) as bv8, (w & 0xff) as bv8)
  }

  function S(a: bv32, b: bv32, c: bv32, d: bv32): State {
    State(W(a), W(b), W(c), W(d))
  }

  /** The round keys of the example. */
  const KEYS: seq<State> := [
    S(0x00010203, 0x04050607, 0x08090a0b, 0x0c0d0e0f),
    S(0xd6aa74fd, 0xd2af72fa, 0xdaa678f1, 0xd6ab76fe),
    S(0xb692cf0b, 0x643dbdf1, 0xbe9bc500, 0x6830b3fe),
    S(0xb6ff744e, 0xd2c2c9bf, 0x6c590cbf, 0x0469bf41),
    S(0x47f7f7bc, 0x95353e03, 0xf96c32bc, 0xfd058dfd),
    S(0x3caaa3e8, 0xa99f9deb, 0x50f3af57, 0xadf622aa),
    S(0x5e390f7d, 0xf7a69296, 0xa7553dc1, 0x0aa31f6b),
    S(0x14f9701a, 0xe35fe28c, 0x440adf4d, 0x4ea9c026),
    S(0x47438735, 0xa41c65b9, 0xe016baf4, 0xaebf7ad2),
    S(0x549932d1, 0xf0855768, 0x1093ed9c, 0xbe2c974e),
    S(0x13111d7f, 0xe3944a17, 0xf307a78b, 0x4d2b30c5)]

  /** The states of the example after each key addition. */
  const STATES: seq<State> := [
    S(0x00102030, 0x40506070, 0x8090a0b0, 0xc0d0e0f0),
    S(0x89d810e8, 0x855ace68, 0x2d1843d8, 0xcb128fe4),
    S(0x4915598f, 0x55e5d7a0, 0xdaca94fa, 0x1f0a63f7),
    S(0xfa636a28, 0x25b339c9, 0x40668a31, 0x57244d17),
    S(0x24724023, 0x6966b3fa, 0x6ed27532, 0x88425b6c),
    S(0xc81677bc, 0x9b7ac93b, 0x25027992, 0xb0261996),
    S(0xc62fe109, 0xf75eedc3, 0xcc79395d, 0x84f9cf5d),
    S(0xd1876c0f, 0x79c4300a, 0xb45594ad, 0xd66ff41f),
    S(0xfde3bad2, 0x05e5d0d7, 0x3547964e, 0xf1fe37f1),
    S(0xbd6e7c3d, 0xf2b5779e, 0x0b61216e, 0x8b10b689),
    S(0x69c4e0d8, 0x6a7b0430, 0xd8cdb780, 0x70b4c55a)]

  // ----- One round, in a form that is quick to evaluate -----

  function NextKey(p: State, c: bv8): State {
    var c0 := AddWord(p.c0, AddWord(SubWord(RotWord(p.c3)), Column(c, 0, 0, 0)));
    var c1 := AddWord(p.c1, c0);
    var c2 := AddWord(p.c2, c1);
    State(c0, c1, c2, AddWord(p.c3, c2))
  }

  function MixSum(w: Column): Column {
    var sum := Add(Add(Add(w.b0, w.b1), w.b2), w.b3);
    Column(Add(w.b0, Add(sum, Times2(Add(w.b0, w.b1)))), Add(w.b1, Add(sum, Times2(Add(w.b1, w.b2)))),
           Add(w.b2, Add(sum, Times2(Add(w.b2, w.b3)))), Add(w.b3, Add(sum, Times2(Add(w.b3, w.b0)))))
  }

  function MixState(t: State): State {
    State(MixSum(t.c0), MixSum(t.c1), MixSum(t.c2), MixSum(t.c3))
  }

  lemma NextKeyIs(key: Block, r: nat)
    requires 1 <= r <= 10
    ensures RoundKey(key, r) == NextKey(RoundKey(key, r - 1), Rcon(r).b0)
  {
    hide RoundKey, AddWord, SubWord, RotWord;
    RoundKeyStep(key, r);
  }

  lemma RoundIs(s: State, k: State)
    ensures FullRound(s, k) == AddRoundKey(MixState(ShiftRows(SubBytes(s))), k)
  {
    hide AddRoundKey, MixWord, MixSum, ShiftRows, SubBytes;
    var t := ShiftRows(SubBytes(s));
    MixIs(t.c0);
    MixIs(t.c1);
    MixIs(t.c2);
    MixIs(t.c3);
  }

  lemma MixIs(w: Column)
    ensures MixWord(w) == MixSum(w)
  {
    hide MixWord, XtimeTable, Add, Times2;
    XtimeIsTimes2(Add(w.b0, w.b1));
    XtimeIsTimes2(Add(w.b1, w.b2));
    XtimeIsTimes2(Add(w.b2, w.b3));
    XtimeIsTimes2(Add(w.b3, w.b0));
    MixedColumn(w, MixSum(w));
  }

  // ----- The rounds of the example -----

  lemma Row1()
    ensures ShiftRows(SubBytes(S(0x00102030, 0x40506070, 0x8090a0b0, 0xc0d0e0f0)))
         == S(0x6353e08c, 0x0960e104, 0xcd70b751, 0xbacad0e7)
  {
  }

  lemma Round1()
    ensures NextKey(S(0x00010203, 0x04050607, 0x08090a0b, 0x0c0d0e0f), 0x01)
         == S(0xd6aa74fd, 0xd2af72fa, 0xdaa678f1, 0xd6ab76fe)
    ensures AddRoundKey(MixState(S(0x6353e08c, 0x0960e104, 0xcd70b751, 0xbacad0e7)),
                        S(0xd6aa74fd, 0xd2af72fa, 0xdaa678f1, 0xd6ab76fe))
         == S(0x89d810e8, 0x855ace68, 0x2d1843d8, 0xcb128fe4)
  {
  }

  lemma Row2()
    ensures ShiftRows(SubBytes(S(0x89d810e8, 0x855ace68, 0x2d1843d8, 0xcb128fe4)))
         == S(0xa7be1a69, 0x97ad739b, 0xd8c9ca45, 0x1f618b61)
  {
  }

  lemma Round2()
    ensures NextKey(S(0xd6aa74fd, 0xd2af72fa, 0xdaa678f1, 0xd6ab76fe), 0x02)
         == S(0xb692cf0b, 0x643dbdf1, 0xbe9bc500, 0x6830b3fe)
    ensures AddRoundKey(MixState(S(0xa7be1a69, 0x97ad739b, 0xd8c9ca45, 0x1f618b61)),
                        S(0xb692cf0b, 0x643dbdf1, 0xbe9bc500, 0x6830b3fe))
         == S(0x4915598f, 0x55e5d7a0, 0xdaca94fa, 0x1f0a63f7)
  {
  }

  lemma Row3()
    ensures ShiftRows(SubBytes(S(0x4915598f, 0x55e5d7a0, 0xdaca94fa, 0x1f0a63f7)))
         == S(0x3bd92268, 0xfc74fb73, 0x5767cbe0, 0xc0590e2d)
  {
  }

  lemma Round3()
    ensures NextKey(S(0xb692cf0b, 0x643dbdf1, 0xbe9bc500, 0x6830b3fe), 0x04)
         == S(0xb6ff744e, 0xd2c2c9bf, 0x6c590cbf, 0x0469bf41)
    ensures AddRoundKey(MixState(S(0x3bd92268, 0xfc74fb73, 0x5767cbe0, 0xc0590e2d)),
                        S(0xb6ff744e, 0xd2c2c9bf, 0x6c590cbf, 0x0469bf41))
         == S(0xfa636a28, 0x25b339c9, 0x40668a31, 0x57244d17)
  {
  }

  lemma Row4()
    ensures ShiftRows(SubBytes(S(0xfa636a28, 0x25b339c9, 0x40668a31, 0x57244d17)))
         == S(0x2d6d7ef0, 0x3f33e334, 0x093602dd, 0x5bfb12c7)
  {
  }

  lemma Round4()
    ensures NextKey(S(0xb6ff744e, 0xd2c2c9bf, 0x6c590cbf, 0x0469bf41), 0x08)
         == S(0x47f7f7bc, 0x95353e03, 0xf96c32bc, 0xfd058dfd)
    ensures AddRoundKey(MixState(S(0x2d6d7ef0, 0x3f33e334, 0x093602dd, 0x5bfb12c7)),
                        S(0x47f7f7bc, 0x95353e03, 0xf96c32bc, 0xfd058dfd))
         == S(0x24724023, 0x6966b3fa, 0x6ed27532, 0x88425b6c)
  {
  }

  lemma Row5()
    ensures ShiftRows(SubBytes(S(0x24724023, 0x6966b3fa, 0x6ed27532, 0x88425b6c)))
         == S(0x36339d50, 0xf9b53926, 0x9f2c092d, 0xc4406d23)
  {
  }

  lemma Round5()
    ensures NextKey(S(0x47f7f7bc, 0x95353e03, 0xf96c32bc, 0xfd058dfd), 0x10)
         == S(0x3caaa3e8, 0xa99f9deb, 0x50f3af57, 0xadf622aa)
    ensures AddRoundKey(MixState(S(0x36339d50, 0xf9b53926, 0x9f2c092d, 0xc4406d23)),
                        S(0x3caaa3e8, 0xa99f9deb, 0x50f3af57, 0xadf622aa))
         == S(0xc81677bc, 0x9b7ac93b, 0x25027992, 0xb0261996)
  {
  }

  lemma Row6()
    ensures ShiftRows(SubBytes(S(0xc81677bc, 0x9b7ac93b, 0x25027992, 0xb0261996)))
         == S(0xe8dab690, 0x1477d465, 0x3ff7f5e2, 0xe747dd4f)
  {
  }

  lemma Round6()
    ensures NextKey(S(0x3caaa3e8, 0xa99f9deb, 0x50f3af57, 0xadf622aa), 0x20)
         == S(0x5e390f7d, 0xf7a69296, 0xa7553dc1, 0x0aa31f6b)
    ensures AddRoundKey(MixState(S(0xe8dab690, 0x1477d465, 0x3ff7f5e2, 0xe747dd4f)),
                        S(0x5e390f7d, 0xf7a69296, 0xa7553dc1, 0x0aa31f6b))
         == S(0xc62fe109, 0xf75eedc3, 0xcc79395d, 0x84f9cf5d)
  {
  }

  lemma Row7()
    ensures ShiftRows(SubBytes(S(0xc62fe109, 0xf75eedc3, 0xcc79395d, 0x84f9cf5d)))
         == S(0xb458124c, 0x68b68a01, 0x4b99f82e, 0x5f15554c)
  {
  }

  lemma Round7()
    ensures NextKey(S(0x5e390f7d, 0xf7a69296, 0xa7553dc1, 0x0aa31f6b), 0x40)
         == S(0x14f9701a, 0xe35fe28c, 0x440adf4d, 0x4ea9c026)
    ensures AddRoundKey(MixState(S(0xb458124c, 0x68b68a01, 0x4b99f82e, 0x5f15554c)),
                        S(0x14f9701a, 0xe35fe28c, 0x440adf4d, 0x4ea9c026))
         == S(0xd1876c0f, 0x79c4300a, 0xb45594ad, 0xd66ff41f)
  {
  }

  lemma Row8()
    ensures ShiftRows(SubBytes(S(0xd1876c0f, 0x79c4300a, 0xb45594ad, 0xd66ff41f)))
         == S(0x3e1c22c0, 0xb6fcbf76, 0x8da85067, 0xf6170495)
  {
  }

  lemma Round8()
    ensures NextKey(S(0x14f9701a, 0xe35fe28c, 0x440adf4d, 0x4ea9c026), 0x80)
         == S(0x47438735, 0xa41c65b9, 0xe016baf4, 0xaebf7ad2)
    ensures AddRoundKey(MixState(S(0x3e1c22c0, 0xb6fcbf76, 0x8da85067, 0xf6170495)),
                        S(0x47438735, 0xa41c65b9, 0xe016baf4, 0xaebf7ad2))
         == S(0xfde3bad2, 0x05e5d0d7, 0x3547964e, 0xf1fe37f1)
  {
  }

  lemma Row9()
    ensures ShiftRows(SubBytes(S(0xfde3bad2, 0x05e5d0d7, 0x3547964e, 0xf1fe37f1)))
         == S(0x54d990a1, 0x6ba09ab5, 0x96bbf40e, 0xa111702f)
  {
  }

  lemma Round9()
    ensures NextKey(S(0x47438735, 0xa41c65b9, 0xe016baf4, 0xaebf7ad2), 0x1b)
         == S(0x549932d1, 0xf0855768, 0x1093ed9c, 0xbe2c974e)
    ensures AddRoundKey(MixState(S(0x54d990a1, 0x6ba09ab5, 0x96bbf40e, 0xa111702f)),
                        S(0x549932d1, 0xf0855768, 0x1093ed9c, 0xbe2c974e))
         == S(0xbd6e7c3d, 0xf2b5779e, 0x0b61216e, 0x8b10b689)
  {
  }

  lemma Row10()
    ensures ShiftRows(SubBytes(S(0xbd6e7c3d, 0xf2b5779e, 0x0b61216e, 0x8b10b689)))
         == S(0x7ad5fda7, 0x89ef4e27, 0x2bca100b, 0x3d9ff59f)
  {
  }

  lemma Round10()
    ensures NextKey(S(0x549932d1, 0xf0855768, 0x1093ed9c, 0xbe2c974e), 0x36)
         == S(0x13111d7f, 0xe3944a17, 0xf307a78b, 0x4d2b30c5)
    ensures AddRoundKey(S(0x7ad5fda7, 0x89ef4e27, 0x2bca100b, 0x3d9ff59f),
                        S(0x13111d7f, 0xe3944a17, 0xf307a78b, 0x4d2b30c5))
         == S(0x69c4e0d8, 0x6a7b0430, 0xd8cdb780, 0x70b4c55a)
  {
  }

  lemma EachRound(r: nat)
    requires 1 <= r <= 10
    ensures NextKey(KEYS[r - 1], Rcon(r).b0) == KEYS[r]
    ensures (if r < 10 then FullRound(STATES[r - 1], KEYS[r]) else LastRound(STATES[9], KEYS[10])) == STATES[r]
  {
    hide NextKey, S, FullRound, AddRoundKey, MixState, ShiftRows, SubBytes, Rcon;
    RoundConstant(r);
    RoundIs(STATES[r - 1], KEYS[r]);
    LastRoundIs(STATES[9], KEYS[10], AddRoundKey(ShiftRows(SubBytes(STATES[9])), KEYS[10]));
    match r
    case 1 => Row1(); Round1();
    case 2 => Row2(); Round2();
    case 3 => Row3(); Round3();
    case 4 => Row4(); Round4();
    case 5 => Row5(); Round5();
    case 6 => Row6(); Round6();
    case 7 => Row7(); Round7();
    case 8 => Row8(); Round8();
    case 9 => Row9(); Round9();
    case 10 => Row10(); Round10();
  }

  lemma {:induction false} Keys(key: Block, r: nat)
    requires r <= 10 && RoundKey(key, 0) == KEYS[0]
    ensures RoundKey(key, r) == KEYS[r]
  {
    hide NextKey, RoundKey, S, Rcon;
    if r > 0 {
      Keys(key, r - 1);
      NextKeyIs(key, r);
      EachRound(r);
    }
  }

  lemma {:induction false} States(keys: RoundKeys, s: State, r: nat)
    requires r <= 9 && (forall i :: 0 <= i <= 10 ==> keys[i] == KEYS[i]) && AddRoundKey(s, KEYS[0]) == STATES[0]
    ensures Rounds(keys, r, s) == STATES[r]
  {
    hide FullRound, S, AddRoundKey;
    if r > 0 {
      States(keys, s, r - 1);
      EachRound(r);
    }
  }

  lemma LastOf(keys: RoundKeys, plain: Block)
    requires Rounds(keys, 9, StateOf(plain)) == STATES[9] && keys[10] == KEYS[10]
    ensures Encrypt(keys, plain) == BytesOf(STATES[10])
  {
    hide LastRound, S;
    EachRound(10);
  }

  /** The key 00 01 .. 0f turns the block 00 11 .. ff into the published one. */
  lemma Fips197Example()
    ensures
      var key: Block :=
        [0x00, 0x01, 0x02, 0x03, 0x04, 0x05, 0x06, 0x07,
         0x08, 0x09, 0x0a, 0x0b, 0x0c, 0x0d, 0x0e, 0x0f];
      var plain: Block :=
        [0x00, 0x11, 0x22, 0x33, 0x44, 0x55, 0x66, 0x77,
         0x88, 0x99, 0xaa, 0xbb, 0xcc, 0xdd, 0xee, 0xff];
      Encrypt(KeyExpansion(key), plain) ==
        [0x69, 0xc4, 0xe0, 0xd8, 0x6a, 0x7b, 0x04, 0x30,
         0xd8, 0xcd, 0xb7, 0x80, 0x70, 0xb4, 0xc5, 0x5a]
  {
    var key: Block :=
        [0x00, 0x01, 0x02, 0x03, 0x04, 0x05, 0x06, 0x07,
         0x08, 0x09, 0x0a, 0x0b, 0x0c, 0x0d, 0x0e, 0x0f];
    var plain: Block :=
        [0x00, 0x11, 0x22, 0x33, 0x44, 0x55, 0x66, 0x77,
         0x88, 0x99, 0xaa, 0xbb, 0xcc, 0xdd, 0xee, 0xff];
    var keys := KeyExpansion(key);
    assert RoundKey(key, 0) == KEYS[0];
    assert AddRoundKey(StateOf(plain), KEYS[0]) == STATES[0];
    forall i | 0 <= i <= 10
      ensures keys[i] == KEYS[i]
    {
      Keys(key, i);
    }
    States(keys, StateOf(plain), 9);
    LastOf(keys, plain);
  }
}
