/** AES-128 as FIPS 197 states it: the round transformations on a state of four columns, key expansion,
    the cipher (section 5.1), its inverse (section 5.3) and the theorem that each undoes the other. */
module Cipher {
  import opened GaloisField
  import opened MixColumn

  /** Byte `b0` is row 0; a column is also a word of the key schedule. */
  datatype Column = Column(b0: bv8, b1: bv8, b2: bv8, b3: bv8)

  datatype State = State(c0: Column, c1: Column, c2: Column, c3: Column)

  // ----- Blocks of sixteen bytes -----

  type Block = s: seq<bv8> | |s| == 16
    witness [0, 0, 0, 0, 0, 0, 0, 0, 0, 0, 0, 0, 0, 0, 0, 0]

  function WordOf(s: Block, c: nat): Column
    requires c < 4
  {
    Column(s[4 * c], s[4 * c + 1], s[4 * c + 2], s[4 * c + 3])
  }

  /** Consecutive bytes of a block fill the state column by column (section 3.4). */
  function StateOf(s: Block): State {
    State(WordOf(s, 0), WordOf(s, 1), WordOf(s, 2), WordOf(s, 3))
  }

  function BytesOf(s: State): Block {
    [s.c0.b0, s.c0.b1, s.c0.b2, s.c0.b3, s.c1.b0, s.c1.b1, s.c1.b2, s.c1.b3,
     s.c2.b0, s.c2.b1, s.c2.b2, s.c2.b3, s.c3.b0, s.c3.b1, s.c3.b2, s.c3.b3]
  }

  lemma StateOfBytes(s: State)
    ensures StateOf(BytesOf(s)) == s
  {
  }

  lemma BytesOfState(s: Block)
    ensures BytesOf(StateOf(s)) == s
  {
  }

  // ----- Transformations of one column -----

  function AddWord(a: Column, b: Column): Column {
    Column(Add(a.b0, b.b0), Add(a.b1, b.b1), Add(a.b2, b.b2), Add(a.b3, b.b3))
  }

  function SubWord(a: Column): Column {
    Column(SBox(a.b0), SBox(a.b1), SBox(a.b2), SBox(a.b3))
  }

  function InvSubWord(a: Column): Column {
    Column(InvSBox(a.b0), InvSBox(a.b1), InvSBox(a.b2), InvSBox(a.b3))
  }

  function MixWord(a: Column): Column {
    Column(Mix(a.b0, a.b1, a.b2, a.b3), Mix(a.b1, a.b2, a.b3, a.b0),
           Mix(a.b2, a.b3, a.b0, a.b1), Mix(a.b3, a.b0, a.b1, a.b2))
  }

  function UnmixWord(a: Column): Column {
    Column(Unmix(a.b0, a.b1, a.b2, a.b3), Unmix(a.b1, a.b2, a.b3, a.b0),
           Unmix(a.b2, a.b3, a.b0, a.b1), Unmix(a.b3, a.b0, a.b1, a.b2))
  }

  lemma AddWordTwice(a: Column, b: Column)
    ensures AddWord(AddWord(a, b), b) == a
  {
    AddTwice(a.b0, b.b0);
    AddTwice(a.b1, b.b1);
    AddTwice(a.b2, b.b2);
    AddTwice(a.b3, b.b3);
  }

  lemma SubWordInverts(a: Column)
    ensures InvSubWord(SubWord(a)) == a
    ensures SubWord(InvSubWord(a)) == a
  {
    InvSBoxOfSBox(a.b0);
    InvSBoxOfSBox(a.b1);
    InvSBoxOfSBox(a.b2);
    InvSBoxOfSBox(a.b3);
    SBoxOfInvSBox(a.b0);
    SBoxOfInvSBox(a.b1);
    SBoxOfInvSBox(a.b2);
    SBoxOfInvSBox(a.b3);
  }

  lemma MixWordInverts(a: Column)
    ensures UnmixWord(MixWord(a)) == a
    ensures MixWord(UnmixWord(a)) == a
  {
    UnmixOfMix(a.b0, a.b1, a.b2, a.b3);
    UnmixOfMix(a.b1, a.b2, a.b3, a.b0);
    UnmixOfMix(a.b2, a.b3, a.b0, a.b1);
    UnmixOfMix(a.b3, a.b0, a.b1, a.b2);
    MixOfUnmix(a.b0, a.b1, a.b2, a.b3);
    MixOfUnmix(a.b1, a.b2, a.b3, a.b0);
    MixOfUnmix(a.b2, a.b3, a.b0, a.b1);
    MixOfUnmix(a.b3, a.b0, a.b1, a.b2);
  }

  // ----- Transformations of the state (sections 5.1.1 to 5.1.4, and 5.3.1 to 5.3.4) -----

  function AddRoundKey(s: State, k: State): State {
    State(AddWord(s.c0, k.c0), AddWord(s.c1, k.c1), AddWord(s.c2, k.c2), AddWord(s.c3, k.c3))
  }

  function SubBytes(s: State): State {
    State(SubWord(s.c0), SubWord(s.c1), SubWord(s.c2), SubWord(s.c3))
  }

  function InvSubBytes(s: State): State {
    State(InvSubWord(s.c0), InvSubWord(s.c1), InvSubWord(s.c2), InvSubWord(s.c3))
  }

  /** Row r moves r places to the left. */
  function ShiftRows(s: State): State {
    State(Column(s.c0.b0, s.c1.b1, s.c2.b2, s.c3.b3), Column(s.c1.b0, s.c2.b1, s.c3.b2, s.c0.b3),
          Column(s.c2.b0, s.c3.b1, s.c0.b2, s.c1.b3), Column(s.c3.b0, s.c0.b1, s.c1.b2, s.c2.b3))
  }

  function InvShiftRows(s: State): State {
    State(Column(s.c0.b0, s.c3.b1, s.c2.b2, s.c1.b3), Column(s.c1.b0, s.c0.b1, s.c3.b2, s.c2.b3),
          Column(s.c2.b0, s.c1.b1, s.c0.b2, s.c3.b3), Column(s.c3.b0, s.c2.b1, s.c1.b2, s.c0.b3))
  }

  function MixColumns(s: State): State {
    State(MixWord(s.c0), MixWord(s.c1), MixWord(s.c2), MixWord(s.c3))
  }

  function InvMixColumns(s: State): State {
    State(UnmixWord(s.c0), UnmixWord(s.c1), UnmixWord(s.c2), UnmixWord(s.c3))
  }

  lemma AddRoundKeyTwice(s: State, k: State)
    ensures AddRoundKey(AddRoundKey(s, k), k) == s
  {
    AddWordTwice(s.c0, k.c0);
    AddWordTwice(s.c1, k.c1);
    AddWordTwice(s.c2, k.c2);
    AddWordTwice(s.c3, k.c3);
  }

  lemma SubBytesInverts(s: State)
    ensures InvSubBytes(SubBytes(s)) == s
    ensures SubBytes(InvSubBytes(s)) == s
  {
    SubWordInverts(s.c0);
    SubWordInverts(s.c1);
    SubWordInverts(s.c2);
    SubWordInverts(s.c3);
  }

  lemma ShiftRowsInverts(s: State)
    ensures InvShiftRows(ShiftRows(s)) == s
    ensures ShiftRows(InvShiftRows(s)) == s
  {
  }

  lemma MixColumnsInverts(s: State)
    ensures InvMixColumns(MixColumns(s)) == s
    ensures MixColumns(InvMixColumns(s)) == s
  {
    MixWordInverts(s.c0);
    MixWordInverts(s.c1);
    MixWordInverts(s.c2);
    MixWordInverts(s.c3);
  }

  // ----- Key expansion (section 5.2), with Nk = 4 -----

  function RotWord(a: Column): Column {
    Column(a.b1, a.b2, a.b3, a.b0)
  }

  /** x^(i-1) as the first byte of a word. */
  function Rcon(i: nat): Column
    requires i > 0
  {
    Column(PowerOfX(i - 1), 0, 0, 0)
  }

  /** Word i of the expanded key. */
  function KeyWord(key: Block, i: nat): Column {
    if i < 4 then WordOf(key, i)
    else if i % 4 == 0 then
      AddWord(KeyWord(key, i - 4), AddWord(SubWord(RotWord(KeyWord(key, i - 1))), Rcon(i / 4)))
    else
      AddWord(KeyWord(key, i - 4), KeyWord(key, i - 1))
  }

  function RoundKey(key: Block, r: nat): State {
    State(KeyWord(key, 4 * r), KeyWord(key, 4 * r + 1), KeyWord(key, 4 * r + 2), KeyWord(key, 4 * r + 3))
  }

  type RoundKeys = s: seq<State> | |s| == 11
    witness seq(11, _ => State(Column(0, 0, 0, 0), Column(0, 0, 0, 0), Column(0, 0, 0, 0), Column(0, 0, 0, 0)))

  function KeyExpansion(key: Block): RoundKeys {
    seq(11, r requires r >= 0 => RoundKey(key, r))
  }

  /** How a round key follows from the one before it. */
  lemma RoundKeyStep(key: Block, r: nat)
    requires r > 0
    ensures
      var p, n := RoundKey(key, r - 1), RoundKey(key, r);
      && n.c0 == AddWord(p.c0, AddWord(SubWord(RotWord(p.c3)), Rcon(r)))
      && n.c1 == AddWord(p.c1, n.c0)
      && n.c2 == AddWord(p.c2, n.c1)
      && n.c3 == AddWord(p.c3, n.c2)
  {
    assert (4 * r) % 4 == 0 && (4 * r) / 4 == r;
    assert (4 * r + 1) % 4 == 1 && (4 * r + 2) % 4 == 2 && (4 * r + 3) % 4 == 3;
    assert 4 * r - 4 == 4 * (r - 1);
  }

  /** Section 5.2 byte by byte, with the ten round constants. */
  lemma RoundKeyBytes(key: Block, r: nat)
    requires 1 <= r <= 10
    ensures
      var p, n := RoundKey(key, r - 1), RoundKey(key, r);
      var constant: bv8 := [0x01, 0x02, 0x04, 0x08, 0x10, 0x20, 0x40, 0x80, 0x1b, 0x36][r - 1];
      && n.c0.b0 == p.c0.b0 ^ SBox(p.c3.b1) ^ constant
      && n.c0.b1 == p.c0.b1 ^ SBox(p.c3.b2)
      && n.c0.b2 == p.c0.b2 ^ SBox(p.c3.b3)
      && n.c0.b3 == p.c0.b3 ^ SBox(p.c3.b0)
      && n.c1 == AddWord(p.c1, n.c0) && n.c2 == AddWord(p.c2, n.c1) && n.c3 == AddWord(p.c3, n.c2)
  {
    hide *;
    RoundKeyStep(key, r);
    RoundConstant(r);
    var p := RoundKey(key, r - 1);
    FirstWordBytes(p.c0, p.c3, Rcon(r).b0);
  }

  lemma FirstWordBytes(a: Column, b: Column, constant: bv8)
    ensures
      var n := AddWord(a, AddWord(SubWord(RotWord(b)), Column(constant, 0, 0, 0)));
      && n.b0 == a.b0 ^ SBox(b.b1) ^ constant && n.b1 == a.b1 ^ SBox(b.b2)
      && n.b2 == a.b2 ^ SBox(b.b3) && n.b3 == a.b3 ^ SBox(b.b0)
  {
    hide SBox, Add;
    XorOfThree(a.b0, SBox(b.b1), constant);
    XorOfThree(a.b1, SBox(b.b2), 0);
    XorOfThree(a.b2, SBox(b.b3), 0);
    XorOfThree(a.b3, SBox(b.b0), 0);
  }

  lemma XorOfThree(a: bv8, b: bv8, c: bv8)
    ensures Add(a, Add(b, c)) == a ^ b ^ c
    ensures c == 0 ==> Add(a, Add(b, c)) == a ^ b
  {
  }

  lemma RoundConstant(r: nat)
    requires 1 <= r <= 10
    ensures Rcon(r) == Column([0x01, 0x02, 0x04, 0x08, 0x10, 0x20, 0x40, 0x80, 0x1b, 0x36][r - 1], 0, 0, 0)
  {
    hide Mul, PowerOfX;
    NextPower(r - 1);
    if r > 1 {
      RoundConstant(r - 1);
    }
  }

  lemma NextPower(n: nat)
    ensures PowerOfX(n) == if n == 0 then 1 else Times2(PowerOfX(n - 1))
  {
    if n > 0 {
      MulBy2(PowerOfX(n - 1));
    }
  }

  // ----- The cipher, for any round keys -----

  function FullRound(s: State, k: State): State {
    AddRoundKey(MixColumns(ShiftRows(SubBytes(s))), k)
  }

  function InvFullRound(s: State, k: State): State {
    InvSubBytes(InvShiftRows(InvMixColumns(AddRoundKey(s, k))))
  }

  function LastRound(s: State, k: State): State {
    AddRoundKey(ShiftRows(SubBytes(s)), k)
  }

  function InvLastRound(s: State, k: State): State {
    InvSubBytes(InvShiftRows(AddRoundKey(s, k)))
  }

  /** The state after the first key addition and full rounds 1 to r. */
  function Rounds(keys: RoundKeys, r: nat, s: State): State
    requires r <= 9
  {
    if r == 0 then AddRoundKey(s, keys[0]) else FullRound(Rounds(keys, r - 1, s), keys[r])
  }

  /** Undoes full rounds r to 1 and the first key addition. */
  function InvRounds(keys: RoundKeys, r: nat, s: State): State
    requires r <= 9
  {
    if r == 0 then AddRoundKey(s, keys[0]) else InvRounds(keys, r - 1, InvFullRound(s, keys[r]))
  }

  function Encrypt(keys: RoundKeys, block: Block): Block {
    BytesOf(LastRound(Rounds(keys, 9, StateOf(block)), keys[10]))
  }

  function Decrypt(keys: RoundKeys, block: Block): Block {
    BytesOf(InvRounds(keys, 9, InvLastRound(StateOf(block), keys[10])))
  }

  lemma FullRoundInverts(s: State, k: State)
    ensures InvFullRound(FullRound(s, k), k) == s
    ensures FullRound(InvFullRound(s, k), k) == s
  {
    AddRoundKeyTwice(MixColumns(ShiftRows(SubBytes(s))), k);
    MixColumnsInverts(ShiftRows(SubBytes(s)));
    ShiftRowsInverts(SubBytes(s));
    SubBytesInverts(s);
    var t := AddRoundKey(s, k);
    SubBytesInverts(InvShiftRows(InvMixColumns(t)));
    ShiftRowsInverts(InvMixColumns(t));
    MixColumnsInverts(t);
    AddRoundKeyTwice(s, k);
  }

  lemma LastRoundInverts(s: State, k: State)
    ensures InvLastRound(LastRound(s, k), k) == s
    ensures LastRound(InvLastRound(s, k), k) == s
  {
    AddRoundKeyTwice(ShiftRows(SubBytes(s)), k);
    ShiftRowsInverts(SubBytes(s));
    SubBytesInverts(s);
    var t := AddRoundKey(s, k);
    SubBytesInverts(InvShiftRows(t));
    ShiftRowsInverts(t);
    AddRoundKeyTwice(s, k);
  }

  lemma {:induction false} RoundsInvert(keys: RoundKeys, r: nat, s: State)
    requires r <= 9
    ensures InvRounds(keys, r, Rounds(keys, r, s)) == s
    ensures Rounds(keys, r, InvRounds(keys, r, s)) == s
    decreases r
  {
    hide FullRound, InvFullRound;
    if r == 0 {
      AddRoundKeyTwice(s, keys[0]);
    } else {
      FullRoundInverts(Rounds(keys, r - 1, s), keys[r]);
      RoundsInvert(keys, r - 1, s);
      FullRoundInverts(s, keys[r]);
      RoundsInvert(keys, r - 1, InvFullRound(s, keys[r]));
    }
  }

  /** Whatever the round keys, encryption is a bijection on blocks and `Decrypt` is its inverse. */
  lemma EncryptIsBijection(keys: RoundKeys, block: Block)
    ensures Decrypt(keys, Encrypt(keys, block)) == block
    ensures Encrypt(keys, Decrypt(keys, block)) == block
  {
    hide FullRound, InvFullRound, LastRound, InvLastRound, Rounds, InvRounds, StateOf, BytesOf;
    var s := StateOf(block);
    var mid := Rounds(keys, 9, s);
    StateOfBytes(LastRound(mid, keys[10]));
    LastRoundInverts(mid, keys[10]);
    RoundsInvert(keys, 9, s);
    BytesOfState(block);
    var low := InvLastRound(s, keys[10]);
    StateOfBytes(InvRounds(keys, 9, low));
    RoundsInvert(keys, 9, low);
    LastRoundInverts(s, keys[10]);
  }

  lemma EncryptIsInjective(keys: RoundKeys, a: Block, b: Block)
    ensures Encrypt(keys, a) == Encrypt(keys, b) <==> a == b
  {
    hide *;
    EncryptIsBijection(keys, a);
    EncryptIsBijection(keys, b);
  }
}
