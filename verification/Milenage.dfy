/** The MILENAGE functions f1, f1*, f2 to f5 and f5* (sections 4.1 and 4.2 of 3GPP TS 35.206). */
module Milenage {
  import opened GaloisField
  import opened Cipher
  import opened Rijndael

  // ----- The definitions of TS 35.206 -----

  function Xor(a: Block, b: Block): Block {
    seq(16, i requires 0 <= i < 16 => Add(a[i], b[i]))
  }

  /** Cyclic rotation by n bytes towards the most significant end. */
  function Rot(x: Block, n: nat): Block
    requires n <= 16
  {
    x[n..] + x[..n]
  }

  /** The constants c1 to c5: all zero but for the last byte. */
  function LastByte(v: bv8): Block {
    seq(15, _ => 0 as bv8) + [v]
  }

  /** E[x] under key k. */
  function E(k: Block, x: Block): Block {
    Encrypt(KeyExpansion(k), x)
  }

  function Temp(k: Block, rand: Block, opc: Block): Block {
    E(k, Xor(rand, opc))
  }

  type Sqn = s: seq<bv8> | |s| == 6 witness [0, 0, 0, 0, 0, 0]
  type Amf = s: seq<bv8> | |s| == 2 witness [0, 0]

  function In1(sqn: Sqn, amf: Amf): Block {
    sqn + amf + sqn + amf
  }

  /** OUT1, with r1 = 64 bits and c1 = 0. */
  function Out1(k: Block, rand: Block, opc: Block, sqn: Sqn, amf: Amf): Block {
    Xor(E(k, Xor(Xor(Temp(k, rand, opc), Rot(Xor(In1(sqn, amf), opc), 8)), LastByte(0))), opc)
  }

  /** OUT2 to OUT5: rotation by r bytes, then the constant. */
  function Out(k: Block, rand: Block, opc: Block, r: nat, c: bv8): Block
    requires r <= 16
  {
    OutFrom(k, Temp(k, rand, opc), opc, r, c)
  }

  function OutFrom(k: Block, temp: Block, opc: Block, r: nat, c: bv8): Block
    requires r <= 16
  {
    Xor(E(k, Xor(Rot(Xor(temp, opc), r), LastByte(c))), opc)
  }

  function Out2(k: Block, rand: Block, opc: Block): Block { Out(k, rand, opc, 0, 1) }
  function Out3(k: Block, rand: Block, opc: Block): Block { Out(k, rand, opc, 4, 2) }
  function Out4(k: Block, rand: Block, opc: Block): Block { Out(k, rand, opc, 8, 4) }
  function Out5(k: Block, rand: Block, opc: Block): Block { Out(k, rand, opc, 12, 8) }

  // ----- The same byte by byte -----

  /** TEMP encrypts the sum of the challenge and OPc. */
  lemma TempBytes(k: Block, rand: Block, opc: Block, x: Block)
    requires forall i :: 0 <= i < 16 ==> x[i] == rand[i] ^ opc[i]
    ensures Temp(k, rand, opc) == Encrypt(KeyExpansion(k), x)
  {
    hide Encrypt, KeyExpansion;
    assert x == Xor(rand, opc);
  }

  /** OUT1: SQN and AMF, twice, eight bytes on. */
  lemma Out1Bytes(k: Block, rand: Block, opc: Block, sqn: Sqn, amf: Amf, in1: Block, x: Block)
    requires forall i :: 0 <= i < 6 ==> in1[i] == sqn[i] && in1[i + 8] == sqn[i]
    requires forall i :: 0 <= i < 2 ==> in1[i + 6] == amf[i] && in1[i + 14] == amf[i]
    requires forall i :: 0 <= i < 16 ==> x[i] == Temp(k, rand, opc)[i] ^ in1[(i + 8) % 16] ^ opc[(i + 8) % 16]
    ensures forall i :: 0 <= i < 16 ==> Out1(k, rand, opc, sqn, amf)[i] == Encrypt(KeyExpansion(k), x)[i] ^ opc[i]
  {
    hide Encrypt, KeyExpansion, Temp, Rot, LastByte, In1, Xor;
    In1Bytes(sqn, amf, in1);
    Out1Input(Temp(k, rand, opc), in1, opc, x);
    XorAt(E(k, x), opc);
  }

  lemma XorAt(a: Block, b: Block)
    ensures forall i :: 0 <= i < 16 ==> Xor(a, b)[i] == a[i] ^ b[i]
  {
  }

  lemma In1Bytes(sqn: Sqn, amf: Amf, in1: Block)
    requires forall i :: 0 <= i < 6 ==> in1[i] == sqn[i] && in1[i + 8] == sqn[i]
    requires forall i :: 0 <= i < 2 ==> in1[i + 6] == amf[i] && in1[i + 14] == amf[i]
    ensures in1 == In1(sqn, amf)
  {
  }

  lemma Out1Input(temp: Block, in1: Block, opc: Block, x: Block)
    requires forall i :: 0 <= i < 16 ==> x[i] == temp[i] ^ in1[(i + 8) % 16] ^ opc[(i + 8) % 16]
    ensures Xor(Xor(temp, Rot(Xor(in1, opc), 8)), LastByte(0)) == x
  {
    hide Add;
    var y := Xor(Xor(temp, Rot(Xor(in1, opc), 8)), LastByte(0));
    forall i | 0 <= i < 16
      ensures y[i] == x[i]
    {
      AnyOrder(temp[i], in1[(i + 8) % 16], opc[(i + 8) % 16]);
    }
  }

  lemma AnyOrder(a: bv8, b: bv8, c: bv8)
    ensures Add(Add(a, Add(b, c)), 0) == a ^ b ^ c
  {
  }

  /** Any of OUT2 to OUT5: byte i of the sum of TEMP and OPc goes to r places before, and the last byte of the
      block that is encrypted also takes the constant. */
  lemma OutBytes(k: Block, rand: Block, opc: Block, r: nat, c: bv8, x: Block)
    requires r <= 16
    requires forall i :: 0 <= i < 16 ==>
      x[i] == Temp(k, rand, opc)[(i + r) % 16] ^ opc[(i + r) % 16] ^ (if i == 15 then c else 0)
    ensures forall i :: 0 <= i < 16 ==> Out(k, rand, opc, r, c)[i] == Encrypt(KeyExpansion(k), x)[i] ^ opc[i]
  {
    hide Encrypt, KeyExpansion, Temp, Xor, Rot, LastByte;
    OutInputBytes(Temp(k, rand, opc), opc, r, c, x);
    XorAt(E(k, x), opc);
  }

  lemma OutInputBytes(temp: Block, opc: Block, r: nat, c: bv8, x: Block)
    requires r <= 16
    requires forall i :: 0 <= i < 16 ==> x[i] == temp[(i + r) % 16] ^ opc[(i + r) % 16] ^ (if i == 15 then c else 0)
    ensures Xor(Rot(Xor(temp, opc), r), LastByte(c)) == x
  {
    hide Xor, Rot, LastByte;
    var sum := Xor(temp, opc);
    XorAt(temp, opc);
    RotBytes(sum, r);
    LastByteAt(c);
    XorAt(Rot(sum, r), LastByte(c));
  }

  lemma RotBytes(x: Block, r: nat)
    requires r <= 16
    ensures forall i :: 0 <= i < 16 ==> Rot(x, r)[i] == x[(i + r) % 16]
  {
  }

  lemma LastByteAt(c: bv8)
    ensures forall i :: 0 <= i < 16 ==> LastByte(c)[i] == if i == 15 then c else 0
  {
  }

  /** OUT2, from which come RES and AK. */
  lemma Out2Bytes(k: Block, rand: Block, opc: Block, x: Block)
    requires forall i :: 0 <= i < 16 ==> x[i] == Temp(k, rand, opc)[i] ^ opc[i] ^ (if i == 15 then 1 else 0)
    ensures forall i :: 0 <= i < 16 ==> Out2(k, rand, opc)[i] == Encrypt(KeyExpansion(k), x)[i] ^ opc[i]
  {
    hide Encrypt, KeyExpansion, Temp, Out;
    OutBytes(k, rand, opc, 0, 1, x);
  }

  /** OUT3, the cipher key. */
  lemma Out3Bytes(k: Block, rand: Block, opc: Block, x: Block)
    requires forall i :: 0 <= i < 16 ==>
      x[i] == Temp(k, rand, opc)[(i + 4) % 16] ^ opc[(i + 4) % 16] ^ (if i == 15 then 2 else 0)
    ensures forall i :: 0 <= i < 16 ==> Out3(k, rand, opc)[i] == Encrypt(KeyExpansion(k), x)[i] ^ opc[i]
  {
    hide Encrypt, KeyExpansion, Temp, Out;
    OutBytes(k, rand, opc, 4, 2, x);
  }

  /** OUT4, the integrity key. */
  lemma Out4Bytes(k: Block, rand: Block, opc: Block, x: Block)
    requires forall i :: 0 <= i < 16 ==>
      x[i] == Temp(k, rand, opc)[(i + 8) % 16] ^ opc[(i + 8) % 16] ^ (if i == 15 then 4 else 0)
    ensures forall i :: 0 <= i < 16 ==> Out4(k, rand, opc)[i] == Encrypt(KeyExpansion(k), x)[i] ^ opc[i]
  {
    hide Encrypt, KeyExpansion, Temp, Out;
    OutBytes(k, rand, opc, 8, 4, x);
  }

  /** OUT5, from which comes AK for resynchronisation. */
  lemma Out5Bytes(k: Block, rand: Block, opc: Block, x: Block)
    requires forall i :: 0 <= i < 16 ==>
      x[i] == Temp(k, rand, opc)[(i + 12) % 16] ^ opc[(i + 12) % 16] ^ (if i == 15 then 8 else 0)
    ensures forall i :: 0 <= i < 16 ==> Out5(k, rand, opc)[i] == Encrypt(KeyExpansion(k), x)[i] ^ opc[i]
  {
    hide Encrypt, KeyExpansion, Temp, Out;
    OutBytes(k, rand, opc, 12, 8, x);
  }

  // ----- What the blocks determine -----

  lemma XorTwice(a: Block, b: Block)
    ensures Xor(Xor(a, b), b) == a
  {
    forall i | 0 <= i < 16
      ensures Xor(Xor(a, b), b)[i] == a[i]
    {
      AddTwice(a[i], b[i]);
    }
  }

  lemma RotBack(x: Block, n: nat)
    requires n <= 16
    ensures Rot(Rot(x, n), 16 - n) == x
    ensures Rot(Rot(x, 16 - n), n) == x
  {
  }

  /** E is invertible for every key. */
  function D(k: Block, x: Block): Block {
    Decrypt(KeyExpansion(k), x)
  }

  lemma EIsBijection(k: Block, x: Block)
    ensures D(k, E(k, x)) == x
    ensures E(k, D(k, x)) == x
  {
    hide Encrypt, Decrypt, KeyExpansion;
    EncryptIsBijection(KeyExpansion(k), x);
  }

  /** The challenge from which `Out(k, _, opc, r, c)` gives `out`. */
  function RandFor(k: Block, out: Block, opc: Block, r: nat, c: bv8): Block
    requires r <= 16
  {
    Xor(D(k, Xor(Rot(Xor(D(k, Xor(out, opc)), LastByte(c)), 16 - r), opc)), opc)
  }

  /** For a fixed key and OPc, RAND to OUT2, OUT3 (CK), OUT4 (IK) and OUT5 are bijections on blocks. */
  lemma OutIsBijection(k: Block, x: Block, opc: Block, r: nat, c: bv8)
    requires r <= 16
    ensures RandFor(k, Out(k, x, opc, r, c), opc, r, c) == x
    ensures Out(k, RandFor(k, x, opc, r, c), opc, r, c) == x
  {
    hide E, D, Xor, Rot, LastByte;
    var one := Xor(Temp(k, x, opc), opc);
    var two := Xor(Rot(one, r), LastByte(c));
    XorTwice(E(k, two), opc);
    EIsBijection(k, two);
    XorTwice(Rot(one, r), LastByte(c));
    RotBack(one, r);
    XorTwice(Temp(k, x, opc), opc);
    EIsBijection(k, Xor(x, opc));
    XorTwice(x, opc);

    var low := D(k, Xor(x, opc));
    var mid := Rot(Xor(low, LastByte(c)), 16 - r);
    var high := D(k, Xor(mid, opc));
    XorTwice(high, opc);
    EIsBijection(k, Xor(mid, opc));
    XorTwice(mid, opc);
    RotBack(Xor(low, LastByte(c)), r);
    XorTwice(low, LastByte(c));
  }

  /** Different challenges never give the same cipher key, nor the same integrity key. */
  lemma KeysDetermineRand(k: Block, opc: Block, rand: Block, rand': Block)
    ensures Out3(k, rand, opc) == Out3(k, rand', opc) <==> rand == rand'
    ensures Out4(k, rand, opc) == Out4(k, rand', opc) <==> rand == rand'
  {
    hide Out, RandFor;
    OutIsBijection(k, rand, opc, 4, 2);
    OutIsBijection(k, rand', opc, 4, 2);
    OutIsBijection(k, rand, opc, 8, 4);
    OutIsBijection(k, rand', opc, 8, 4);
  }

  lemma XorCommutes(a: Block, b: Block)
    ensures Xor(a, b) == Xor(b, a)
  {
    forall i | 0 <= i < 16
      ensures Xor(a, b)[i] == Xor(b, a)[i]
    {
      AddCommutes(a[i], b[i]);
    }
  }

  /** The sum of a block with a constant block determines the block. */
  lemma XorDetermines(a: Block, b: Block, c: Block)
    ensures Xor(a, c) == Xor(b, c) ==> a == b
    ensures Xor(c, a) == Xor(c, b) ==> a == b
  {
    hide Xor;
    XorTwice(a, c);
    XorTwice(b, c);
    XorCommutes(c, a);
    XorCommutes(c, b);
  }

  lemma EDetermines(k: Block, a: Block, b: Block)
    ensures E(k, a) == E(k, b) ==> a == b
  {
    hide E, D;
    EIsBijection(k, a);
    EIsBijection(k, b);
  }

  /** For a fixed key, challenge and OPc, the pair (MAC-A, MAC-S) determines (SQN, AMF). */
  lemma MacsDetermineSqnAndAmf(k: Block, rand: Block, opc: Block, sqn: Sqn, amf: Amf, sqn': Sqn, amf': Amf)
    ensures
      var out, out' := Out1(k, rand, opc, sqn, amf), Out1(k, rand, opc, sqn', amf');
      out[..8] == out'[..8] && out[8..] == out'[8..] <==> sqn == sqn' && amf == amf'
  {
    hide E, Xor, Rot, In1, Temp, LastByte;
    var out, out' := Out1(k, rand, opc, sqn, amf), Out1(k, rand, opc, sqn', amf');
    if out[..8] == out'[..8] && out[8..] == out'[8..] {
      assert out == out[..8] + out[8..] == out'[..8] + out'[8..] == out';
      var t := Temp(k, rand, opc);
      var in1, in1' := In1(sqn, amf), In1(sqn', amf');
      var r, r' := Rot(Xor(in1, opc), 8), Rot(Xor(in1', opc), 8);
      XorDetermines(E(k, Xor(Xor(t, r), LastByte(0))), E(k, Xor(Xor(t, r'), LastByte(0))), opc);
      EDetermines(k, Xor(Xor(t, r), LastByte(0)), Xor(Xor(t, r'), LastByte(0)));
      XorDetermines(Xor(t, r), Xor(t, r'), LastByte(0));
      XorDetermines(r, r', t);
      RotBack(Xor(in1, opc), 8);
      RotBack(Xor(in1', opc), 8);
      XorDetermines(in1, in1', opc);
      In1Determines(sqn, amf, sqn', amf');
    }
  }

  lemma In1Determines(sqn: Sqn, amf: Amf, sqn': Sqn, amf': Amf)
    ensures In1(sqn, amf) == In1(sqn', amf') ==> sqn == sqn' && amf == amf'
  {
    assert sqn == In1(sqn, amf)[..6] && sqn' == In1(sqn', amf')[..6];
    assert amf == In1(sqn, amf)[6..8] && amf' == In1(sqn', amf')[6..8];
  }

  /** For fixed SQN and AMF the same pair determines the challenge. */
  lemma MacsDetermineRand(k: Block, rand: Block, rand': Block, opc: Block, sqn: Sqn, amf: Amf)
    ensures Out1(k, rand, opc, sqn, amf) == Out1(k, rand', opc, sqn, amf) <==> rand == rand'
  {
    hide E, Xor, Rot, In1, LastByte;
    if Out1(k, rand, opc, sqn, amf) == Out1(k, rand', opc, sqn, amf) {
      var t, t' := Temp(k, rand, opc), Temp(k, rand', opc);
      var r := Rot(Xor(In1(sqn, amf), opc), 8);
      XorDetermines(E(k, Xor(Xor(t, r), LastByte(0))), E(k, Xor(Xor(t', r), LastByte(0))), opc);
      EDetermines(k, Xor(Xor(t, r), LastByte(0)), Xor(Xor(t', r), LastByte(0)));
      XorDetermines(Xor(t, r), Xor(t', r), LastByte(0));
      XorDetermines(t, t', r);
      EDetermines(k, Xor(rand, opc), Xor(rand', opc));
      XorDetermines(rand, rand', opc);
    }
  }

  // ----- The implementation, on byte arrays -----

  /** out[(i + shift) % 16] = a[i] ^ b[i], the loop before each encryption. */
  method XorRotated(a: array<bv8>, b: array<bv8>, shift: nat, out: array<bv8>)
    requires a.Length == b.Length == out.Length == 16 && shift <= 16
    requires out != a && out != b
    modifies out
    ensures out[..] == Rot(Xor(a[..], b[..]), 16 - shift)
  {
    hide Add;
    for i := 0 to 16
      invariant forall j :: 0 <= j < 16 && Source(j, shift) < i ==>
        out[j] == Add(a[Source(j, shift)], b[Source(j, shift)])
    {
      Modulo16(i + shift);
      out[(i + shift) % 16] := Add(a[i], b[i]);
    }
    RotAt(Xor(a[..], b[..]), shift);
  }

  lemma Modulo16(x: nat)
    requires x < 32
    ensures x % 16 == if x < 16 then x else x - 16
  {
  }

  lemma RotAt(x: Block, shift: nat)
    requires shift <= 16
    ensures forall j :: 0 <= j < 16 ==> Rot(x, 16 - shift)[j] == x[Source(j, shift)]
  {
  }

  /** The index whose byte lands at j. */
  ghost function Source(j: nat, shift: nat): (k: nat)
    requires j < 16 && shift <= 16
    ensures k < 16 && (k + shift == j || k + shift == j + 16)
  {
    if j >= shift then j - shift else j + 16 - shift
  }

  /** out[i] ^= b[i]. */
  method XorInto(out: array<bv8>, b: array<bv8>)
    requires out.Length == b.Length == 16
    modifies out
    ensures out[..] == Xor(old(out[..]), old(b[..]))
  {
    hide Add;
    for i := 0 to 16
      invariant forall k :: 0 <= k < 16 ==> out[k] == if k < i then Add(old(out[k]), old(b[k])) else old(out[k])
      invariant forall k :: i <= k < 16 ==> b[k] == old(b[k])
    {
      out[i] := Add(out[i], b[i]);
    }
  }

  /** A block added to itself is zero. */
  lemma XorWithItself(x: Block)
    ensures Xor(x, x) == LastByte(0)
  {
    forall i | 0 <= i < 16
      ensures Xor(x, x)[i] == 0
    {
      AddTwice(x[i], 0);
      AddZero(x[i]);
    }
  }

  method CopySlice(src: array<bv8>, from: nat, dst: array<bv8>)
    requires from + dst.Length <= src.Length && src != dst
    modifies dst
    ensures dst[..] == src[from..from + dst.Length]
  {
    for i := 0 to dst.Length
      invariant forall k :: 0 <= k < i ==> dst[k] == src[from + k]
    {
      dst[i] := src[from + i];
    }
  }

  method BuildIn1(sqn: array<bv8>, amf: array<bv8>) returns (in1: array<bv8>)
    requires sqn.Length == 6 && amf.Length == 2
    ensures fresh(in1) && in1.Length == 16 && in1[..] == In1(sqn[..], amf[..])
  {
    in1 := new bv8[16];
    WriteTwice(in1, 0, sqn);
    WriteTwice(in1, 6, amf);
    assert in1[..6] == sqn[..] && in1[8..14] == sqn[..];
    FourParts(in1[..]);
  }

  /** Writes `part` at `at` and again eight bytes on. */
  method WriteTwice(in1: array<bv8>, at: nat, part: array<bv8>)
    requires in1.Length == 16 && at + part.Length <= 8 && in1 != part
    modifies in1
    ensures in1[at..at + part.Length] == part[..]
    ensures in1[at + 8..at + 8 + part.Length] == part[..]
    ensures in1[..at] == old(in1[..at])
    ensures in1[8..at + 8] == old(in1[8..at + 8])
  {
    for i := 0 to part.Length
      invariant in1[at..at + i] == part[..i]
      invariant in1[at + 8..at + 8 + i] == part[..i]
      invariant in1[..at] == old(in1[..at])
      invariant in1[8..at + 8] == old(in1[8..at + 8])
    {
      in1[at + i] := part[i];
      in1[at + i + 8] := part[i];
    }
  }

  lemma FourParts(x: Block)
    ensures x == x[..6] + x[6..8] + x[8..14] + x[14..]
  {
  }

  /** TEMP, after scheduling the key. */
  method StartBlock(rij: Encryptor, k: array<bv8>, rand: array<bv8>, opc: array<bv8>) returns (temp: array<bv8>)
    requires rij.Valid() && k.Length == rand.Length == opc.Length == 16
    modifies rij.roundKeys
    ensures rij.Keys() == KeyExpansion(k[..])
    ensures fresh(temp) && temp.Length == 16 && temp[..] == Temp(k[..], rand[..], opc[..])
  {
    hide Xor, Encrypt, KeyExpansion;
    rij.KeySchedule(k);
    var input := new bv8[16];
    XorRotated(rand, opc, 0, input);
    assert input[..] == Xor(rand[..], opc[..]) by {
      RotByNothing(Xor(rand[..], opc[..]));
    }
    temp := new bv8[16];
    rij.Encrypt(input, temp);
  }

  lemma RotByNothing(x: Block)
    ensures Rot(x, 16) == x
    ensures Rot(x, 0) == x
  {
  }

  /** The common part of f1 and f1*: the block OUT1. */
  method Out1Block(rij: Encryptor, k: array<bv8>, rand: array<bv8>, sqn: array<bv8>, amf: array<bv8>, opc: array<bv8>)
    returns (out1: array<bv8>)
    requires rij.Valid() && k.Length == rand.Length == opc.Length == 16 && sqn.Length == 6 && amf.Length == 2
    modifies rij.roundKeys
    ensures fresh(out1) && out1.Length == 16
    ensures out1[..] == Out1(k[..], rand[..], opc[..], sqn[..], amf[..])
  {
    hide Xor, Encrypt, KeyExpansion, Rot, In1, LastByte;
    var temp := StartBlock(rij, k, rand, opc);
    var in1 := BuildIn1(sqn, amf);
    var input := new bv8[16];
    XorRotated(in1, opc, 8, input);
    XorInto(input, temp);
    XorCommutes(Rot(Xor(in1[..], opc[..]), 8), temp[..]);
    XorWithZero(input[..]);
    out1 := new bv8[16];
    rij.Encrypt(input, out1);
    XorInto(out1, opc);
  }

  lemma XorWithZero(x: Block)
    ensures Xor(x, LastByte(0)) == x
  {
    forall i | 0 <= i < 16
      ensures Xor(x, LastByte(0))[i] == x[i]
    {
      AddZero(x[i]);
    }
  }

  method F1(rij: Encryptor, k: array<bv8>, rand: array<bv8>, sqn: array<bv8>, amf: array<bv8>,
            macA: array<bv8>, opc: array<bv8>)
    requires rij.Valid() && k.Length == rand.Length == opc.Length == 16
    requires sqn.Length == 6 && amf.Length == 2 && macA.Length == 8
    modifies rij.roundKeys, macA
    ensures macA[..] == Out1(k[..], rand[..], opc[..], sqn[..], amf[..])[..8]
  {
    hide Out1;
    var out1 := Out1Block(rij, k, rand, sqn, amf, opc);
    CopySlice(out1, 0, macA);
  }

  method F1Star(rij: Encryptor, k: array<bv8>, rand: array<bv8>, sqn: array<bv8>, amf: array<bv8>,
                macS: array<bv8>, opc: array<bv8>)
    requires rij.Valid() && k.Length == rand.Length == opc.Length == 16
    requires sqn.Length == 6 && amf.Length == 2 && macS.Length == 8
    modifies rij.roundKeys, macS
    ensures macS[..] == Out1(k[..], rand[..], opc[..], sqn[..], amf[..])[8..]
  {
    hide Out1;
    var out1 := Out1Block(rij, k, rand, sqn, amf, opc);
    CopySlice(out1, 8, macS);
  }

  /** One of OUT2 to OUT5 from TEMP: rotate by writing 16 - r places on, change the last byte, encrypt. */
  method OutBlock(rij: Encryptor, temp: array<bv8>, opc: array<bv8>, r: nat, c: bv8, ghost k: Block)
    returns (out: array<bv8>)
    requires rij.Valid() && temp.Length == opc.Length == 16 && r <= 16 && rij.Keys() == KeyExpansion(k)
    ensures fresh(out) && out.Length == 16 && out[..] == OutFrom(k, temp[..], opc[..], r, c)
  {
    hide Xor, Rot, Encrypt, KeyExpansion, LastByte;
    var input := OutInput(temp, opc, r, c);
    out := new bv8[16];
    rij.Encrypt(input, out);
    XorInto(out, opc);
  }

  /** The block that is encrypted for it. */
  method OutInput(temp: array<bv8>, opc: array<bv8>, r: nat, c: bv8) returns (input: array<bv8>)
    requires temp.Length == opc.Length == 16 && r <= 16
    ensures fresh(input) && input.Length == 16
    ensures input[..] == Xor(Rot(Xor(temp[..], opc[..]), r), LastByte(c))
  {
    hide Xor, Rot, LastByte, Add;
    input := new bv8[16];
    XorRotated(temp, opc, (16 - r) % 16, input);
    RotByNothing(Xor(temp[..], opc[..]));
    ghost var rotated := input[..];
    input[15] := Add(input[15], c);
    XorWithLastByte(rotated, c);
    assert input[..] == rotated[15 := Add(rotated[15], c)];
  }

  lemma XorWithLastByte(x: Block, c: bv8)
    ensures Xor(x, LastByte(c)) == x[15 := Add(x[15], c)]
  {
    forall i | 0 <= i < 15
      ensures Xor(x, LastByte(c))[i] == x[i]
    {
      AddZero(x[i]);
    }
  }

  /** If CK is written over OPc, IK is computed with CK in its place. */
  method F2345(rij: Encryptor, k: array<bv8>, rand: array<bv8>, res: array<bv8>, ck: array<bv8>, ik: array<bv8>,
               ak: array<bv8>, opc: array<bv8>)
    requires rij.Valid() && k.Length == rand.Length == opc.Length == ck.Length == ik.Length == 16
    requires res.Length == 8 && ak.Length == 6
    modifies rij.roundKeys, res, ck, ik, ak
    ensures var out2 := Out2(old(k[..]), old(rand[..]), old(opc[..])); res[..] == out2[8..] && ak[..] == out2[..6]
    ensures ck != ik ==> ck[..] == Out3(old(k[..]), old(rand[..]), old(opc[..]))
    ensures ck != opc ==> ik[..] == Out4(old(k[..]), old(rand[..]), old(opc[..]))
    ensures
      var temp, out3 := Temp(old(k[..]), old(rand[..]), old(opc[..])), Out3(old(k[..]), old(rand[..]), old(opc[..]));
      ck == opc ==> ik[..] == OutFrom(old(k[..]), temp, out3, 8, 4)
  {
    hide OutFrom, KeyExpansion, Temp;
    ghost var key := k[..];
    var temp := StartBlock(rij, k, rand, opc);
    var out := OutBlock(rij, temp, opc, 0, 1, key);
    CopySlice(out, 8, res);
    CopySlice(out, 0, ak);
    out := OutBlock(rij, temp, opc, 4, 2, key);
    CopySlice(out, 0, ck);
    ghost var out3 := out[..];
    assert ck[..] == out3;
    out := OutBlock(rij, temp, opc, 8, 4, key);
    CopySlice(out, 0, ik);
    assert ik[..] == out[..];
  }

  method F5Star(rij: Encryptor, k: array<bv8>, rand: array<bv8>, ak: array<bv8>, opc: array<bv8>)
    requires rij.Valid() && k.Length == rand.Length == opc.Length == 16 && ak.Length == 6
    modifies rij.roundKeys, ak
    ensures ak[..] == Out5(k[..], rand[..], opc[..])[..6]
  {
    hide OutFrom, KeyExpansion, Temp;
    var temp := StartBlock(rij, k, rand, opc);
    var out := OutBlock(rij, temp, opc, 12, 8, k[..]);
    CopySlice(out, 0, ak);
  }

  /** OPc from OP, under the round keys already scheduled; nothing but zeros if it is written over OP. */
  method ComputeOPc(rij: Encryptor, opc: array<bv8>, op: array<bv8>)
    requires rij.Valid() && opc.Length == op.Length == 16
    modifies opc
    ensures opc[..] ==
      if opc == op then LastByte(0) else Xor(Encrypt(rij.Keys(), old(op[..])), old(op[..]))
  {
    hide Xor, Encrypt, LastByte;
    rij.Encrypt(op, opc);
    XorWithItself(opc[..]);
    XorInto(opc, op);
  }
}
