/** The in-place encryptor: 4x4 byte arrays, the global table of round keys, and the proof that what it
    computes is the cipher of FIPS 197. */
module Rijndael {
  import opened GaloisField
  import opened MixColumn
  import opened Cipher

  /** Column `j` of a 4x4 array indexed [row, column]. */
  ghost function GridColumn(a: array2<bv8>, j: nat): Column
    requires a.Length0 == 4 && a.Length1 == 4 && j < 4
    reads a
  {
    Column(a[0, j], a[1, j], a[2, j], a[3, j])
  }

  ghost function Grid(a: array2<bv8>): State
    requires a.Length0 == 4 && a.Length1 == 4
    reads a
  {
    State(GridColumn(a, 0), GridColumn(a, 1), GridColumn(a, 2), GridColumn(a, 3))
  }

  method ByteSub(state: array2<bv8>)
    requires state.Length0 == 4 && state.Length1 == 4
    modifies state
    ensures Grid(state) == SubBytes(old(Grid(state)))
  {
    for i := 0 to 4
      invariant forall p, q :: 0 <= p < 4 && 0 <= q < 4 ==>
        state[p, q] == if p < i then SBox(old(state[p, q])) else old(state[p, q])
    {
      for j := 0 to 4
        invariant forall p, q :: 0 <= p < 4 && 0 <= q < 4 ==>
          state[p, q] == if p < i || (p == i && q < j) then SBox(old(state[p, q])) else old(state[p, q])
      {
        state[i, j] := SBox(state[i, j]);
      }
    }
  }

  /** Every row but `row` is as it was. */
  twostate predicate OtherRowsKept(state: array2<bv8>, row: int)
    requires state.Length0 == 4 && state.Length1 == 4
    reads state
  {
    forall p, q :: 0 <= p < 4 && 0 <= q < 4 && p != row ==> state[p, q] == old(state[p, q])
  }

  method ShiftRow(state: array2<bv8>)
    requires state.Length0 == 4 && state.Length1 == 4
    modifies state
    ensures Grid(state) == ShiftRows(old(Grid(state)))
  {
    RotateRow1(state);
    RotateRow2(state);
    RotateRow3(state);
  }

  method RotateRow1(state: array2<bv8>)
    requires state.Length0 == 4 && state.Length1 == 4
    modifies state
    ensures OtherRowsKept(state, 1)
    ensures forall q :: 0 <= q < 4 ==> state[1, q] == old(state[1, (q + 1) % 4])
  {
    var temp := state[1, 0];
    state[1, 0] := state[1, 1];
    state[1, 1] := state[1, 2];
    state[1, 2] := state[1, 3];
    state[1, 3] := temp;
  }

  method RotateRow2(state: array2<bv8>)
    requires state.Length0 == 4 && state.Length1 == 4
    modifies state
    ensures OtherRowsKept(state, 2)
    ensures forall q :: 0 <= q < 4 ==> state[2, q] == old(state[2, (q + 2) % 4])
  {
    var temp := state[2, 0];
    state[2, 0] := state[2, 2];
    state[2, 2] := temp;
    temp := state[2, 1];
    state[2, 1] := state[2, 3];
    state[2, 3] := temp;
  }

  method RotateRow3(state: array2<bv8>)
    requires state.Length0 == 4 && state.Length1 == 4
    modifies state
    ensures OtherRowsKept(state, 3)
    ensures forall q :: 0 <= q < 4 ==> state[3, q] == old(state[3, (q + 3) % 4])
  {
    var temp := state[3, 0];
    state[3, 0] := state[3, 3];
    state[3, 3] := state[3, 2];
    state[3, 2] := state[3, 1];
    state[3, 1] := temp;
  }

  lemma ColumnSumRotates(a: bv8, b: bv8, c: bv8, d: bv8)
    ensures Add(Add(Add(a, b), c), d) == Add(Add(Add(b, c), d), a)
  {
    AddAssociative(a, b, c);
    AddAssociative(a, Add(b, c), d);
    AddCommutes(a, Add(Add(b, c), d));
  }

  method MixColumnInPlace(state: array2<bv8>)
    requires state.Length0 == 4 && state.Length1 == 4
    modifies state
    ensures Grid(state) == MixColumns(old(Grid(state)))
  {
    hide MixWord;
    for i := 0 to 4
      invariant forall q :: 0 <= q < 4 ==>
        GridColumn(state, q) == if q < i then MixWord(old(GridColumn(state, q))) else old(GridColumn(state, q))
    {
      MixOneColumn(state, i);
    }
  }

  method MixOneColumn(state: array2<bv8>, i: nat)
    requires state.Length0 == 4 && state.Length1 == 4 && i < 4
    modifies state
    ensures GridColumn(state, i) == MixWord(old(GridColumn(state, i)))
    ensures forall q :: 0 <= q < 4 && q != i ==> GridColumn(state, q) == old(GridColumn(state, q))
  {
    hide MixWord, XtimeTable, Add;
    var temp := Add(Add(Add(state[0, i], state[1, i]), state[2, i]), state[3, i]);
    var tmp0 := state[0, i];
    var tmp := XtimeTable(Add(state[0, i], state[1, i]));
    state[0, i] := Add(state[0, i], Add(temp, tmp));
    tmp := XtimeTable(Add(state[1, i], state[2, i]));
    state[1, i] := Add(state[1, i], Add(temp, tmp));
    tmp := XtimeTable(Add(state[2, i], state[3, i]));
    state[2, i] := Add(state[2, i], Add(temp, tmp));
    tmp := XtimeTable(Add(state[3, i], tmp0));
    state[3, i] := Add(state[3, i], Add(temp, tmp));
    MixedColumn(old(GridColumn(state, i)), GridColumn(state, i));
  }

  /** A column after the four in-place updates, in terms of the column before them. */
  lemma MixedColumn(w: Column, n: Column)
    requires
      var sum := Add(Add(Add(w.b0, w.b1), w.b2), w.b3);
      n == Column(Add(w.b0, Add(sum, XtimeTable(Add(w.b0, w.b1)))), Add(w.b1, Add(sum, XtimeTable(Add(w.b1, w.b2)))),
                  Add(w.b2, Add(sum, XtimeTable(Add(w.b2, w.b3)))), Add(w.b3, Add(sum, XtimeTable(Add(w.b3, w.b0)))))
    ensures n == MixWord(w)
  {
    ColumnSumRotates(w.b0, w.b1, w.b2, w.b3);
    ColumnSumRotates(w.b1, w.b2, w.b3, w.b0);
    ColumnSumRotates(w.b2, w.b3, w.b0, w.b1);
    ColumnSumIsMix(w.b0, w.b1, w.b2, w.b3);
    ColumnSumIsMix(w.b1, w.b2, w.b3, w.b0);
    ColumnSumIsMix(w.b2, w.b3, w.b0, w.b1);
    ColumnSumIsMix(w.b3, w.b0, w.b1, w.b2);
  }

  /** The encryptor's one global: round keys indexed [round, row, column]. */
  class Encryptor {
    const roundKeys: array3<bv8>

    ghost predicate Valid() {
      roundKeys.Length0 == 11 && roundKeys.Length1 == 4 && roundKeys.Length2 == 4
    }

    constructor ()
      ensures Valid() && fresh(roundKeys)
    {
      roundKeys := new bv8[11, 4, 4];
    }

    ghost function KeyColumn(r: nat, j: nat): Column
      requires Valid() && r < 11 && j < 4
      reads roundKeys
    {
      Column(roundKeys[r, 0, j], roundKeys[r, 1, j], roundKeys[r, 2, j], roundKeys[r, 3, j])
    }

    ghost function KeyAt(r: nat): State
      requires Valid() && r < 11
      reads roundKeys
    {
      State(KeyColumn(r, 0), KeyColumn(r, 1), KeyColumn(r, 2), KeyColumn(r, 3))
    }

    ghost function Keys(): RoundKeys
      requires Valid()
      reads roundKeys
    {
      seq(11, r requires 0 <= r < 11 reads roundKeys => KeyAt(r))
    }

    method KeyAdd(state: array2<bv8>, round: nat)
      requires Valid() && state.Length0 == 4 && state.Length1 == 4 && round < 11
      modifies state
      ensures Grid(state) == AddRoundKey(old(Grid(state)), KeyAt(round))
    {
      for i := 0 to 4
        invariant forall p, q :: 0 <= p < 4 && 0 <= q < 4 ==>
          state[p, q] == if p < i then Add(old(state[p, q]), roundKeys[round, p, q]) else old(state[p, q])
      {
        for j := 0 to 4
          invariant forall p, q :: 0 <= p < 4 && 0 <= q < 4 ==>
            state[p, q] == if p < i || (p == i && q < j) then Add(old(state[p, q]), roundKeys[round, p, q])
                           else old(state[p, q])
        {
          state[i, j] := Add(state[i, j], roundKeys[round, i, j]);
        }
      }
    }

    /** Fills the table from the key; nothing of its earlier contents survives. */
    method KeySchedule(key: array<bv8>)
      requires Valid() && key.Length == 16
      modifies roundKeys
      ensures Keys() == KeyExpansion(key[..])
    {
      hide RoundKey, AddWord, SubWord, RotWord, XtimeTable, PowerOfX;
      for i := 0 to 16
        invariant forall k :: 0 <= k < i ==> roundKeys[0, k % 4, k / 4] == key[k]
      {
        roundKeys[0, i % 4, i / 4] := key[i];
      }
      FirstKey(key[..]);
      var roundConst: bv8 := 1;
      FirstRoundConstant();
      for i := 1 to 11
        invariant roundConst == PowerOfX(i - 1)
        invariant forall r :: 0 <= r < i ==> KeyAt(r) == RoundKey(key[..], r)
      {
        NextKey(i, roundConst);
        RoundKeyStep(key[..], i);
        roundConst := XtimeTable(roundConst);
        NextRoundConstant(i);
      }
    }

    lemma FirstKey(key: Block)
      requires Valid()
      requires forall k :: 0 <= k < 16 ==> roundKeys[0, k % 4, k / 4] == key[k]
      ensures KeyAt(0) == RoundKey(key, 0)
    {
      forall k | 0 <= k < 16
        ensures roundKeys[0, k % 4, k / 4] == key[k]
      {
      }
    }

    /** One pass of the outer loop: round key i from round key i-1. */
    method NextKey(i: nat, roundConst: bv8)
      requires Valid() && 1 <= i < 11
      modifies roundKeys
      ensures forall r :: 0 <= r < 11 && r != i ==> KeyAt(r) == old(KeyAt(r))
      ensures
        var p, n := KeyAt(i - 1), KeyAt(i);
        && n.c0 == AddWord(p.c0, AddWord(SubWord(RotWord(p.c3)), Column(roundConst, 0, 0, 0)))
        && n.c1 == AddWord(p.c1, n.c0)
        && n.c2 == AddWord(p.c2, n.c1)
        && n.c3 == AddWord(p.c3, n.c2)
    {
      hide SBox, Add, SubWord;
      ghost var p := KeyAt(i - 1);
      NextFirstColumn(i, roundConst);
      ghost var first := KeyColumn(i, 0);
      NextFirstWord(p, first, roundConst);
      for j := 0 to 4
        invariant forall r, x, y :: 0 <= r < 11 && r != i && 0 <= x < 4 && 0 <= y < 4 ==>
          roundKeys[r, x, y] == old(roundKeys[r, x, y])
        invariant KeyColumn(i, 0) == first
        invariant forall x :: 0 <= x < j ==> RowFollows(i, x)
      {
        NextRow(i, j);
      }
      assert RowFollows(i, 0) && RowFollows(i, 1) && RowFollows(i, 2) && RowFollows(i, 3);
    }

    /** Columns 1 to 3 of row x of round key i are running sums with the row before. */
    ghost predicate RowFollows(i: nat, x: nat)
      requires Valid() && 1 <= i < 11 && x < 4
      reads roundKeys
    {
      && roundKeys[i, x, 1] == Add(roundKeys[i - 1, x, 1], roundKeys[i, x, 0])
      && roundKeys[i, x, 2] == Add(roundKeys[i - 1, x, 2], roundKeys[i, x, 1])
      && roundKeys[i, x, 3] == Add(roundKeys[i - 1, x, 3], roundKeys[i, x, 2])
    }

    method NextRow(i: nat, j: nat)
      requires Valid() && 1 <= i < 11 && j < 4
      modifies roundKeys
      ensures forall r, x, y :: 0 <= r < 11 && 0 <= x < 4 && 0 <= y < 4 && (r != i || x != j || y == 0) ==>
        roundKeys[r, x, y] == old(roundKeys[r, x, y])
      ensures RowFollows(i, j)
      ensures forall x :: 0 <= x < 4 && x != j && old(RowFollows(i, x)) ==> RowFollows(i, x)
    {
      hide Add;
      roundKeys[i, j, 1] := Add(roundKeys[i - 1, j, 1], roundKeys[i, j, 0]);
      roundKeys[i, j, 2] := Add(roundKeys[i - 1, j, 2], roundKeys[i, j, 1]);
      roundKeys[i, j, 3] := Add(roundKeys[i - 1, j, 3], roundKeys[i, j, 2]);
    }

    method NextFirstColumn(i: nat, roundConst: bv8)
      requires Valid() && 1 <= i < 11
      modifies roundKeys
      ensures forall r, x, y :: 0 <= r < 11 && r != i && 0 <= x < 4 && 0 <= y < 4 ==>
        roundKeys[r, x, y] == old(roundKeys[r, x, y])
      ensures
        var p, n := KeyAt(i - 1), KeyColumn(i, 0);
        n == Column(Add(Add(SBox(p.c3.b1), p.c0.b0), roundConst), Add(SBox(p.c3.b2), p.c0.b1),
                    Add(SBox(p.c3.b3), p.c0.b2), Add(SBox(p.c3.b0), p.c0.b3))
    {
      hide SBox, Add;
      roundKeys[i, 0, 0] := Add(Add(SBox(roundKeys[i - 1, 1, 3]), roundKeys[i - 1, 0, 0]), roundConst);
      roundKeys[i, 1, 0] := Add(SBox(roundKeys[i - 1, 2, 3]), roundKeys[i - 1, 1, 0]);
      roundKeys[i, 2, 0] := Add(SBox(roundKeys[i - 1, 3, 3]), roundKeys[i - 1, 2, 0]);
      roundKeys[i, 3, 0] := Add(SBox(roundKeys[i - 1, 0, 3]), roundKeys[i - 1, 3, 0]);
    }

    /** Encrypts under whatever round keys the table holds. */
    method Encrypt(input: array<bv8>, output: array<bv8>)
      requires Valid() && input.Length == 16 && output.Length == 16
      modifies output
      ensures output[..] == Cipher.Encrypt(Keys(), old(input[..]))
    {
      hide LastRound, FullRound, AddRoundKey, SubBytes, ShiftRows, MixColumns, StateOf, BytesOf, Grid;
      ghost var block := input[..];
      var state := new bv8[4, 4];
      for i := 0 to 16
        modifies state
        invariant forall k :: 0 <= k < i ==> state[k % 4, k / 4] == input[k]
      {
        state[i % 4, i / 4] := input[i];
      }
      FilledGrid(state, block);
      AllRounds(state);
      for i := 0 to 16
        modifies output
        invariant forall k :: 0 <= k < i ==> output[k] == state[k % 4, k / 4]
      {
        output[i] := state[i % 4, i / 4];
      }
      UnfilledGrid(state, output[..]);
    }

    method AllRounds(state: array2<bv8>)
      requires Valid() && state.Length0 == 4 && state.Length1 == 4
      modifies state
      ensures Grid(state) == LastRound(Rounds(Keys(), 9, old(Grid(state))), Keys()[10])
    {
      hide LastRound, FullRound, AddRoundKey, SubBytes, ShiftRows, MixColumns, Grid, KeyAt;
      ghost var keys, start := Keys(), Grid(state);
      KeyAdd(state, 0);
      var r := 1;
      while r <= 9
        invariant 1 <= r <= 10
        invariant Grid(state) == Rounds(keys, r - 1, start)
      {
        ByteSub(state);
        ShiftRow(state);
        MixColumnInPlace(state);
        KeyAdd(state, r);
        FullRoundIs(Rounds(keys, r - 1, start), keys[r], Grid(state));
        r := r + 1;
      }
      ByteSub(state);
      ShiftRow(state);
      KeyAdd(state, r);
      LastRoundIs(Rounds(keys, 9, start), keys[10], Grid(state));
    }
  }

  lemma FullRoundIs(s: State, k: State, n: State)
    requires n == AddRoundKey(MixColumns(ShiftRows(SubBytes(s))), k)
    ensures n == FullRound(s, k)
  {
  }

  lemma LastRoundIs(s: State, k: State, n: State)
    requires n == AddRoundKey(ShiftRows(SubBytes(s)), k)
    ensures n == LastRound(s, k)
  {
  }

  lemma FilledGrid(a: array2<bv8>, s: Block)
    requires a.Length0 == 4 && a.Length1 == 4
    requires forall k :: 0 <= k < 16 ==> a[k % 4, k / 4] == s[k]
    ensures Grid(a) == StateOf(s)
  {
    forall k | 0 <= k < 16
      ensures a[k % 4, k / 4] == s[k]
    {
    }
  }

  lemma UnfilledGrid(a: array2<bv8>, s: Block)
    requires a.Length0 == 4 && a.Length1 == 4
    requires forall k :: 0 <= k < 16 ==> s[k] == a[k % 4, k / 4]
    ensures s == BytesOf(Grid(a))
  {
    FilledGrid(a, s);
    BytesOfState(s);
  }

  lemma NextFirstWord(p: State, n: Column, roundConst: bv8)
    requires n == Column(Add(Add(SBox(p.c3.b1), p.c0.b0), roundConst), Add(SBox(p.c3.b2), p.c0.b1),
                         Add(SBox(p.c3.b3), p.c0.b2), Add(SBox(p.c3.b0), p.c0.b3))
    ensures n == AddWord(p.c0, AddWord(SubWord(RotWord(p.c3)), Column(roundConst, 0, 0, 0)))
  {
    hide SBox;
    AddCommutes(SBox(p.c3.b1), p.c0.b0);
    AddAssociative(p.c0.b0, SBox(p.c3.b1), roundConst);
    AddCommutes(SBox(p.c3.b2), p.c0.b1);
    AddCommutes(SBox(p.c3.b3), p.c0.b2);
    AddCommutes(SBox(p.c3.b0), p.c0.b3);
    AddZero(SBox(p.c3.b2));
    AddZero(SBox(p.c3.b3));
    AddZero(SBox(p.c3.b0));
  }

  lemma FirstRoundConstant()
    ensures PowerOfX(0) == 1
  {
  }

  lemma NextRoundConstant(i: nat)
    requires i >= 1
    ensures XtimeTable(PowerOfX(i - 1)) == PowerOfX(i)
  {
    XtimeIsTimes2(PowerOfX(i - 1));
    MulBy2(PowerOfX(i - 1));
  }
}
