/** The round function as FIPS 46-3 states it, that the code's is the same, and the
    complementation law of DES. */
module DesStandard {
  import opened DesTables
  import opened Des

  // The S-boxes as the standard prints them: by row, then by column.
  const S1: seq<seq<nat>> := [
    [14, 4, 13, 1, 2, 15, 11, 8, 3, 10, 6, 12, 5, 9, 0, 7],
    [0, 15, 7, 4, 14, 2, 13, 1, 10, 6, 12, 11, 9, 5, 3, 8],
    [4, 1, 14, 8, 13, 6, 2, 11, 15, 12, 9, 7, 3, 10, 5, 0],
    [15, 12, 8, 2, 4, 9, 1, 7, 5, 11, 3, 14, 10, 0, 6, 13]
  ]

  const S2: seq<seq<nat>> := [
    [15, 1, 8, 14, 6, 11, 3, 4, 9, 7, 2, 13, 12, 0, 5, 10],
    [3, 13, 4, 7, 15, 2, 8, 14, 12, 0, 1, 10, 6, 9, 11, 5],
    [0, 14, 7, 11, 10, 4, 13, 1, 5, 8, 12, 6, 9, 3, 2, 15],
    [13, 8, 10, 1, 3, 15, 4, 2, 11, 6, 7, 12, 0, 5, 14, 9]
  ]

  const S3: seq<seq<nat>> := [
    [10, 0, 9, 14, 6, 3, 15, 5, 1, 13, 12, 7, 11, 4, 2, 8],
    [13, 7, 0, 9, 3, 4, 6, 10, 2, 8, 5, 14, 12, 11, 15, 1],
    [13, 6, 4, 9, 8, 15, 3, 0, 11, 1, 2, 12, 5, 10, 14, 7],
    [1, 10, 13, 0, 6, 9, 8, 7, 4, 15, 14, 3, 11, 5, 2, 12]
  ]

  const S4: seq<seq<nat>> := [
    [7, 13, 14, 3, 0, 6, 9, 10, 1, 2, 8, 5, 11, 12, 4, 15],
    [13, 8, 11, 5, 6, 15, 0, 3, 4, 7, 2, 12, 1, 10, 14, 9],
    [10, 6, 9, 0, 12, 11, 7, 13, 15, 1, 3, 14, 5, 2, 8, 4],
    [3, 15, 0, 6, 10, 1, 13, 8, 9, 4, 5, 11, 12, 7, 2, 14]
  ]

  const S5: seq<seq<nat>> := [
    [2, 12, 4, 1, 7, 10, 11, 6, 8, 5, 3, 15, 13, 0, 14, 9],
    [14, 11, 2, 12, 4, 7, 13, 1, 5, 0, 15, 10, 3, 9, 8, 6],
    [4, 2, 1, 11, 10, 13, 7, 8, 15, 9, 12, 5, 6, 3, 0, 14],
    [11, 8, 12, 7, 1, 14, 2, 13, 6, 15, 0, 9, 10, 4, 5, 3]
  ]

  const S6: seq<seq<nat>> := [
    [12, 1, 10, 15, 9, 2, 6, 8, 0, 13, 3, 4, 14, 7, 5, 11],
    [10, 15, 4, 2, 7, 12, 9, 5, 6, 1, 13, 14, 0, 11, 3, 8],
    [9, 14, 15, 5, 2, 8, 12, 3, 7, 0, 4, 10, 1, 13, 11, 6],
    [4, 3, 2, 12, 9, 5, 15, 10, 11, 14, 1, 7, 6, 0, 8, 13]
  ]

  const S7: seq<seq<nat>> := [
    [4, 11, 2, 14, 15, 0, 8, 13, 3, 12, 9, 7, 5, 10, 6, 1],
    [13, 0, 11, 7, 4, 9, 1, 10, 14, 3, 5, 12, 2, 15, 8, 6],
    [1, 4, 11, 13, 12, 3, 7, 14, 10, 15, 6, 8, 0, 5, 9, 2],
    [6, 11, 13, 8, 1, 4, 10, 7, 9, 5, 0, 15, 14, 2, 3, 12]
  ]

  const S8: seq<seq<nat>> := [
    [13, 2, 8, 4, 6, 15, 11, 1, 10, 9, 3, 14, 5, 0, 12, 7],
    [1, 15, 13, 8, 10, 3, 7, 4, 12, 5, 6, 11, 0, 14, 9, 2],
    [7, 11, 4, 1, 9, 12, 14, 2, 0, 6, 10, 13, 15, 3, 5, 8],
    [2, 1, 14, 7, 4, 10, 8, 13, 15, 12, 9, 0, 3, 5, 6, 11]
  ]

  const S: seq<seq<seq<nat>>> := [S1, S2, S3, S4, S5, S6, S7, S8]

  /** The permutation P as the standard prints it, counted from 1, in rows of eight. */
  const P_ROWS: seq<seq<nat>> := [
    [16, 7, 20, 21, 29, 12, 28, 17],
    [1, 15, 23, 26, 5, 18, 31, 10],
    [2, 8, 24, 14, 32, 27, 3, 9],
    [19, 13, 30, 6, 22, 11, 4, 25]
  ]

  function P(i: nat): (r: nat)
    requires i < 32
    ensures 1 <= r <= 32
  {
    P_ROWS[i / 8][i % 8]
  }

  // ----- The round function of the standard -----

  type Group = s: seq<bit> | |s| == 6 witness seq(6, _ => 0)

  /** The outer two bits of a group pick the row. */
  function Row(b: Group): (r: nat)
    ensures r < 4
  {
    2 * (b[0] as nat) + b[5]
  }

  /** The inner four bits pick the column. */
  function Column(b: Group): (c: nat)
    ensures c < 16
  {
    8 * (b[1] as nat) + 4 * (b[2] as nat) + 2 * (b[3] as nat) + b[4]
  }

  /** The expansion of a half, by the bit selection table `e`. */
  function Expanded(r: Half, e: Expansion): RoundKey { seq(48, n requires 0 <= n < 48 => r[e[n]]) }

  function XorKey(a: RoundKey, b: RoundKey): RoundKey { seq(48, n requires 0 <= n < 48 => XorBit(a[n], b[n])) }

  function GroupOf(x: RoundKey, i: nat): Group
    requires i < 8
  {
    x[6 * i..6 * i + 6]
  }

  /** A number below 16 as four bits, high bit first. */
  function FourBits(v: nat): (b: seq<bit>)
    ensures |b| == 4
  {
    [v / 8 % 2, v / 4 % 2, v / 2 % 2, v % 2]
  }

  /** Output bit `n` of the S-boxes for the 48 bits `x`. */
  function Selected(x: RoundKey, n: nat): bit
    requires n < 32
  {
    var b := GroupOf(x, n / 4);
    FourBits(S[n / 4][Row(b)][Column(b)])[n % 4]
  }

  /** f(R, K): the expanded half xor the key, group by group through the S-boxes, permuted. */
  function StandardF(r: Half, key: RoundKey, e: Expansion): Half {
    seq(32, i requires 0 <= i < 32 => Selected(XorKey(Expanded(r, e), key), P(i) - 1))
  }

  // ----- The code's round function is the standard's -----

  /** A row of sixteen of the code's box takes by turns from half a row of the standard's
      and from half the next one. */
  predicate Turns(box: seq<nat>, even: seq<nat>, odd: seq<nat>, h: nat) {
    |box| == 16 && |even| == 16 && |odd| == 16 && h <= 8 &&
    box[0] == even[h] && box[1] == odd[h] && box[2] == even[h + 1] && box[3] == odd[h + 1] &&
    box[4] == even[h + 2] && box[5] == odd[h + 2] && box[6] == even[h + 3] && box[7] == odd[h + 3] &&
    box[8] == even[h + 4] && box[9] == odd[h + 4] && box[10] == even[h + 5] && box[11] == odd[h + 5] &&
    box[12] == even[h + 6] && box[13] == odd[h + 6] && box[14] == even[h + 7] && box[15] == odd[h + 7]
  }

  predicate SameBox(box: seq<seq<nat>>, rows: seq<seq<nat>>) {
    |box| == 4 && |rows| == 4 && Turns(box[0], rows[0], rows[1], 0) && Turns(box[1], rows[0], rows[1], 8) &&
    Turns(box[2], rows[2], rows[3], 0) && Turns(box[3], rows[2], rows[3], 8)
  }

  lemma Boxes(i: nat)
    requires i < 8
    ensures SameBox(S_BOX[i], S[i])
  {
    hide SameBox;
    match i
    case 0 => assert SameBox(BOX1, S1) by { Box1(); }
    case 1 => assert SameBox(BOX2, S2) by { Box2(); }
    case 2 => assert SameBox(BOX3, S3) by { Box3(); }
    case 3 => assert SameBox(BOX4, S4) by { Box4(); }
    case 4 => assert SameBox(BOX5, S5) by { Box5(); }
    case 5 => assert SameBox(BOX6, S6) by { Box6(); }
    case 6 => assert SameBox(BOX7, S7) by { Box7(); }
    case 7 => assert SameBox(BOX8, S8) by { Box8(); }
  }

  lemma Box1()
    ensures SameBox(BOX1, S1)
  {
  }

  lemma Box2()
    ensures SameBox(BOX2, S2)
  {
  }

  lemma Box3()
    ensures SameBox(BOX3, S3)
  {
  }

  lemma Box4()
    ensures SameBox(BOX4, S4)
  {
  }

  lemma Box5()
    ensures SameBox(BOX5, S5)
  {
  }

  lemma Box6()
    ensures SameBox(BOX6, S6)
  {
  }

  lemma Box7()
    ensures SameBox(BOX7, S7)
  {
  }

  lemma Box8()
    ensures SameBox(BOX8, S8)
  {
  }

  lemma TurnsAt(box: seq<nat>, even: seq<nat>, odd: seq<nat>, h: nat, c: nat)
    requires Turns(box, even, odd, h) && c < 16
    ensures |box| == |even| == |odd| == 16 && h <= 8 && box[c] == (if c % 2 == 0 then even else odd)[h + c / 2]
  {
  }

  lemma SameBoxAt(box: seq<seq<nat>>, rows: seq<seq<nat>>, v: nat)
    requires SameBox(box, rows) && v < 64
    ensures |rows[v / 32 * 2 + v % 2]| == 16 && |box[v / 16]| == 16
    ensures box[v / 16][v % 16] == rows[v / 32 * 2 + v % 2][v / 2 % 16]
  {
    hide Turns;
    var q, c := v / 16, v % 16;
    TurnsAt(box[q], rows[q / 2 * 2], rows[q / 2 * 2 + 1], q % 2 * 8, c);
    Digits(v);
  }

  lemma Digits(v: nat)
    requires v < 64
    ensures var q, c := v / 16, v % 16; v / 32 == q / 2 && v % 2 == c % 2 && v / 2 % 16 == q % 2 * 8 + c / 2
  {
  }

  /** The code's S-boxes are the standard's with each pair of rows interleaved. */
  lemma SboxIs(i: nat, v: nat)
    requires i < 8 && v < 64
    ensures |S[i]| == 4 && |S[i][v / 32 * 2 + v % 2]| == 16
    ensures Sbox(i, v) == S[i][v / 32 * 2 + v % 2][v / 2 % 16]
  {
    Boxes(i);
    SameBoxAt(S_BOX[i], S[i], v);
  }

  // ----- The code's round function is the standard's -----

  lemma NumberOfGroup(r: Half, key: RoundKey, e: Expansion, i: nat)
    requires i < 8
    ensures var b, v := GroupOf(XorKey(Expanded(r, e), key), i), Number(r, key, e, i, 6);
      v / 32 * 2 + v % 2 == Row(b) && v / 2 % 16 == Column(b)
  {
    var b := GroupOf(XorKey(Expanded(r, e), key), i);
    forall j | 0 <= j < 6 ensures Mixed(r, key, e, 6 * i + j) == b[j] {}
    hide Mixed, GroupOf;
    var v1 := Number(r, key, e, i, 1);
    assert v1 == b[0];
    var v2 := Number(r, key, e, i, 2);
    assert v2 == 2 * v1 + b[1];
    var v3 := Number(r, key, e, i, 3);
    assert v3 == 2 * v2 + b[2];
    var v4 := Number(r, key, e, i, 4);
    assert v4 == 2 * v3 + b[3];
    var v5 := Number(r, key, e, i, 5);
    assert v5 == 2 * v4 + b[4];
    assert Number(r, key, e, i, 6) == 2 * v5 + b[5];
  }

  lemma PermIs(i: nat)
    requires i < 32
    ensures Perm(i) == P(i) - 1
  {
    var r, c := i / 8, i % 8;
    assert PERM_ROWS[r][c] == P_ROWS[r][c] - 1;
  }

  /** The code's round function is f of the standard, for every half, round key and
      expansion table. */
  lemma RoundFunctionIs(r: Half, key: RoundKey, e: Expansion)
    ensures F(r, key, e) == StandardF(r, key, e)
  {
    forall n: nat | n < 32 ensures Substituted(r, key, e, n) == Selected(XorKey(Expanded(r, e), key), n) {
      SelectedIs(r, key, e, n);
    }
    forall i: nat | i < 32 ensures Perm(i) == P(i) - 1 { PermIs(i); }
    hide Substituted, Selected, Perm, P;
    assert forall i :: 0 <= i < 32 ==> F(r, key, e)[i] == StandardF(r, key, e)[i];
  }

  lemma SelectedIs(r: Half, key: RoundKey, e: Expansion, n: nat)
    requires n < 32
    ensures Substituted(r, key, e, n) == Selected(XorKey(Expanded(r, e), key), n)
  {
    NumberOfGroup(r, key, e, n / 4);
    hide Number, GroupOf, XorKey, Row, Column, Sbox;
    SboxIs(n / 4, Number(r, key, e, n / 4, 6));
  }

  // ----- The whole cipher of the standard -----

  /** The initial permutation IP as the standard prints it, counted from 1. */
  const IP_PRINTED: seq<seq<nat>> := [
    [58, 50, 42, 34, 26, 18, 10, 2],
    [60, 52, 44, 36, 28, 20, 12, 4],
    [62, 54, 46, 38, 30, 22, 14, 6],
    [64, 56, 48, 40, 32, 24, 16, 8],
    [57, 49, 41, 33, 25, 17, 9, 1],
    [59, 51, 43, 35, 27, 19, 11, 3],
    [61, 53, 45, 37, 29, 21, 13, 5],
    [63, 55, 47, 39, 31, 23, 15, 7]
  ]

  /** Its inverse, as the standard prints it. */
  const FP_PRINTED: seq<seq<nat>> := [
    [40, 8, 48, 16, 56, 24, 64, 32],
    [39, 7, 47, 15, 55, 23, 63, 31],
    [38, 6, 46, 14, 54, 22, 62, 30],
    [37, 5, 45, 13, 53, 21, 61, 29],
    [36, 4, 44, 12, 52, 20, 60, 28],
    [35, 3, 43, 11, 51, 19, 59, 27],
    [34, 2, 42, 10, 50, 18, 58, 26],
    [33, 1, 41, 9, 49, 17, 57, 25]
  ]

  function InitialBit(i: nat): (r: nat)
    requires i < 64
    ensures 1 <= r <= 64
  {
    IP_PRINTED[i / 8][i % 8]
  }

  function FinalBit(i: nat): (r: nat)
    requires i < 64
    ensures 1 <= r <= 64
  {
    FP_PRINTED[i / 8][i % 8]
  }

  /** The halves after the rounds under `keys`: each new left half is the old right one, and
      each new right half the old left one xor f. */
  function StandardRounds(l: Half, r: Half, keys: seq<RoundKey>, e: Expansion): (Half, Half) {
    if keys == [] then (l, r)
    else
      var (l', r') := StandardRounds(l, r, keys[..|keys| - 1], e);
      (r', Xor(l', StandardF(r', keys[|keys| - 1], e)))
  }

  /** Enciphering: the permuted input is cut into a left and a right half, and the last right
      half goes before the last left one when the permutation is undone. */
  function Enciphered(b: Block, keys: seq<RoundKey>, e: Expansion): Block {
    var input: seq<bit> := seq(64, i requires 0 <= i < 64 => b[InitialBit(i) - 1]);
    var (l, r) := StandardRounds(input[..32], input[32..], keys, e);
    var output: seq<bit> := r + l;
    seq(64, i requires 0 <= i < 64 => output[FinalBit(i) - 1])
  }

  lemma InitialIs(i: nat)
    requires i < 64
    ensures Ip(i) == InitialBit(i) - 1
  {
    var r, c := i / 8, i % 8;
    assert IP_ROWS[r][c] == IP_PRINTED[r][c] - 1;
  }

  lemma FinalRow(r: nat, c: nat)
    requires r < 8 && c < 8
    ensures |FP_PRINTED| == 8 && |FP_PRINTED[r]| == 8
    ensures FP_PRINTED[r][c] == (if c % 2 == 0 then 40 + 4 * c else 4 + 4 * c) - r
  {
  }

  lemma FinalIs(i: nat)
    requires i < 64
    ensures Ep(i) == (FinalBit(i) - 1 + 32) % 64
  {
    EpIs(i);
    FinalRow(i / 8, i % 8);
  }

  lemma {:induction false} RoundsAre(l: Half, r: Half, keys: seq<RoundKey>, e: Expansion)
    ensures Rounds(l, r, keys, e) == StandardRounds(l, r, keys, e)
    decreases |keys|
  {
    hide F, Xor, StandardF;
    if keys != [] {
      var init, last := keys[..|keys| - 1], keys[|keys| - 1];
      var (l', r') := Rounds(l, r, init, e);
      RoundsAre(l, r, init, e);
      assert keys == init + [last];
      RoundsConcat(l, r, init, [last], e);
      RoundFunctionIs(r', last, e);
      assert [last][1..] == [];
      assert Rounds(l', r', [last], e) == (r', Xor(l', F(r', last, e)));
    }
  }

  /** The code's cipher is the standard's, for every block, schedule and expansion table. */
  lemma CipherIs(b: Block, keys: seq<RoundKey>, e: Expansion)
    ensures Crypted(b, keys, e) == Enciphered(b, keys, e)
  {
    var input: seq<bit> := seq(64, i requires 0 <= i < 64 => b[InitialBit(i) - 1]);
    var (l, r) := InitialHalves(b);
    forall i | 0 <= i < 64 ensures Ip(i) == InitialBit(i) - 1 && Ep(i) == (FinalBit(i) - 1 + 32) % 64 {
      InitialIs(i);
      FinalIs(i);
    }
    hide Ip, Ep, InitialBit, FinalBit, StandardF, F, Rounds, StandardRounds;
    assert l == input[..32] && r == input[32..];
    RoundsAre(l, r, keys, e);
    var (l', r') := Rounds(l, r, keys, e);
    FinalBlockIs(l', r');
  }

  lemma FinalBlockIs(l: Half, r: Half)
    ensures var output: seq<bit> := r + l;
      FinalBlock(l, r) == seq(64, i requires 0 <= i < 64 => output[FinalBit(i) - 1])
  {
    hide Ep, FinalBit;
    var output: seq<bit>, block := r + l, FinalBlock(l, r);
    forall i | 0 <= i < 64 ensures block[i] == output[FinalBit(i) - 1] {
      FinalIs(i);
      var k := FinalBit(i) - 1;
      assert output[k] == if k < 32 then r[k] else l[k - 32];
    }
  }

  // ----- Complementation -----

  function Not(s: seq<bit>): (r: seq<bit>)
    ensures |r| == |s| && forall i :: 0 <= i < |s| ==> r[i] == 1 - s[i]
  {
    seq(|s|, i requires 0 <= i < |s| => 1 - s[i])
  }

  function NotKeys(keys: seq<RoundKey>): (r: seq<RoundKey>)
    ensures |r| == |keys| && forall i :: 0 <= i < |keys| ==> r[i] == Not(keys[i])
  {
    seq(|keys|, i requires 0 <= i < |keys| => Not(keys[i]))
  }

  /** The half and the round key only count where they differ. */
  lemma NotRound(r: Half, key: RoundKey, e: Expansion)
    ensures StandardF(Not(r), Not(key), e) == StandardF(r, key, e)
  {
    hide Selected, P;
    var a, b := XorKey(Expanded(Not(r), e), Not(key)), XorKey(Expanded(r, e), key);
    assert a == b by {
      forall n | 0 <= n < 48 ensures a[n] == b[n] {}
    }
  }

  lemma NotXor(a: Half, b: Half)
    ensures Xor(Not(a), b) == Not(Xor(a, b))
  {
    var x, y := Xor(Not(a), b), Not(Xor(a, b));
    assert forall i :: 0 <= i < 32 ==> x[i] == y[i];
  }

  lemma {:induction false} NotRounds(l: Half, r: Half, keys: seq<RoundKey>, e: Expansion)
    ensures var (l', r') := Rounds(l, r, keys, e);
      Rounds(Not(l), Not(r), NotKeys(keys), e) == (Not(l'), Not(r'))
    decreases |keys|
  {
    hide F, Xor, StandardF;
    if keys != [] {
      var f := F(r, keys[0], e);
      RoundFunctionIs(r, keys[0], e);
      RoundFunctionIs(Not(r), Not(keys[0]), e);
      NotRound(r, keys[0], e);
      NotXor(l, f);
      assert NotKeys(keys)[1..] == NotKeys(keys[1..]);
      NotRounds(r, Xor(l, f), keys[1..], e);
    }
  }

  lemma NotHalves(b: Block)
    ensures var (l, r) := InitialHalves(b); InitialHalves(Not(b)) == (Not(l), Not(r))
  {
    hide Ip;
    var (l, r) := InitialHalves(b);
    assert InitialHalves(Not(b)).0 == Not(l) && InitialHalves(Not(b)).1 == Not(r);
  }

  lemma NotFinal(l: Half, r: Half)
    ensures FinalBlock(Not(l), Not(r)) == Not(FinalBlock(l, r))
  {
    hide Ep;
    assert Not(l) + Not(r) == Not(l + r);
    var x, y := FinalBlock(Not(l), Not(r)), Not(FinalBlock(l, r));
    assert forall i :: 0 <= i < 64 ==> x[i] == y[i];
  }

  /** Encrypting the complement under complemented round keys gives the complement, for
      every block, schedule and expansion. */
  lemma Complementation(b: Block, keys: seq<RoundKey>, e: Expansion)
    ensures Crypted(Not(b), NotKeys(keys), e) == Not(Crypted(b, keys, e))
  {
    hide InitialHalves, FinalBlock, Rounds;
    var (l, r) := InitialHalves(b);
    var (l', r') := Rounds(l, r, keys, e);
    NotHalves(b);
    NotRounds(l, r, keys, e);
    NotFinal(l', r');
  }

  // ----- Complementing the key -----

  lemma {:induction false} NotRotated(c: KeyHalf, n: nat)
    ensures Rotated(Not(c), n) == Not(Rotated(c, n))
  {
    if n > 0 {
      NotRotated(c, n - 1);
      var x, y := RotateLeft(Not(Rotated(c, n - 1)), Shift(n - 1)), Not(RotateLeft(Rotated(c, n - 1), Shift(n - 1)));
      assert forall i :: 0 <= i < 28 ==> x[i] == y[i];
    }
  }

  /** The round keys of a complemented key are the complemented round keys, so that the
      law holds for the cipher as a whole. */
  lemma NotStandardKey(key: Block, i: nat)
    ensures StandardKey(Not(key), i) == Not(StandardKey(key, i))
  {
    hide Pc1, Pc2, Rotated;
    assert HalfC(Not(key)) == Not(HalfC(key)) && HalfD(Not(key)) == Not(HalfD(key));
    NotRotated(HalfC(key), i + 1);
    NotRotated(HalfD(key), i + 1);
    var c: seq<bit>, d: seq<bit> := Rotated(HalfC(key), i + 1), Rotated(HalfD(key), i + 1);
    assert Not(c) + Not(d) == Not(c + d);
    var x, y := StandardKey(Not(key), i), Not(StandardKey(key, i));
    assert forall j :: 0 <= j < 48 ==> x[j] == y[j];
  }

  /** The schedule of a key, in the order encryption uses it. */
  function Schedule(key: Block): (keys: seq<RoundKey>)
    ensures |keys| == 16
  {
    seq(16, i requires 0 <= i < 16 => StandardKey(key, i))
  }

  lemma KeyComplementation(b: Block, key: Block, e: Expansion)
    ensures Crypted(Not(b), Schedule(Not(key)), e) == Not(Crypted(b, Schedule(key), e))
  {
    hide StandardKey, Crypted;
    forall i: nat | i < 16 ensures StandardKey(Not(key), i) == Not(StandardKey(key, i)) { NotStandardKey(key, i); }
    assert Schedule(Not(key)) == NotKeys(Schedule(key));
    Complementation(b, Schedule(key), e);
  }
}
