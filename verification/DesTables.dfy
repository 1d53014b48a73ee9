/** The tables of DES (FIPS 46-3, counted from 0), as libwzd-auth/wzd_crypt.c has
    them, in rows of eight. */
module DesTables {
  type Pos32 = x: int | 0 <= x < 32
  type Pos56 = x: int | 0 <= x < 56
  type Pos64 = x: int | 0 <= x < 64

  /** Permuted choice 1: key bits to the two 28-bit halves. */
  const PC1_ROWS: seq<seq<Pos64>> := [
    [56, 48, 40, 32, 24, 16, 8, 0],
    [57, 49, 41, 33, 25, 17, 9, 1],
    [58, 50, 42, 34, 26, 18, 10, 2],
    [59, 51, 43, 35, 62, 54, 46, 38],
    [30, 22, 14, 6, 61, 53, 45, 37],
    [29, 21, 13, 5, 60, 52, 44, 36],
    [28, 20, 12, 4, 27, 19, 11, 3]
  ]

  /** Permuted choice 2: the halves to a round key. */
  const PC2_ROWS: seq<seq<Pos56>> := [
    [13, 16, 10, 23, 0, 4, 2, 27],
    [14, 5, 20, 9, 22, 18, 11, 3],
    [25, 7, 15, 6, 26, 19, 12, 1],
    [40, 51, 30, 36, 46, 54, 29, 39],
    [50, 44, 32, 47, 43, 48, 38, 55],
    [33, 52, 45, 41, 49, 35, 28, 31]
  ]

  /** Initial permutation. */
  const IP_ROWS: seq<seq<Pos64>> := [
    [57, 49, 41, 33, 25, 17, 9, 1],
    [59, 51, 43, 35, 27, 19, 11, 3],
    [61, 53, 45, 37, 29, 21, 13, 5],
    [63, 55, 47, 39, 31, 23, 15, 7],
    [56, 48, 40, 32, 24, 16, 8, 0],
    [58, 50, 42, 34, 26, 18, 10, 2],
    [60, 52, 44, 36, 28, 20, 12, 4],
    [62, 54, 46, 38, 30, 22, 14, 6]
  ]

  /** Final permutation, taking the halves in the order the rounds leave them. */
  const EP_ROWS: seq<seq<Pos64>> := [
    [7, 39, 15, 47, 23, 55, 31, 63],
    [6, 38, 14, 46, 22, 54, 30, 62],
    [5, 37, 13, 45, 21, 53, 29, 61],
    [4, 36, 12, 44, 20, 52, 28, 60],
    [3, 35, 11, 43, 19, 51, 27, 59],
    [2, 34, 10, 42, 18, 50, 26, 58],
    [1, 33, 9, 41, 17, 49, 25, 57],
    [0, 32, 8, 40, 16, 48, 24, 56]
  ]

  /** Bit selection of the expansion, before salting. */
  const E0_ROWS: seq<seq<Pos32>> := [
    [31, 0, 1, 2, 3, 4, 3, 4],
    [5, 6, 7, 8, 7, 8, 9, 10],
    [11, 12, 11, 12, 13, 14, 15, 16],
    [15, 16, 17, 18, 19, 20, 19, 20],
    [21, 22, 23, 24, 23, 24, 25, 26],
    [27, 28, 27, 28, 29, 30, 31, 0]
  ]

  /** Permutation of the S-box outputs. */
  const PERM_ROWS: seq<seq<Pos32>> := [
    [15, 6, 19, 20, 28, 11, 27, 16],
    [0, 14, 22, 25, 4, 17, 30, 9],
    [1, 7, 23, 13, 31, 26, 2, 8],
    [18, 12, 29, 5, 21, 10, 3, 24]
  ]

  function Pc1(i: nat): Pos64
    requires i < 56
  {
    PC1_ROWS[i / 8][i % 8]
  }

  function Pc2(i: nat): Pos56
    requires i < 48
  {
    PC2_ROWS[i / 8][i % 8]
  }

  function Ip(i: nat): Pos64
    requires i < 64
  {
    IP_ROWS[i / 8][i % 8]
  }

  function Ep(i: nat): Pos64
    requires i < 64
  {
    EP_ROWS[i / 8][i % 8]
  }

  function E0(i: nat): Pos32
    requires i < 48
  {
    E0_ROWS[i / 8][i % 8]
  }

  function Perm(i: nat): Pos32
    requires i < 32
  {
    PERM_ROWS[i / 8][i % 8]
  }

  // The S-boxes, by the six input bits as a number, in rows of sixteen.
  const BOX1: seq<seq<nat>> := [
    [14, 0, 4, 15, 13, 7, 1, 4, 2, 14, 15, 2, 11, 13, 8, 1],
    [3, 10, 10, 6, 6, 12, 12, 11, 5, 9, 9, 5, 0, 3, 7, 8],
    [4, 15, 1, 12, 14, 8, 8, 2, 13, 4, 6, 9, 2, 1, 11, 7],
    [15, 5, 12, 11, 9, 3, 7, 14, 3, 10, 10, 0, 5, 6, 0, 13]
  ]

  const BOX2: seq<seq<nat>> := [
    [15, 3, 1, 13, 8, 4, 14, 7, 6, 15, 11, 2, 3, 8, 4, 14],
    [9, 12, 7, 0, 2, 1, 13, 10, 12, 6, 0, 9, 5, 11, 10, 5],
    [0, 13, 14, 8, 7, 10, 11, 1, 10, 3, 4, 15, 13, 4, 1, 2],
    [5, 11, 8, 6, 12, 7, 6, 12, 9, 0, 3, 5, 2, 14, 15, 9]
  ]

  const BOX3: seq<seq<nat>> := [
    [10, 13, 0, 7, 9, 0, 14, 9, 6, 3, 3, 4, 15, 6, 5, 10],
    [1, 2, 13, 8, 12, 5, 7, 14, 11, 12, 4, 11, 2, 15, 8, 1],
    [13, 1, 6, 10, 4, 13, 9, 0, 8, 6, 15, 9, 3, 8, 0, 7],
    [11, 4, 1, 15, 2, 14, 12, 3, 5, 11, 10, 5, 14, 2, 7, 12]
  ]

  const BOX4: seq<seq<nat>> := [
    [7, 13, 13, 8, 14, 11, 3, 5, 0, 6, 6, 15, 9, 0, 10, 3],
    [1, 4, 2, 7, 8, 2, 5, 12, 11, 1, 12, 10, 4, 14, 15, 9],
    [10, 3, 6, 15, 9, 0, 0, 6, 12, 10, 11, 1, 7, 13, 13, 8],
    [15, 9, 1, 4, 3, 5, 14, 11, 5, 12, 2, 7, 8, 2, 4, 14]
  ]

  const BOX5: seq<seq<nat>> := [
    [2, 14, 12, 11, 4, 2, 1, 12, 7, 4, 10, 7, 11, 13, 6, 1],
    [8, 5, 5, 0, 3, 15, 15, 10, 13, 3, 0, 9, 14, 8, 9, 6],
    [4, 11, 2, 8, 1, 12, 11, 7, 10, 1, 13, 14, 7, 2, 8, 13],
    [15, 6, 9, 15, 12, 0, 5, 9, 6, 10, 3, 4, 0, 5, 14, 3]
  ]

  const BOX6: seq<seq<nat>> := [
    [12, 10, 1, 15, 10, 4, 15, 2, 9, 7, 2, 12, 6, 9, 8, 5],
    [0, 6, 13, 1, 3, 13, 4, 14, 14, 0, 7, 11, 5, 3, 11, 8],
    [9, 4, 14, 3, 15, 2, 5, 12, 2, 9, 8, 5, 12, 15, 3, 10],
    [7, 11, 0, 14, 4, 1, 10, 7, 1, 6, 13, 0, 11, 8, 6, 13]
  ]

  const BOX7: seq<seq<nat>> := [
    [4, 13, 11, 0, 2, 11, 14, 7, 15, 4, 0, 9, 8, 1, 13, 10],
    [3, 14, 12, 3, 9, 5, 7, 12, 5, 2, 10, 15, 6, 8, 1, 6],
    [1, 6, 4, 11, 11, 13, 13, 8, 12, 1, 3, 4, 7, 10, 14, 7],
    [10, 9, 15, 5, 6, 0, 8, 15, 0, 14, 5, 2, 9, 3, 2, 12]
  ]

  const BOX8: seq<seq<nat>> := [
    [13, 1, 2, 15, 8, 13, 4, 8, 6, 10, 15, 3, 11, 7, 1, 4],
    [10, 12, 9, 5, 3, 6, 14, 11, 5, 0, 0, 14, 12, 9, 7, 2],
    [7, 2, 11, 1, 4, 14, 1, 7, 9, 4, 12, 10, 14, 8, 2, 13],
    [0, 15, 6, 12, 10, 9, 13, 0, 15, 3, 3, 5, 5, 6, 8, 11]
  ]

  const S_BOX: seq<seq<seq<nat>>> := [BOX1, BOX2, BOX3, BOX4, BOX5, BOX6, BOX7, BOX8]

  function Sbox(i: nat, v: nat): nat
    requires i < 8 && v < 64
  {
    S_BOX[i][v / 16][v % 16]
  }

  /** Group `g` of the expansion is four bits of the half with their neighbours, counted round. */
  predicate ExpansionGroup(g: nat, a: int, b: int, c: int, d: int, e: int, f: int) {
    a == (if g == 0 then 31 else 4 * g - 1) && b == 4 * g && c == 4 * g + 1 && d == 4 * g + 2 && e == 4 * g + 3 &&
    f == (if g == 7 then 0 else 4 * g + 4)
  }

  /** The expansion takes each four bits with the bit before and the bit after them. */
  lemma ExpansionIs(g: nat)
    requires g < 8
    ensures ExpansionGroup(g, E0(6 * g), E0(6 * g + 1), E0(6 * g + 2), E0(6 * g + 3), E0(6 * g + 4), E0(6 * g + 5))
  {
    hide E0, ExpansionGroup;
    if g < 4 { LowGroups(g); } else { HighGroups(g); }
  }

  lemma LowGroups(g: nat)
    requires g < 4
    ensures ExpansionGroup(g, E0(6 * g), E0(6 * g + 1), E0(6 * g + 2), E0(6 * g + 3), E0(6 * g + 4), E0(6 * g + 5))
  {
    if g == 0 {} else if g == 1 {} else if g == 2 {} else {}
  }

  lemma HighGroups(g: nat)
    requires 4 <= g < 8
    ensures ExpansionGroup(g, E0(6 * g), E0(6 * g + 1), E0(6 * g + 2), E0(6 * g + 3), E0(6 * g + 4), E0(6 * g + 5))
  {
    if g == 4 {} else if g == 5 {} else if g == 6 {} else {}
  }

  // ----- The initial and the final permutation -----

  function IpFormula(i: nat): int { (if i < 32 then 57 + i / 8 * 2 else 48 + i / 8 * 2) - i % 8 * 8 }

  function EpFormula(i: nat): int { (if i % 8 % 2 == 0 then i % 8 * 4 else 28 + i % 8 * 4) + 7 - i / 8 }

  lemma IpIs(i: nat)
    requires i < 64
    ensures Ip(i) == IpFormula(i)
  {
    var r, c := i / 8, i % 8;
    assert IP_ROWS[r][c] == (if r < 4 then 57 + r * 2 else 48 + r * 2) - c * 8;
  }

  lemma EpRow(r: nat, c: nat)
    requires r < 8 && c < 8
    ensures |EP_ROWS| == 8 && |EP_ROWS[r]| == 8
    ensures EP_ROWS[r][c] == (if c % 2 == 0 then c * 4 else 28 + c * 4) + 7 - r
  {
  }

  lemma EpIs(i: nat)
    requires i < 64
    ensures Ep(i) == EpFormula(i)
  {
    EpRow(i / 8, i % 8);
  }

  lemma Octal(q: int, d: int)
    requires 0 <= d < 8
    ensures (8 * q + d) / 8 == q && (8 * q + d) % 8 == d
  {
  }

  lemma IpThenEp(i: nat)
    requires i < 64
    ensures 0 <= IpFormula(i) < 64 && EpFormula(IpFormula(i)) == (i + 32) % 64
  {
    var r, c := i / 8, i % 8;
    var d := if r < 4 then 2 * r + 1 else 2 * r - 8;
    assert IpFormula(i) == 8 * (7 - c) + d;
    Octal(7 - c, d);
  }

  lemma EpThenIp(i: nat)
    requires i < 64
    ensures 0 <= EpFormula(i) < 64 && IpFormula((EpFormula(i) + 32) % 64) == i
  {
    var r, c := i / 8, i % 8;
    var q := if c % 2 == 0 then 4 + c / 2 else c / 2;
    assert (EpFormula(i) + 32) % 64 == 8 * q + (7 - r);
    Octal(q, 7 - r);
  }

  /** The final permutation undoes the initial one, up to the swap of the halves. */
  lemma PermutationsInverse(i: nat)
    requires i < 64
    ensures Ep(Ip(i)) == (i + 32) % 64 && Ip((Ep(i) as int + 32) % 64) == i
  {
    IpThenEp(i);
    EpThenIp(i);
    IpIs(i);
    EpIs(i);
    hide Ip, Ep, IpFormula, EpFormula;
    EpIs(Ip(i));
    IpIs((Ep(i) as int + 32) % 64);
  }
}
