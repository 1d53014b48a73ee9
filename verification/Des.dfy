/** DES on arrays of bits, as libwzd-auth/wzd_crypt.c computes it, and why decryption
    undoes encryption under any key schedule and any salted expansion. */
module Des {
  import opened DesTables

  type bit = x: int | 0 <= x < 2
  type Half = s: seq<bit> | |s| == 32 witness seq(32, _ => 0)
  type Block = s: seq<bit> | |s| == 64 witness seq(64, _ => 0)
  type RoundKey = s: seq<bit> | |s| == 48 witness seq(48, _ => 0)
  type Expansion = s: seq<Pos32> | |s| == 48 witness seq(48, _ => 0)

  function XorBit(a: bit, b: bit): bit { if a == b then 0 else 1 }

  function Xor(a: Half, b: Half): Half { seq(32, i requires 0 <= i < 32 => XorBit(a[i], b[i])) }

  // ----- The round function -----

  /** Input bit `n` of the S-boxes. */
  function Mixed(r: Half, key: RoundKey, e: Expansion, n: nat): bit
    requires n < 48
  {
    XorBit(r[e[n]], key[n])
  }

  /** The first `j` of the six input bits of S-box `i`, as a number. */
  function Number(r: Half, key: RoundKey, e: Expansion, i: nat, j: nat): (v: nat)
    requires i < 8 && j <= 6
    ensures (j == 6 ==> v < 64) && (j == 5 ==> v < 32) && (j == 4 ==> v < 16) && (j == 3 ==> v < 8) &&
      (j == 2 ==> v < 4)
    ensures (j == 1 ==> v < 2) && (j == 0 ==> v < 1)
  {
    if j == 0 then 0 else Number(r, key, e, i, j - 1) * 2 + Mixed(r, key, e, 6 * i + j - 1)
  }

  /** Bit `b` of a four-bit S-box output, high bit first. */
  function OutputBit(v: nat, b: nat): bit
    requires b < 4
  {
    (if b == 0 then v / 8 else if b == 1 then v / 4 else if b == 2 then v / 2 else v) % 2
  }

  function Substituted(r: Half, key: RoundKey, e: Expansion, n: nat): bit
    requires n < 32
  {
    OutputBit(Sbox(n / 4, Number(r, key, e, n / 4, 6)), n % 4)
  }

  function F(r: Half, key: RoundKey, e: Expansion): Half {
    seq(32, i requires 0 <= i < 32 => Substituted(r, key, e, Perm(i)))
  }

  // ----- The Feistel network -----

  /** The rounds under `keys`, the halves trading places after each. */
  function Rounds(l: Half, r: Half, keys: seq<RoundKey>, e: Expansion): (Half, Half)
    decreases |keys|
  {
    if keys == [] then (l, r) else Rounds(r, Xor(l, F(r, keys[0], e)), keys[1..], e)
  }

  function Reversed(keys: seq<RoundKey>): (r: seq<RoundKey>)
    ensures |r| == |keys|
  {
    if keys == [] then [] else Reversed(keys[1..]) + [keys[0]]
  }

  function InitialHalves(b: Block): (Half, Half) {
    (seq(32, i requires 0 <= i < 32 => b[Ip(i)]), seq(32, i requires 0 <= i < 32 => b[Ip(i + 32)]))
  }

  /** The block that the final permutation makes of two halves. */
  function FinalBlock(l: Half, r: Half): Block {
    seq(64, i requires 0 <= i < 64 => (l + r)[Ep(i)])
  }

  /** What encrypt leaves in its block: the rounds between the two permutations. */
  function Crypted(b: Block, keys: seq<RoundKey>, e: Expansion): Block {
    var (l, r) := InitialHalves(b);
    var (l', r') := Rounds(l, r, keys, e);
    FinalBlock(l', r')
  }

  // ----- Decryption undoes encryption -----

  lemma XorTwice(a: Half, b: Half)
    ensures Xor(Xor(a, b), b) == a
  {
  }

  lemma {:induction false} RoundsConcat(l: Half, r: Half, a: seq<RoundKey>, b: seq<RoundKey>, e: Expansion)
    ensures Rounds(l, r, a + b, e) == Rounds(Rounds(l, r, a, e).0, Rounds(l, r, a, e).1, b, e)
    decreases |a|
  {
    hide F, Xor;
    if a == [] {
      assert a + b == b;
    } else {
      assert (a + b)[1..] == a[1..] + b && (a + b)[0] == a[0];
      RoundsConcat(r, Xor(l, F(r, a[0], e)), a[1..], b, e);
    }
  }

  /** The rounds under the keys in reverse order, on the halves swapped, give back the
      halves swapped: for any keys and any expansion. */
  lemma {:induction false} RoundsUndone(l: Half, r: Half, keys: seq<RoundKey>, e: Expansion)
    ensures var (l', r') := Rounds(l, r, keys, e);
      Rounds(r', l', Reversed(keys), e) == (r, l)
    decreases |keys|
  {
    if keys != [] {
      var x := Xor(l, F(r, keys[0], e));
      var (l', r') := Rounds(l, r, keys, e);
      RoundsUndone(r, x, keys[1..], e);
      RoundsConcat(r', l', Reversed(keys[1..]), [keys[0]], e);
      XorTwice(l, F(r, keys[0], e));
      hide F, Xor;
      assert [keys[0]][1..] == [];
      assert Rounds(x, r, [keys[0]], e) == (r, Xor(x, F(r, keys[0], e)));
    }
  }

  lemma FinalAt(l: Half, r: Half, i: nat)
    requires i < 64
    ensures FinalBlock(l, r)[Ip(i)] == (l + r)[(i + 32) % 64]
  {
    hide Ip, Ep;
    PermutationsInverse(i);
  }

  lemma HalvesOfFinal(l: Half, r: Half)
    ensures InitialHalves(FinalBlock(l, r)) == (r, l)
  {
    hide Ip, Ep, FinalBlock;
    var b := FinalBlock(l, r);
    forall i | 0 <= i < 32
      ensures InitialHalves(b).0[i] == r[i] && InitialHalves(b).1[i] == l[i]
    {
      FinalAt(l, r, i);
      FinalAt(l, r, i + 32);
    }
    assert InitialHalves(b).0 == r && InitialHalves(b).1 == l;
  }

  lemma FinalOfSwapped(b: Block)
    ensures var (l, r) := InitialHalves(b); FinalBlock(r, l) == b
  {
    hide Ip, Ep;
    var (l, r) := InitialHalves(b);
    forall i | 0 <= i < 64
      ensures FinalBlock(r, l)[i] == b[i]
    {
      PermutationsInverse(i);
      var k := Ep(i) as int;
      assert (r + l)[k] == if k < 32 then b[Ip(k + 32)] else b[Ip(k - 32)];
    }
  }

  /** Running the network under the reversed schedule undoes it, for every block,
      every schedule and every expansion table. */
  lemma DecryptUndoes(b: Block, keys: seq<RoundKey>, e: Expansion)
    ensures Crypted(Crypted(b, keys, e), Reversed(keys), e) == b
  {
    var (l, r) := InitialHalves(b);
    var (l', r') := Rounds(l, r, keys, e);
    HalvesOfFinal(l', r');
    RoundsUndone(l, r, keys, e);
    FinalOfSwapped(b);
    hide InitialHalves, FinalBlock, Rounds;
  }

  // ----- The key schedule -----

  type KeyHalf = s: seq<bit> | |s| == 28 witness seq(28, _ => 0)

  function RotateLeft(c: KeyHalf, n: nat): KeyHalf { seq(28, i requires 0 <= i < 28 => c[(i + n) % 28]) }

  /** The left shifts of FIPS 46-3: one in rounds 1, 2, 9 and 16, else two. */
  function Shift(i: nat): nat { if i == 0 || i == 1 || i == 8 || i == 15 then 1 else 2 }

  function HalfC(key: Block): KeyHalf { seq(28, i requires 0 <= i < 28 => key[Pc1(i)]) }

  function HalfD(key: Block): KeyHalf { seq(28, i requires 0 <= i < 28 => key[Pc1(i + 28)]) }

  /** A key half after `n` rounds, each rotating what the one before it left. */
  function Rotated(c: KeyHalf, n: nat): KeyHalf {
    if n == 0 then c else RotateLeft(Rotated(c, n - 1), Shift(n - 1))
  }

  /** The key of round `i` (from 0), as FIPS 46-3 defines it. */
  function StandardKey(key: Block, i: nat): RoundKey {
    var c, d := Rotated(HalfC(key), i + 1), Rotated(HalfD(key), i + 1);
    seq(48, j requires 0 <= j < 48 => (c + d)[Pc2(j)])
  }

  /** The shifts so far, as the code adds them up. */
  function Shifted(n: nat): nat { if n == 0 then 0 else Shifted(n - 1) + Shift(n - 1) }

  lemma AddMod(i: int, a: nat, b: nat)
    ensures ((i + b) % 28 + a) % 28 == (i + (a + b)) % 28
  {
  }

  lemma RotateTwice(c: KeyHalf, a: nat, b: nat)
    ensures RotateLeft(RotateLeft(c, a), b) == RotateLeft(c, a + b)
  {
    forall i | 0 <= i < 28
      ensures RotateLeft(RotateLeft(c, a), b)[i] == RotateLeft(c, a + b)[i]
    {
      AddMod(i, a, b);
    }
  }

  lemma {:induction false} RotatedAtOnce(c: KeyHalf, n: nat)
    ensures Rotated(c, n) == RotateLeft(c, Shifted(n))
  {
    if n == 0 {
      assert forall i :: 0 <= i < 28 ==> RotateLeft(c, 0)[i] == c[i];
    } else {
      RotatedAtOnce(c, n - 1);
      RotateTwice(c, Shifted(n - 1), Shift(n - 1));
    }
  }

  /** The shifts are read off the bits of the constant 0x7efc, from the low end. */
  function ShiftBits(i: nat): nat { if i == 0 then 0x7efc else ShiftBits(i - 1) / 2 }

  /** Where the code finds key bit `k` after a total shift of `s`. */
  function KeyIndex(k: nat, s: nat): nat {
    if k >= 28 then (if k + s >= 56 then (k + s - 28) % 28 + 28 else k + s)
    else if k + s >= 28 then (k + s) % 28 else k + s
  }

  lemma KeyIndexRotates(c: KeyHalf, d: KeyHalf, k: nat, s: nat)
    requires k < 56
    ensures KeyIndex(k, s) < 56 && (c + d)[KeyIndex(k, s)] == (RotateLeft(c, s) + RotateLeft(d, s))[k]
  {
  }
}
