/** The key schedule and the expansion table that wzd_crypt.c keeps between calls, and
    the routines that fill and use them in place. */
module DesCipher {
  import opened DesTables
  import opened Des
  import opened DesStandard

  lemma ShiftsOfConstant(i: nat)
    requires i < 16
    ensures 1 + ShiftBits(i) % 2 == Shift(i)
  {
    assert ShiftBits(0) == 0x7efc;
    assert ShiftBits(1) == 0x3f7e;
    assert ShiftBits(2) == 0x1fbf;
    assert ShiftBits(3) == 0xfdf;
    assert ShiftBits(4) == 0x7ef;
    assert ShiftBits(5) == 0x3f7;
    assert ShiftBits(6) == 0x1fb;
    assert ShiftBits(7) == 0xfd;
    assert ShiftBits(8) == 0x7e;
    assert ShiftBits(9) == 0x3f;
    assert ShiftBits(10) == 0x1f;
    assert ShiftBits(11) == 0xf;
    assert ShiftBits(12) == 0x7;
    assert ShiftBits(13) == 0x3;
    assert ShiftBits(14) == 0x1;
  }

  lemma {:induction false} ReversedAt(keys: seq<RoundKey>, i: nat)
    requires i < |keys|
    ensures Reversed(keys)[i] == keys[|keys| - 1 - i]
  {
    if i < |keys| - 1 { ReversedAt(keys[1..], i); }
  }

  lemma ReversedTwice(keys: seq<RoundKey>)
    ensures Reversed(Reversed(keys)) == keys
  {
    forall i | 0 <= i < |keys| ensures Reversed(Reversed(keys))[i] == keys[i] {
      ReversedAt(Reversed(keys), i);
      ReversedAt(keys, |keys| - 1 - i);
    }
  }

  /** perm: the entries of `a` picked from `e` by a table. */
  method Permute(a: array<bit>, e: array<bit>, pc: seq<nat>)
    requires |pc| <= a.Length && a != e
    requires forall i :: 0 <= i < |pc| ==> pc[i] < e.Length
    modifies a
    ensures forall i :: 0 <= i < |pc| ==> a[i] == e[pc[i]]
  {
    var i := 0;
    while i < |pc|
      invariant 0 <= i <= |pc|
      invariant forall k :: 0 <= k < i ==> a[k] == e[pc[k]]
    {
      a[i] := e[pc[i]];
      i := i + 1;
    }
  }

  lemma TwoRounds(l: Half, r: Half, keys: seq<RoundKey>, e: Expansion)
    requires |keys| >= 2
    ensures var l' := Xor(l, F(r, keys[0], e));
      Rounds(l, r, keys, e) == Rounds(l', Xor(r, F(l', keys[1], e)), keys[2..], e)
  {
    hide F, Xor;
    assert keys[1..][1..] == keys[2..];
  }

  method WriteOutput(tmp: array<bit>, i: nat, v: nat, ghost half: Half, ghost key: RoundKey, ghost e: Expansion)
    requires i < 8 && tmp.Length == 48 && v == Sbox(i, Number(half, key, e, i, 6))
    modifies tmp
    ensures forall n :: 0 <= n < 4 * i ==> tmp[n] == old(tmp[n])
    ensures forall n :: 4 * i <= n < 4 * i + 4 ==> tmp[n] == Substituted(half, key, e, n)
  {
    hide Sbox, Number;
    var sbval := v;
    tmp[4 * i + 3] := sbval % 2;
    sbval := sbval / 2;
    tmp[4 * i + 2] := sbval % 2;
    sbval := sbval / 2;
    tmp[4 * i + 1] := sbval % 2;
    sbval := sbval / 2;
    tmp[4 * i] := sbval % 2;
    forall n | 4 * i <= n < 4 * i + 4
      ensures tmp[n] == Substituted(half, key, e, n)
    {
      assert n / 4 == i && n % 4 == n - 4 * i;
      assert v / 2 / 2 == v / 4 && v / 2 / 2 / 2 == v / 8;
    }
  }

  method MixIn(nachr: array<bit>, l: nat, tmp: array<bit>, ghost f: Half)
    requires nachr.Length == 64 && l + 32 <= 64 && tmp.Length == 48 && tmp != nachr
    requires forall n :: 0 <= n < 32 ==> f[n] == tmp[Perm(n)]
    modifies nachr
    ensures nachr[l..l + 32] == Xor(old(nachr[l..l + 32]), f)
    ensures forall m :: 0 <= m < 64 && !(l <= m < l + 32) ==> nachr[m] == old(nachr[m])
  {
    hide Perm;
    ghost var was := nachr[..];
    var i := 0;
    while i < 32
      invariant 0 <= i <= 32
      invariant forall m :: 0 <= m < 64 && !(l <= m < l + i) ==> nachr[m] == was[m]
      invariant forall m :: l <= m < l + i ==> nachr[m] == XorBit(was[m], f[m - l])
    {
      nachr[l + i] := XorBit(nachr[l + i], tmp[Perm(i)]);
      i := i + 1;
    }
    assert was[l..l + 32] == old(nachr[l..l + 32]);
  }

  class Cipher {
    const schedule: array2<bit>
    const expansion: array<Pos32>

    constructor ()
      ensures Valid() && fresh(schedule) && fresh(expansion)
    {
      schedule := new bit[16, 48];
      expansion := new Pos32[48];
    }

    ghost predicate Valid() { schedule.Length0 == 16 && schedule.Length1 == 48 && expansion.Length == 48 }

    ghost function Key(i: nat): RoundKey
      requires Valid() && i < 16
      reads schedule
    {
      seq(48, j requires 0 <= j < 48 reads schedule => schedule[i, j])
    }

    /** The round keys in the order encrypt uses them. */
    ghost function Order(decr: bool): seq<RoundKey>
      requires Valid()
      reads schedule
    {
      seq<RoundKey>(16, i requires 0 <= i < 16 reads schedule => Key(if decr then 15 - i else i))
    }

    ghost function Table(): Expansion
      requires Valid()
      reads expansion
    {
      expansion[..]
    }

    lemma OrderReversed()
      requires Valid()
      ensures Order(true) == Reversed(Order(false))
    {
      forall i | 0 <= i < 16
        ensures Order(true)[i] == Reversed(Order(false))[i]
      {
        ReversedAt(Order(false), i);
      }
    }

    /** Each direction undoes the other, whatever the schedule and the table hold. */
    lemma Undoes(b: Block, decr: bool)
      requires Valid()
      ensures Crypted(Crypted(b, Order(decr), Table()), Order(!decr), Table()) == b
    {
      OrderReversed();
      ReversedTwice(Order(false));
      DecryptUndoes(b, Order(decr), Table());
    }

    /** The S-box outputs of one round, in `tmp`. */
    method Substitute(nachr: array<bit>, r: nat, row: nat, tmp: array<bit>)
      requires Valid() && row < 16 && nachr.Length == 64 && r + 32 <= 64 && tmp.Length == 48 && tmp != nachr
      modifies tmp
      ensures forall n :: 0 <= n < 32 ==> tmp[n] == Substituted(nachr[r..r + 32], Key(row), Table(), n)
    {
      hide Substituted, Sbox;
      ghost var half, key, e := nachr[r..r + 32], Key(row), Table();
      var i := 0;
      while i < 8
        invariant 0 <= i <= 8 && nachr[r..r + 32] == half && Key(row) == key && Table() == e
        invariant forall n :: 0 <= n < 4 * i ==> tmp[n] == Substituted(half, key, e, n)
      {
        var j, sbval := 0, 0;
        while j < 6
          invariant 0 <= j <= 6 && sbval == Number(half, key, e, i, j)
        {
          assert nachr[r + expansion[6 * i + j]] == half[e[6 * i + j]] && schedule[row, 6 * i + j] == key[6 * i + j];
          sbval := sbval * 2 + XorBit(nachr[r + expansion[6 * i + j]], schedule[row, 6 * i + j]);
          j := j + 1;
        }
        WriteOutput(tmp, i, Sbox(i, sbval), half, key, e);
        i := i + 1;
      }
    }

    /** crypt_main: one half is changed by f of the other, as the standard states it. */
    method CryptMain(nachr: array<bit>, l: nat, r: nat, row: nat)
      requires Valid() && row < 16 && nachr.Length == 64 && ((l == 0 && r == 32) || (l == 32 && r == 0))
      modifies nachr
      ensures nachr[l..l + 32] == Xor(old(nachr[l..l + 32]), F(old(nachr[r..r + 32]), Key(row), Table()))
      ensures nachr[l..l + 32] == Xor(old(nachr[l..l + 32]), StandardF(old(nachr[r..r + 32]), Key(row), Table()))
      ensures nachr[r..r + 32] == old(nachr[r..r + 32])
    {
      RoundFunctionIs(nachr[r..r + 32], Key(row), Table());
      var tmp := new bit[48];
      Substitute(nachr, r, row, tmp);
      ghost var f := F(nachr[r..r + 32], Key(row), Table());
      hide Substituted, Perm;
      assert forall n :: 0 <= n < 32 ==> f[n] == tmp[Perm(n)];
      hide F, StandardF;
      MixIn(nachr, l, tmp, f);
    }

    /** Two rounds in place, one on each half. */
    method RoundPair(tmp: array<bit>, row: nat, row': nat)
      requires Valid() && row < 16 && row' < 16 && tmp.Length == 64
      modifies tmp
      ensures tmp[..32] == Xor(old(tmp[..32]), F(old(tmp[32..]), Key(row), Table()))
      ensures tmp[32..] == Xor(old(tmp[32..]), F(tmp[..32], Key(row'), Table()))
    {
      hide F, Xor;
      assert tmp[..32] == tmp[0..32] && tmp[32..] == tmp[32..64];
      CryptMain(tmp, 0, 32, row);
      CryptMain(tmp, 32, 0, row');
      assert tmp[..32] == tmp[0..32] && tmp[32..] == tmp[32..64];
    }

    /** encrypt, which decrypts when `decr`: the cipher of the standard. The other direction takes the result back, and
        complementing block and round keys complements it. */
    method Encrypt(nachr: array<bit>, decr: bool)
      requires Valid() && nachr.Length == 64
      modifies nachr
      ensures nachr[..] == Crypted(old(nachr[..]), Order(decr), Table())
      ensures nachr[..] == Enciphered(old(nachr[..]), Order(decr), Table())
      ensures Crypted(nachr[..], Order(!decr), Table()) == old(nachr[..])
      ensures Crypted(Not(old(nachr[..])), NotKeys(Order(decr)), Table()) == Not(nachr[..])
    {
      hide F, Xor, Ip, Ep, Rounds, Not, NotKeys, Reversed;
      ghost var was: Block := nachr[..];
      var tmp := new bit[64];
      Permute(tmp, nachr, seq(64, i requires 0 <= i < 64 => Ip(i)));
      ghost var halves := InitialHalves(nachr[..]);
      assert tmp[..32] == halves.0 && tmp[32..] == halves.1;
      AllRounds(tmp, decr);
      assert tmp[..] == tmp[..32] + tmp[32..];
      Permute(nachr, tmp, seq(64, i requires 0 <= i < 64 => Ep(i)));
      assert nachr[..] == Crypted(was, Order(decr), Table());
      hide Crypted, Enciphered;
      CipherIs(was, Order(decr), Table());
      Undoes(was, decr);
      Complementation(was, Order(decr), Table());
    }

    method AllRounds(tmp: array<bit>, decr: bool)
      requires Valid() && tmp.Length == 64
      modifies tmp
      ensures (tmp[..32], tmp[32..]) == Rounds(old(tmp[..32]), old(tmp[32..]), Order(decr), Table())
    {
      hide F, Xor;
      ghost var keys, e, l, r := Order(decr), Table(), tmp[..32], tmp[32..];
      var i, row := 0, if decr then 15 else 0;
      assert keys[0..] == keys;
      while i < 8
        invariant 0 <= i <= 8 && row == (if decr then 15 - 2 * i else 2 * i)
        invariant Order(decr) == keys && Table() == e
        invariant Rounds(tmp[..32], tmp[32..], keys[2 * i..], e) == Rounds(l, r, keys, e)
      {
        var row' := if decr then row - 1 else row + 1;
        assert keys[2 * i..][0] == Key(row) && keys[2 * i..][1] == Key(row');
        assert keys[2 * i..][2..] == keys[2 * (i + 1)..];
        TwoRounds(tmp[..32], tmp[32..], keys[2 * i..], e);
        hide Rounds;
        RoundPair(tmp, row, row');
        row := if decr then row' - 1 else row' + 1;
        i := i + 1;
      }
      assert keys[16..] == [];
    }

    /** wzd_setkey: the sixteen round keys are those of FIPS 46-3. */
    method SetKey(schl: array<bit>)
      requires Valid() && schl.Length == 64
      modifies schedule, expansion
      ensures forall i: nat :: i < 16 ==> Key(i) == StandardKey(schl[..], i)
      ensures forall i :: 0 <= i < 48 ==> expansion[i] == E0(i)
    {
      hide E0, Pc1, Pc2, StandardKey;
      var k := 0;
      while k < 48
        invariant 0 <= k <= 48 && forall i :: 0 <= i < k ==> expansion[i] == E0(i)
      {
        expansion[k] := E0(k);
        k := k + 1;
      }
      var tmp1 := new bit[56];
      Permute(tmp1, schl, seq(56, i requires 0 <= i < 56 => Pc1(i)));
      assert tmp1[..] == HalfC(schl[..]) + HalfD(schl[..]);
      var ls, shval := 0x7efc, 0;
      var i: nat := 0;
      while i < 16
        invariant 0 <= i <= 16 && ls == ShiftBits(i) && shval == Shifted(i)
        invariant tmp1[..] == HalfC(schl[..]) + HalfD(schl[..])
        invariant forall n: nat :: n < i ==> Key(n) == StandardKey(schl[..], n)
        invariant forall n :: 0 <= n < 48 ==> expansion[n] == E0(n)
      {
        ShiftsOfConstant(i);
        shval := shval + 1 + ls % 2;
        SetRow(i, shval, tmp1, schl[..]);
        ls := ls / 2;
        i := i + 1;
      }
    }

    /** One round key, from the halves at their total shift. */
    method SetRow(i: nat, shval: nat, tmp1: array<bit>, ghost key: Block)
      requires Valid() && i < 16 && tmp1.Length == 56 && tmp1[..] == HalfC(key) + HalfD(key) && shval == Shifted(i + 1)
      modifies schedule
      ensures Key(i) == StandardKey(key, i)
      ensures forall n: nat :: n < 16 && n != i ==> Key(n) == old(Key(n))
    {
      hide Pc2, HalfC, HalfD;
      ghost var c, d := HalfC(key), HalfD(key);
      RotatedAtOnce(c, i + 1);
      RotatedAtOnce(d, i + 1);
      hide Rotated, Shifted;
      ghost var before := seq<RoundKey>(16, n requires 0 <= n < 16 reads schedule => Key(n));
      var j := 0;
      while j < 48
        invariant 0 <= j <= 48
        invariant forall m :: 0 <= m < j ==> schedule[i, m] == StandardKey(key, i)[m]
        invariant forall n, m :: 0 <= n < 16 && 0 <= m < 48 && n != i ==> schedule[n, m] == before[n][m]
      {
        var k: nat := Pc2(j);
        KeyIndexRotates(c, d, k, shval);
        if k >= 28 {
          k := k + shval;
          if k >= 56 { k := (k - 28) % 28 + 28; }
        } else {
          k := k + shval;
          if k >= 28 { k := k % 28; }
        }
        schedule[i, j] := tmp1[k];
        assert tmp1[k] == StandardKey(key, i)[j];
        j := j + 1;
      }
    }

    /** Salting: each set bit of the salt swaps an entry with the one 24 further on. The
        table stays an expansion table, so everything above holds of it. */
    method Salt(bits: seq<bool>)
      requires Valid() && |bits| == 12
      modifies expansion
      ensures forall i :: 0 <= i < 12 ==>
        (expansion[i], expansion[i + 24]) ==
        if bits[i] then (old(expansion[i + 24]), old(expansion[i])) else (old(expansion[i]), old(expansion[i + 24]))
      ensures forall i :: 12 <= i < 24 || 36 <= i < 48 ==> expansion[i] == old(expansion[i])
    {
      var k := 0;
      while k < 12
        invariant 0 <= k <= 12
        invariant forall i :: 0 <= i < k ==>
          (expansion[i], expansion[i + 24]) ==
          if bits[i] then (old(expansion[i + 24]), old(expansion[i])) else (old(expansion[i]), old(expansion[i + 24]))
        invariant forall i :: k <= i < 24 || k + 24 <= i < 48 ==> expansion[i] == old(expansion[i])
      {
        if bits[k] {
          var tmp := expansion[k];
          expansion[k] := expansion[k + 24];
          expansion[k + 24] := tmp;
        }
        k := k + 1;
      }
    }
  }
}
