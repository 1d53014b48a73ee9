/** The streaming of SHA-1 (libwzd-auth/wzd_sha1.c), for any function of one block. */
module Sha1 {
  import opened Common
  import opened Digest

  /** The length of a message in bits, as eight bytes, high byte first. */
  function LengthBytes(n: nat): (r: seq<byte>)
    ensures |r| == 8
  {
    var bits := n * 8;
    [bits / 0x100000000000000 % 256, bits / 0x1000000000000 % 256, bits / 0x10000000000 % 256, bits / 0x100000000 % 256,
     bits / 0x1000000 % 256, bits / 0x10000 % 256, bits / 0x100 % 256, bits % 256]
  }

  /** A number of bytes, high byte first. */
  function Value(b: seq<byte>): nat { if b == [] then 0 else Value(b[..|b| - 1]) * 256 + b[|b| - 1] }

  function Bytes(n: nat, k: nat): (r: seq<byte>)
    ensures |r| == k
  {
    if k == 0 then [] else Bytes(n / 256, k - 1) + [n % 256]
  }

  function Power256(k: nat): (p: nat)
    ensures p > 0
  {
    if k == 0 then 1 else 256 * Power256(k - 1)
  }

  lemma ModStep(n: nat, m: nat)
    requires m > 0
    ensures n / 256 % m * 256 + n % 256 == n % (256 * m)
  {
    var q := n / 256;
    assert n == 256 * q + n % 256 && q == m * (q / m) + q % m;
    var rest := q % m * 256 + n % 256;
    assert n == 256 * m * (q / m) + rest by { assert 256 * (m * (q / m)) == 256 * m * (q / m); }
    assert rest < 256 * m;
    Remainder(n, 256 * m, q / m, rest);
  }

  lemma Remainder(n: nat, m: nat, q: nat, r: nat)
    requires m > 0 && n == m * q + r && r < m
    ensures n % m == r
  {
    var a, b := n / m, n % m;
    assert n == m * a + b;
    if a < q { Product(m, a + 1, q); }
    if a > q { Product(m, q + 1, a); }
  }

  lemma Product(m: nat, x: nat, y: nat)
    requires x <= y
    ensures m * x <= m * y
  {
  }

  lemma {:induction false} BytesRead(n: nat, k: nat)
    ensures Value(Bytes(n, k)) == n % Power256(k)
  {
    if k > 0 {
      BytesRead(n / 256, k - 1);
      assert Bytes(n, k)[..k - 1] == Bytes(n / 256, k - 1);
      ModStep(n, Power256(k - 1));
    }
  }

  lemma LengthIsBytes(n: nat)
    ensures LengthBytes(n) == Bytes(n * 8, 8)
  {
    var b := n * 8;
    assert b / 0x10000 == b / 256 / 256;
    assert b / 0x1000000 == b / 0x10000 / 256;
    assert b / 0x100000000 == b / 0x1000000 / 256;
    assert b / 0x10000000000 == b / 0x100000000 / 256;
    assert b / 0x1000000000000 == b / 0x10000000000 / 256;
    assert b / 0x100000000000000 == b / 0x1000000000000 / 256;
    hide Bytes;
    BytesStep(b, 7);
    BytesStep(b / 0x100, 6);
    BytesStep(b / 0x10000, 5);
    BytesStep(b / 0x1000000, 4);
    BytesStep(b / 0x100000000, 3);
    BytesStep(b / 0x10000000000, 2);
    BytesStep(b / 0x1000000000000, 1);
    BytesStep(b / 0x100000000000000, 0);
  }

  lemma BytesStep(n: nat, k: nat)
    ensures Bytes(n, k + 1) == Bytes(n / 256, k) + [n % 256] && Bytes(n, 0) == []
  {
  }

  /** The length bytes are the length in bits modulo 2^64. */
  lemma LengthRead(n: nat)
    ensures Value(LengthBytes(n)) == n * 8 % Power256(8)
  {
    hide LengthBytes, Bytes, Value, Power256;
    LengthIsBytes(n);
    BytesRead(n * 8, 8);
  }

  /** The eight bytes that sha1_context_endstream writes: only four hold anything. */
  function WrittenLength(l: nat): (r: seq<byte>)
    ensures |r| == 8
  {
    var bits := l * 8;
    [0, 0, 0, 0, bits / 0x1000000 % 256, bits / 0x10000 % 256, bits / 0x100 % 256, bits % 256]
  }

  /** They are the length exactly for messages under 2^29 bytes (of those whose length
      fits the format at all). */
  lemma WrittenLengthExact(l: nat)
    requires l < 0x2000000000000000
    ensures WrittenLength(l) == LengthBytes(l) <==> l < 0x20000000
  {
    var w, r := WrittenLength(l), LengthBytes(l);
    if l < 0x20000000 {
      assert w == r;
    } else if w == r {
      assert r[0] == 0 && r[1] == 0 && r[2] == 0 && r[3] == 0;
      HighBytes(l * 8);
    }
  }

  lemma HighBytes(b: nat)
    requires b < 0x10000000000000000
    requires b / 0x100000000000000 % 256 == 0 && b / 0x1000000000000 % 256 == 0
    requires b / 0x10000000000 % 256 == 0 && b / 0x100000000 % 256 == 0
    ensures b < 0x100000000
  {
    assert b / 0x100000000000000 == 0;
    assert b / 0x1000000000000 < 256 && b / 0x1000000000000 == 0;
    assert b / 0x10000000000 < 256 && b / 0x10000000000 == 0;
    assert b / 0x100000000 < 256 && b / 0x100000000 == 0;
  }

  /** Each round of padding adds some of the zeros that are due, until all are there. */
  lemma PadStep(n: nat, z: nat)
    requires z <= PadCount(n)
    ensures var b := (n + 1 + z) % 64;
      if b == 56 then z == PadCount(n) else z < z + (if b > 56 then 64 - b else 56 - b) <= PadCount(n)
  {
  }

  lemma MoreZeros(msg: seq<byte>, z: nat, k: nat)
    ensures msg + [0x80] + Zeros(z) + Zeros(k) == msg + [0x80] + Zeros(z + k)
    ensures msg + [0x80] + Zeros(0) == msg + [0x80] && |Zeros(z + k)| == z + k
  {
  }

  class Context<H> {
    const f: BlockFunction<H>
    var h: H
    const blk: array<byte>
    var blkPtr: nat

    ghost predicate Valid()
      reads this
    {
      blk.Length == 64 && blkPtr < 64
    }

    /** The context has taken in `msg`: it holds the fold of the complete blocks, and
        the tail. */
    ghost predicate Holds(init: H, msg: seq<byte>)
      reads this, blk
    {
      Valid() && h == Fold(f, init, msg) && blk[..blkPtr] == Tail(msg)
    }

    constructor (f: BlockFunction<H>, init: H)
      ensures this.f == f && Holds(init, []) && fresh(blk)
    {
      this.f, h, blk, blkPtr := f, init, new byte[64](_ => 0), 0;
    }

    /** sha1_context_hashstream. */
    method HashStream(p: seq<byte>, ghost init: H, ghost msg: seq<byte>)
      requires Holds(init, msg)
      modifies this`h, this`blkPtr, blk
      ensures Holds(init, msg + p)
    {
      ghost var all, h0 := blk[..blkPtr] + p, h;
      FoldContinues(f, init, msg, p);
      var l, cp := |p|, 0;
      assert p[0..] == p;
      while l > 0
        invariant 0 <= l && cp + l == |p| && Valid()
        invariant Fold(f, h, blk[..blkPtr] + p[cp..]) == Fold(f, h0, all)
        invariant Tail(blk[..blkPtr] + p[cp..]) == Tail(all)
        decreases l
      {
        if blkPtr == 0 && l >= 64 {
          assert blk[..0] + p[cp..] == p[cp..] && p[cp..][..64] == p[cp..cp + 64] && p[cp..][64..] == p[cp + 64..];
          TailDrop(p[cp..]);
          h := f(h, p[cp..cp + 64]);
          cp, l := cp + 64, l - 64;
          assert blk[..0] + p[cp..] == p[cp..];
        } else {
          cp, l := TakeSome(p, cp, l);
        }
      }
      assert p[cp..] == [];
      assert blk[..blkPtr] + p[cp..] == blk[..blkPtr];
      TailShort(blk[..blkPtr]);
    }

    /** Fills the block, and hashes it when it is full. */
    method TakeSome(p: seq<byte>, cp: nat, l: nat) returns (cp': nat, l': nat)
      requires Valid() && cp + l == |p| && l > 0
      modifies this`h, this`blkPtr, blk
      ensures cp' + l' == |p| && l' < l && Valid()
      ensures Fold(f, h, blk[..blkPtr] + p[cp'..]) == Fold(f, old(h), old(blk[..blkPtr]) + p[cp..])
      ensures Tail(blk[..blkPtr] + p[cp'..]) == Tail(old(blk[..blkPtr]) + p[cp..])
    {
      hide Tail;
      var ll := if l > 64 - blkPtr then 64 - blkPtr else l;
      ghost var all := blk[..blkPtr] + p[cp..];
      CopyInto(blk, blkPtr, p[cp..cp + ll]);
      blkPtr := blkPtr + ll;
      cp', l' := cp + ll, l - ll;
      assert all == blk[..blkPtr] + p[cp'..] by { assert p[cp..] == p[cp..cp'] + p[cp'..]; }
      if blkPtr >= 64 {
        assert all[..64] == blk[..] && all[64..] == p[cp'..];
        TailDrop(all);
        h := f(h, blk[..]);
        blkPtr := 0;
        assert blk[..0] + p[cp'..] == p[cp'..];
      }
    }

    /** sha1_context_endstream: the context ends up folded over the padded message. */
    method EndStream(l: nat, ghost init: H, ghost msg: seq<byte>)
      requires Holds(init, msg) && l == |msg|
      modifies this`h, this`blkPtr, blk
      ensures h == Fold(f, init, Padded(msg, WrittenLength(l)))
      ensures l < 0x20000000 ==> h == Fold(f, init, Padded(msg, LengthBytes(l)))
    {
      hide Fold, Tail, WrittenLength, LengthBytes, Zeros, Padded, PadCount;
      HashStream([0x80], init, msg);
      ghost var z := 0;
      MoreZeros(msg, 0, 0);
      while blkPtr != 56
        invariant z <= PadCount(l) && Holds(init, msg + [0x80] + Zeros(z)) && blkPtr == (l + 1 + z) % 64
        decreases PadCount(l) - z
      {
        PadStep(l, z);
        var k := if blkPtr > 56 then 64 - blkPtr else 56 - blkPtr;
        HashStream(Zeros(k), init, msg + [0x80] + Zeros(z));
        MoreZeros(msg, z, k);
        z := z + k;
      }
      PadStep(l, z);
      HashStream(WrittenLength(l), init, msg + [0x80] + Zeros(z));
      PaddedIs(msg, WrittenLength(l));
      if l < 0x20000000 { WrittenLengthExact(l); }
    }
  }

  /** However a message is cut into parts, streaming them gives the digest of the whole. */
  method HashParts<H>(f: BlockFunction<H>, init: H, parts: seq<seq<byte>>) returns (h: H)
    ensures h == Fold(f, init, Padded(Flatten(parts), WrittenLength(|Flatten(parts)|)))
  {
    hide WrittenLength, Fold, Tail, Padded;
    var c := new Context(f, init);
    ghost var msg: seq<byte> := [];
    var l, k := 0, 0;
    assert parts[0..] == parts && [] + Flatten(parts) == Flatten(parts);
    while k < |parts|
      invariant 0 <= k <= |parts| && c.f == f && fresh(c) && fresh(c.blk) && c.Holds(init, msg)
      invariant msg + Flatten(parts[k..]) == Flatten(parts) && l == |msg|
    {
      FlattenNext(parts, k, msg);
      c.HashStream(parts[k], init, msg);
      msg := msg + parts[k];
      l, k := l + |parts[k]|, k + 1;
    }
    assert msg == Flatten(parts);
    c.EndStream(l, init, msg);
    h := c.h;
  }
}
