/** The streaming of MD5 (libwzd-auth/wzd_md5.c) on a little-endian machine, for any
    function of one block. */
module Md5 {
  import opened Common
  import opened Digest

  const U32: nat := 0x100000000

  /** The two words of the bit count after `n` bytes. */
  function LowBits(n: nat): nat { n * 8 % U32 }

  function HighBits(n: nat): nat { n * 8 / U32 % U32 }

  function WordBytes(w: nat): (r: seq<byte>)
    ensures |r| == 4
  {
    [w % 256, w / 0x100 % 256, w / 0x10000 % 256, w / 0x1000000 % 256]
  }

  /** The length of a message in bits modulo 2^64, low byte first. */
  function LengthBytes(n: nat): (r: seq<byte>)
    ensures |r| == 8
  {
    WordBytes(LowBits(n)) + WordBytes(HighBits(n))
  }

  function WordValue(b: seq<byte>): nat
    requires |b| == 4
  {
    var b0: nat, b1: nat, b2: nat, b3: nat := b[0], b[1], b[2], b[3];
    b0 + 0x100 * b1 + 0x10000 * b2 + 0x1000000 * b3
  }

  lemma WordRead(w: nat)
    requires w < U32
    ensures WordValue(WordBytes(w)) == w
  {
    assert w / 0x10000 == w / 0x100 / 0x100 && w / 0x1000000 == w / 0x10000 / 0x100;
    assert w / 0x1000000 < 256;
  }

  /** The eight bytes, low byte first, are the length in bits modulo 2^64. */
  lemma LengthRead(n: nat)
    ensures WordValue(LengthBytes(n)[..4]) + U32 * WordValue(LengthBytes(n)[4..]) == n * 8 % (U32 * U32)
  {
    WordRead(LowBits(n));
    WordRead(HighBits(n));
    assert LengthBytes(n)[..4] == WordBytes(LowBits(n)) && LengthBytes(n)[4..] == WordBytes(HighBits(n));
    var a := n * 8;
    SplitMod(a);
  }

  lemma SplitMod(a: nat)
    ensures a % U32 + U32 * (a / U32 % U32) == a % (U32 * U32)
  {
    var q := a / U32;
    assert a == q * U32 + a % U32 && q == q / U32 * U32 + q % U32;
    var rest := a % U32 + U32 * (q % U32);
    assert a == q / U32 * (U32 * U32) + rest && rest < U32 * U32;
  }

  /** Messages of less than 2^61 bytes never have the same padded form. */
  lemma PaddingIdentifies(a: seq<byte>, b: seq<byte>)
    requires |a| < 0x2000000000000000 && |b| < 0x2000000000000000
    requires Padded(a, LengthBytes(|a|)) == Padded(b, LengthBytes(|b|))
    ensures a == b
  {
    PaddedParts(a, LengthBytes(|a|));
    PaddedParts(b, LengthBytes(|b|));
    LengthRead(|a|);
    LengthRead(|b|);
    hide Padded, LengthBytes, WordValue;
    var p := Padded(a, LengthBytes(|a|));
    assert |a| == |b|;
    assert a == p[..|a|] == b;
  }

  /** Adding a length to the count, with the carry found by comparing. */
  lemma CountAdds(n: nat, len: nat)
    requires len < U32
    ensures var t := LowBits(n);
      var low := (t + len * 8 % U32) % U32;
      var high := (HighBits(n) + if low < t then 1 else 0) % U32;
      low == LowBits(n + len) && (high + len / 0x20000000) % U32 == HighBits(n + len)
  {
    var a, b := n * 8, len * 8;
    var q, t, r, s := a / U32, a % U32, b / U32, b % U32;
    assert a == q * U32 + t && b == r * U32 + s && r == len / 0x20000000;
    Sum(q, t, r, s);
    ModAdds(q, if t + s < U32 then 0 else 1, r);
  }

  /** Two numbers of two words add up word by word, with a carry. */
  lemma Sum(q: nat, t: nat, r: nat, s: nat)
    requires t < U32 && s < U32
    ensures var sum, carry := (q * U32 + t) + (r * U32 + s), if t + s < U32 then 0 else 1;
      sum / U32 == q + r + carry && sum % U32 == t + s - carry * U32 == (t + s) % U32
  {
    if t + s < U32 {
      Quotient(q + r, t + s);
    } else {
      Quotient(q + r + 1, t + s - U32);
    }
  }

  lemma Quotient(q: nat, r: nat)
    requires r < U32
    ensures (q * U32 + r) / U32 == q && (q * U32 + r) % U32 == r
  {
  }

  lemma ModAdds(q: nat, c: nat, r: nat)
    ensures ((q % U32 + c) % U32 + r) % U32 == (q + r + c) % U32
  {
  }

  lemma Pending(n: nat)
    ensures LowBits(n) / 8 % 64 == n % 64
  {
    var q := n * 8 / U32;
    assert LowBits(n) == n * 8 - q * U32;
    assert LowBits(n) / 8 == n - q * 0x20000000;
    assert (n - q * 0x20000000) % 64 == n % 64;
  }

  class Context<H> {
    const f: BlockFunction<H>
    var buf: H
    var bits0: nat
    var bits1: nat
    const block: array<byte>

    /** The context has taken in `msg`: the fold of its complete blocks, its tail, and
        its length in bits modulo 2^64. */
    ghost predicate Holds(init: H, msg: seq<byte>)
      reads this, block
    {
      block.Length == 64 && buf == Fold(f, init, msg) && block[..|msg| % 64] == Tail(msg) &&
      bits0 == LowBits(|msg|) && bits1 == HighBits(|msg|)
    }

    /** MD5Init. */
    constructor (f: BlockFunction<H>, init: H)
      ensures this.f == f && Holds(init, []) && fresh(block)
    {
      this.f, buf, bits0, bits1, block := f, init, 0, 0, new byte[64](_ => 0);
    }

    method Count(len: nat, ghost n: nat)
      requires len < U32 && bits0 == LowBits(n) && bits1 == HighBits(n)
      modifies this`bits0, this`bits1
      ensures bits0 == LowBits(n + len) && bits1 == HighBits(n + len)
    {
      CountAdds(n, len);
      assert HighBits(n) % U32 == HighBits(n);
      hide LowBits, HighBits;
      var t := bits0;
      bits0 := (t + len * 8 % U32) % U32;
      if bits0 < t {
        bits1 := (bits1 + 1) % U32;
      }
      bits1 := (bits1 + len / 0x20000000) % U32;
    }

    /** MD5Update. */
    method Update(data: seq<byte>, ghost init: H, ghost msg: seq<byte>)
      requires Holds(init, msg) && |data| < U32
      modifies this`buf, this`bits0, this`bits1, block
      ensures Holds(init, msg + data)
    {
      hide LowBits, HighBits;
      Pending(|msg|);
      FoldContinues(f, init, msg, data);
      var t := bits0 / 8 % 64;
      Count(|data|, |msg|);
      ghost var all := Tail(msg) + data;
      assert |Tail(msg + data)| == |msg + data| % 64;
      hide Tail;
      if t != 0 && |data| < 64 - t {
        CopyInto(block, t, data);
        TailShort(all);
        return;
      }
      var p := FirstBlock(t, data, Tail(msg));
      Blocks(data, p);
    }

    /** The bytes that complete a block begun earlier, if one was. */
    method FirstBlock(t: nat, data: seq<byte>, ghost tail: seq<byte>) returns (p: nat)
      requires block.Length == 64 && t < 64 && block[..t] == tail && (t != 0 ==> |data| >= 64 - t)
      modifies this`buf, block
      ensures p <= |data| && Fold(f, buf, data[p..]) == Fold(f, old(buf), tail + data) &&
        Tail(data[p..]) == Tail(tail + data)
    {
      hide Tail;
      p := 0;
      ghost var all := tail + data;
      if t != 0 {
        p := 64 - t;
        CopyInto(block, t, data[..p]);
        assert all[..64] == block[..64] == block[..] && all[64..] == data[p..];
        TailDrop(all);
        buf := f(buf, block[..]);
      } else {
        assert all == data == data[0..];
      }
    }

    /** The complete blocks of the data from `p` on, and then the rest. */
    method Blocks(data: seq<byte>, p0: nat)
      requires block.Length == 64 && p0 <= |data|
      modifies this`buf, block
      ensures buf == Fold(f, old(buf), data[p0..]) && block[..|data[p0..]| % 64] == Tail(data[p0..])
    {
      hide Tail;
      var p := p0;
      while |data| - p >= 64
        invariant p0 <= p <= |data|
        invariant Fold(f, buf, data[p..]) == Fold(f, old(buf), data[p0..]) && Tail(data[p..]) == Tail(data[p0..])
      {
        CopyInto(block, 0, data[p..p + 64]);
        assert data[p..][..64] == data[p..p + 64] == block[..64] == block[..] && data[p..][64..] == data[p + 64..];
        TailDrop(data[p..]);
        buf := f(buf, block[..]);
        p := p + 64;
      }
      CopyInto(block, 0, data[p..]);
      TailShort(data[p..]);
    }

    /** MD5Final: the context ends up folded over the padded message. */
    method Final(ghost init: H, ghost msg: seq<byte>)
      requires Holds(init, msg)
      modifies this`buf, block
      ensures buf == Fold(f, init, Padded(msg, LengthBytes(|msg|)))
    {
      hide LowBits, HighBits, Tail, Zeros, WordBytes;
      Pending(|msg|);
      ghost var n, tail, length := |msg|, Tail(msg), LengthBytes(|msg|);
      FoldContinues(f, init, msg, [0x80] + Zeros(PadCount(n)) + length);
      var count := bits0 / 8 % 64;
      TailSize(msg);
      ghost var front := tail + [0x80] + Zeros(if count > 55 then 63 - count else 55 - count);
      hide Fold, PadCount;
      CopyInto(block, count, [0x80]);
      assert block[..count + 1] == tail + [0x80];
      if 63 - count < 8 {
        TwoBlocks(f, buf, tail, count, length, n);
        CopyInto(block, count + 1, Zeros(63 - count));
        assert block[..64] == block[..] == front;
        buf := f(buf, block[..]);
        CopyInto(block, 0, Zeros(56));
        front := Zeros(56);
        assert block[..56] == front;
      } else {
        OneBlock(f, buf, tail, count, length, n);
        CopyInto(block, count + 1, Zeros(55 - count));
        assert block[..56] == front;
      }
      CopyInto(block, 56, WordBytes(bits0) + WordBytes(bits1));
      assert block[..64] == block[..] == front + length;
      buf := f(buf, block[..]);
    }
  }

  lemma TailSize(msg: seq<byte>)
    ensures |Tail(msg)| == |msg| % 64
  {
  }

  lemma OneBlock<H>(f: BlockFunction<H>, h: H, tail: seq<byte>, count: nat, length: seq<byte>, n: nat)
    requires |tail| == count == n % 64 && count <= 55 && |length| == 8
    ensures Fold(f, h, tail + ([0x80] + Zeros(PadCount(n)) + length)) ==
      f(h, tail + [0x80] + Zeros(55 - count) + length)
  {
    var all := tail + ([0x80] + Zeros(PadCount(n)) + length);
    assert all == tail + [0x80] + Zeros(55 - count) + length;
    assert all[..64] == all;
  }

  lemma TwoBlocks<H>(f: BlockFunction<H>, h: H, tail: seq<byte>, count: nat, length: seq<byte>, n: nat)
    requires |tail| == count == n % 64 && count > 55 && |length| == 8
    ensures Fold(f, h, tail + ([0x80] + Zeros(PadCount(n)) + length)) ==
            f(f(h, tail + [0x80] + Zeros(63 - count)), Zeros(56) + length)
  {
    var all := tail + ([0x80] + Zeros(PadCount(n)) + length);
    assert all[..64] == tail + [0x80] + Zeros(63 - count);
    var rest := all[64..];
    assert rest == Zeros(56) + length && rest[..64] == rest && rest[64..] == [];
    var h' := f(h, all[..64]);
    assert Fold(f, h, all) == Fold(f, h', rest);
    assert Fold(f, h', rest) == Fold(f, f(h', rest), []);
  }

  /** However a message is cut into parts, streaming them gives the digest of the whole. */
  method HashParts<H>(f: BlockFunction<H>, init: H, parts: seq<seq<byte>>) returns (h: H)
    requires forall i :: 0 <= i < |parts| ==> |parts[i]| < U32
    ensures h == Fold(f, init, Padded(Flatten(parts), LengthBytes(|Flatten(parts)|)))
  {
    hide LengthBytes, Fold, Tail, Padded, LowBits, HighBits;
    var c := new Context(f, init);
    ghost var msg: seq<byte> := [];
    var k := 0;
    assert parts[0..] == parts && [] + Flatten(parts) == Flatten(parts);
    while k < |parts|
      invariant 0 <= k <= |parts| && c.f == f && fresh(c) && fresh(c.block) && c.Holds(init, msg)
      invariant msg + Flatten(parts[k..]) == Flatten(parts)
    {
      FlattenNext(parts, k, msg);
      c.Update(parts[k], init, msg);
      msg := msg + parts[k];
      k := k + 1;
    }
    assert msg == Flatten(parts);
    c.Final(init, msg);
    h := c.buf;
  }
}
