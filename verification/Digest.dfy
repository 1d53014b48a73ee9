/** What MD5 and SHA-1 have in common: a message is padded, cut into blocks of 64
    bytes, and folded. The function of one block is a parameter. */
module Digest {
  import opened Common

  type BlockFunction<!H> = (H, seq<byte>) -> H

  /** The chaining value after the complete blocks of `msg`. */
  function Fold<H>(f: BlockFunction<H>, h: H, msg: seq<byte>): H
    decreases |msg|
  {
    if |msg| < 64 then h else Fold(f, f(h, msg[..64]), msg[64..])
  }

  /** The bytes after the complete blocks. */
  function Tail(msg: seq<byte>): (t: seq<byte>)
    ensures |t| == |msg| % 64
  {
    msg[|msg| - |msg| % 64..]
  }

  /** What comes after `msg` only meets its tail. */
  lemma {:induction false} FoldContinues<H>(f: BlockFunction<H>, h: H, msg: seq<byte>, more: seq<byte>)
    ensures Fold(f, h, msg + more) == Fold(f, Fold(f, h, msg), Tail(msg) + more)
    ensures Tail(msg + more) == Tail(Tail(msg) + more)
    decreases |msg|
  {
    hide Tail;
    if |msg| < 64 {
      TailShort(msg);
    } else {
      var rest := msg[64..];
      TailDrop(msg);
      TailDrop(msg + more);
      assert (msg + more)[..64] == msg[..64] && (msg + more)[64..] == rest + more;
      FoldContinues(f, f(h, msg[..64]), rest, more);
    }
  }

  lemma TailShort(msg: seq<byte>)
    requires |msg| < 64
    ensures Tail(msg) == msg
  {
  }

  lemma TailDrop(msg: seq<byte>)
    requires |msg| >= 64
    ensures Tail(msg) == Tail(msg[64..])
  {
  }

  function Zeros(n: nat): (r: seq<byte>)
    ensures |r| == n
  {
    seq(n, _ => 0)
  }

  /** How many zero bytes bring a message and one byte to eight short of a block. */
  function PadCount(n: nat): (k: nat)
    ensures (n + 1 + k) % 64 == 56 && k < 64
  {
    if n % 64 < 56 then 55 - n % 64 else 119 - n % 64
  }

  /** A message padded with a one bit, zeros, and eight bytes of length. */
  function Padded(msg: seq<byte>, length: seq<byte>): (p: seq<byte>)
    requires |length| == 8
    ensures |p| % 64 == 0
  {
    msg + ([0x80] + Zeros(PadCount(|msg|)) + length)
  }

  /** The padded message is the shortest of whole blocks that has room for the message, the
      one bit and the length. */
  lemma PaddedLeast(msg: seq<byte>, length: seq<byte>)
    requires |length| == 8
    ensures |msg| + 9 <= |Padded(msg, length)| < |msg| + 9 + 64
  {
  }

  /** A padded message begins with the message, has the one bit behind it and ends with the
      length. */
  lemma PaddedParts(msg: seq<byte>, length: seq<byte>)
    requires |length| == 8
    ensures var p := Padded(msg, length);
      p[..|msg|] == msg && p[|msg|] == 0x80 && p[|p| - 8..] == length &&
      forall i :: |msg| < i < |p| - 8 ==> p[i] == 0
  {
  }

  function Flatten(parts: seq<seq<byte>>): seq<byte> {
    if parts == [] then [] else parts[0] + Flatten(parts[1..])
  }

  lemma PaddedIs(msg: seq<byte>, length: seq<byte>)
    requires |length| == 8
    ensures msg + [0x80] + Zeros(PadCount(|msg|)) + length == Padded(msg, length)
  {
  }

  lemma FlattenNext(parts: seq<seq<byte>>, k: nat, msg: seq<byte>)
    requires k < |parts|
    ensures msg + Flatten(parts[k..]) == msg + parts[k] + Flatten(parts[k + 1..])
  {
    assert parts[k..][1..] == parts[k + 1..];
  }

  /** memcpy or memset into a block. */
  method CopyInto(dst: array<byte>, at: nat, src: seq<byte>)
    requires at + |src| <= dst.Length
    modifies dst
    ensures dst[..at + |src|] == old(dst[..at]) + src && dst[at + |src|..] == old(dst[at + |src|..])
  {
    var k := 0;
    while k < |src|
      invariant 0 <= k <= |src|
      invariant forall i :: 0 <= i < dst.Length && !(at <= i < at + k) ==> dst[i] == old(dst[i])
      invariant forall i :: at <= i < at + k ==> dst[i] == src[i - at]
    {
      dst[at + k] := src[k];
      k := k + 1;
    }
  }
}
