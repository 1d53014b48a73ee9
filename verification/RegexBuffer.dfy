/** The pattern buffer and the macros and subroutines that write byte code into
    it (gnu_regex/regex.c:876-964 and 2060-2104). Places in the buffer are offsets,
    so they survive a reallocation. */
module RegexBuffer {
  import opened Common
  import opened RegexCode
  import opened RegexLayout

  const MAX_BUF_SIZE := 0x1_0000
  const INIT_BUF_SIZE := 32

  /** STORE_NUMBER (regex.c:384-388). */
  method StoreNumber(buf: array<byte>, i: nat, n: int)
    requires i + 1 < buf.Length
    modifies buf
    ensures buf[..] == old(buf[..])[i := LowByte(n)][i + 1 := HighByte(n)]
  {
    buf[i] := LowByte(n);
    buf[i + 1] := HighByte(n);
  }

  /** store_op1. */
  method StoreOp1(buf: array<byte>, op: byte, loc: nat, arg: int)
    requires loc + 3 <= buf.Length
    modifies buf
    ensures buf[..loc] == old(buf[..loc]) && buf[loc..loc + 3] == JumpCode(op, arg) &&
      buf[loc + 3..] == old(buf[loc + 3..])
  {
    buf[loc] := op;
    StoreNumber(buf, loc + 1, arg);
  }

  /** insert_op1: the bytes from `loc` to `end` move up by three to make room. */
  method InsertOp1(buf: array<byte>, op: byte, loc: nat, arg: int, end: nat)
    requires loc <= end && end + 3 <= buf.Length
    modifies buf
    ensures buf[..end + 3] == old(buf[..loc]) + JumpCode(op, arg) + old(buf[loc..end])
  {
    var pfrom, pto := end, end + 3;
    while pfrom != loc
      invariant loc <= pfrom <= end && pto == pfrom + 3
      invariant forall j :: 0 <= j < pfrom ==> buf[j] == old(buf[j])
      invariant forall j :: pfrom <= j < end ==> buf[j + 3] == old(buf[j])
    {
      pfrom, pto := pfrom - 1, pto - 1;
      buf[pto] := buf[pfrom];
    }
    assert buf[..loc] == old(buf[..loc]) && buf[loc + 3..end + 3] == old(buf[loc..end]);
    StoreOp1(buf, op, loc, arg);
    assert buf[..end + 3] == buf[..loc] + buf[loc..loc + 3] + buf[loc + 3..][..end - loc];
  }

  /** The fields of struct re_pattern_buffer that compiling, matching and
      searching use. `allocated` is the length of `buffer`. */
  class PatternBuffer {
    var buffer: array<byte>
    var used: nat
    var fastmap: array<bool>
    var fastmapAccurate: bool
    var canBeNull: bool

    constructor ()
      ensures Valid() && fresh(buffer) && fresh(fastmap) && buffer.Length == 0 && used == 0 && !fastmapAccurate
    {
      buffer := new byte[0];
      fastmap := new bool[256];
      used, fastmapAccurate, canBeNull := 0, false, false;
    }

    ghost predicate Valid()
      reads this
    {
      used <= buffer.Length && fastmap.Length == 256
    }

    ghost function Code(): (code: seq<byte>)
      requires Valid()
      reads this, buffer
    {
      buffer[..used]
    }

    /** What is written up to `b`. */
    ghost function Written(b: nat): (code: seq<byte>)
      requires b <= buffer.Length
      reads this, buffer
    {
      buffer[..b]
    }

    /** GET_BUFFER_SPACE with EXTEND_BUFFER: the buffer doubles until `n` more bytes fit. */
    method GetBufferSpace(b: nat, n: nat) returns (ok: bool)
      requires b <= buffer.Length && 0 < buffer.Length <= MAX_BUF_SIZE
      modifies this`buffer
      ensures buffer == old(buffer) || fresh(buffer)
      ensures b <= buffer.Length && 0 < buffer.Length <= MAX_BUF_SIZE && Written(b) == old(Written(b))
      ensures ok <==> b + n <= MAX_BUF_SIZE
      ensures ok ==> b + n <= buffer.Length
    {
      while b + n > buffer.Length
        invariant buffer == old(buffer) || fresh(buffer)
        invariant b <= buffer.Length && 0 < buffer.Length <= MAX_BUF_SIZE && Written(b) == old(Written(b))
        decreases MAX_BUF_SIZE - buffer.Length
      {
        if buffer.Length == MAX_BUF_SIZE {
          return false;
        }
        var size := if 2 * buffer.Length > MAX_BUF_SIZE then MAX_BUF_SIZE else 2 * buffer.Length;
        var old_buffer := buffer;
        var grown := new byte[size];
        forall j | 0 <= j < old_buffer.Length { grown[j] := old_buffer[j]; }
        buffer := grown;
        assert buffer[..b] == old_buffer[..b];
      }
      ok := true;
    }

    /** BUF_PUSH. */
    method Push(b: nat, c: byte) returns (ok: bool)
      requires b <= buffer.Length && 0 < buffer.Length <= MAX_BUF_SIZE
      modifies this`buffer, buffer
      ensures buffer == old(buffer) || fresh(buffer)
      ensures 0 < buffer.Length <= MAX_BUF_SIZE && (ok <==> b + 1 <= MAX_BUF_SIZE)
      ensures ok ==> b + 1 <= buffer.Length && Written(b + 1) == old(Written(b)) + [c]
    {
      ok := GetBufferSpace(b, 1);
      if ok { buffer[b] := c; }
    }

    /** INSERT_JUMP at `loc` with room made first; `offset` is what STORE_NUMBER stores. */
    method InsertJump(b: nat, op: byte, loc: nat, offset: int) returns (ok: bool)
      requires loc <= b <= buffer.Length && 0 < buffer.Length <= MAX_BUF_SIZE
      modifies this`buffer, buffer
      ensures buffer == old(buffer) || fresh(buffer)
      ensures 0 < buffer.Length <= MAX_BUF_SIZE && (ok <==> b + 3 <= MAX_BUF_SIZE)
      ensures ok ==> b + 3 <= buffer.Length
      ensures ok ==> Written(b + 3) == old(Written(b))[..loc] + JumpCode(op, offset) + old(Written(b))[loc..]
    {
      ok := GetBufferSpace(b, 3);
      if ok {
        ghost var before := buffer[..b];
        assert buffer[..loc] == before[..loc] && buffer[loc..b] == before[loc..];
        InsertOp1(buffer, op, loc, offset, b);
      }
    }

    /** STORE_JUMP at the end, with room made first. */
    method AppendJump(b: nat, op: byte, offset: int) returns (ok: bool)
      requires b <= buffer.Length && 0 < buffer.Length <= MAX_BUF_SIZE
      modifies this`buffer, buffer
      ensures buffer == old(buffer) || fresh(buffer)
      ensures 0 < buffer.Length <= MAX_BUF_SIZE && (ok <==> b + 3 <= MAX_BUF_SIZE)
      ensures ok ==> b + 3 <= buffer.Length && Written(b + 3) == old(Written(b)) + JumpCode(op, offset)
    {
      ok := InsertJump(b, op, b, offset);
    }

    /** STORE_JUMP into room left earlier at `loc`. */
    method FillJump(b: nat, op: byte, loc: nat, offset: int)
      requires loc + 3 <= b <= buffer.Length
      modifies buffer
      ensures Written(b) == old(Written(b))[..loc] + JumpCode(op, offset) + old(Written(b))[loc + 3..]
    {
      StoreOp1(buffer, op, loc, offset);
      assert buffer[..b] == buffer[..loc] + buffer[loc..loc + 3] + buffer[loc + 3..][..b - loc - 3];
    }
  }
}
