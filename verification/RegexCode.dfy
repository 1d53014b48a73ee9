/** The byte code of gnu_regex/regex.c: opcodes, two-byte jump offsets, and how
    the pieces of a program lie in the buffer. */
module RegexCode {
  import opened Common
  import opened RegexLanguage
  import opened RegexProgram

  // Values of re_opcode_t used by the modelled patterns (regex.c:249-378).
  const EXACTN: byte := 1
  const ANYCHAR: byte := 2
  const CHARSET: byte := 3
  const CHARSET_NOT: byte := 4
  const JUMP: byte := 12
  const JUMP_PAST_ALT: byte := 13
  const ON_FAILURE_JUMP: byte := 14
  const POP_FAILURE_JUMP: byte := 16
  const MAYBE_POP_JUMP: byte := 17
  const DUMMY_FAILURE_JUMP: byte := 18

  // ----- STORE_NUMBER and EXTRACT_NUMBER (regex.c:384-407) -----

  function LowByte(n: int): byte { n % 256 }
  function HighByte(n: int): byte { (n / 256) % 256 }

  function SignExtend(b: byte): int { if b < 128 then b else b - 256 }

  function ByteAt(code: seq<byte>, i: int): byte { if 0 <= i < |code| then code[i] else 0 }

  function Num(code: seq<byte>, i: int): int { ByteAt(code, i) + SignExtend(ByteAt(code, i + 1)) * 256 }

  /** A stored number reads back exactly when it fits a signed 16-bit word. */
  lemma NumberRoundTrip(code: seq<byte>, i: nat, n: int)
    requires i + 1 < |code| && code[i] == LowByte(n) && code[i + 1] == HighByte(n)
    ensures Num(code, i) == n <==> -0x8000 <= n < 0x8000
  {
    var h := n / 256;
    assert n == 256 * h + n % 256;
    if -0x8000 <= n < 0x8000 {
      assert -128 <= h < 128;
      assert h % 256 == if h < 0 then h + 256 else h;
    } else {
      var b: byte := h % 256;
      assert -128 <= SignExtend(b) < 128;
    }
  }

  // ----- Layout -----

  function AtomSize(a: Atom): (s: nat)
    ensures s > 0
  {
    match a
    case Byte(_) => 3
    case Any => 1
    case Set(_, bits) => 2 + |bits|
  }

  function PieceSize(p: Piece): (s: nat)
    ensures s > 0
  {
    match p
    case Run(bytes) => 2 + |bytes|
    case One(a) => AtomSize(a)
    case Rep(op, a) => AtomSize(a) + (match op case StarOp => 6 case PlusOp => 9 case OptOp => 3)
    case Fork(_) => 3
    case Past(_) => 3
  }

  /** Where piece `i` starts. */
  function Addr(prog: Program, i: nat): (r: nat)
    requires i <= |prog|
  {
    if i == 0 then 0 else Addr(prog, i - 1) + PieceSize(prog[i - 1])
  }

  lemma {:induction false} AddrMonotone(prog: Program, i: nat, j: nat)
    requires i < j <= |prog|
    ensures Addr(prog, i) + PieceSize(prog[i]) <= Addr(prog, j)
    decreases j
  {
    if i < j - 1 { AddrMonotone(prog, i, j - 1); }
  }

  predicate AtomAt(code: seq<byte>, p: nat, a: Atom) {
    p + AtomSize(a) <= |code| &&
    match a
    case Byte(c) => code[p] == EXACTN && code[p + 1] == 1 && code[p + 2] == c
    case Any => code[p] == ANYCHAR
    case Set(negated, bits) =>
      code[p] == (if negated then CHARSET_NOT else CHARSET) &&
      code[p + 1] == |bits| && code[p + 2..p + 2 + |bits|] == bits
  }

  predicate JumpAt(code: seq<byte>, p: nat, op: byte, to: int) {
    p + 3 <= |code| && code[p] == op && Num(code, p + 1) == to - p - 3
  }

  // Where the parts of a repeated piece start, relative to the piece.
  function LoopOffset(op: Op): nat { if op == PlusOp then 3 else 0 }
  function BodyOffset(op: Op): nat { LoopOffset(op) + 3 }

  /** A loop's jump may become an ordinary one, unless it is fooled, and one that pops
      where that is harmless or the loop is fooled. */
  predicate MayDecide(prog: Program, i: nat, op: byte)
    requires i < |prog| && prog[i].Rep?
  {
    (op == JUMP && !Fooled(prog, i)) || (op == POP_FAILURE_JUMP && (PopHarmless(prog, i) || Fooled(prog, i)))
  }

  /** The backward jump that closes a loop, not yet decided or decided. */
  predicate BackAt(code: seq<byte>, prog: Program, i: nat, p: nat, to: nat)
    requires i < |prog| && prog[i].Rep?
  {
    p + 3 <= |code| && Num(code, p + 1) == to - p - 3 &&
    (code[p] == MAYBE_POP_JUMP || MayDecide(prog, i, code[p]))
  }

  predicate RepAt(code: seq<byte>, prog: Program, i: nat, p: nat)
    requires i < |prog| && prog[i].Rep?
  {
    var Rep(op, a) := prog[i];
    var body := p + BodyOffset(op);
    (op == PlusOp ==> JumpAt(code, p, DUMMY_FAILURE_JUMP, body)) &&
    JumpAt(code, p + LoopOffset(op), ON_FAILURE_JUMP, p + PieceSize(prog[i])) &&
    AtomAt(code, body, a) &&
    (op != OptOp ==> BackAt(code, prog, i, body + AtomSize(a), p + LoopOffset(op)))
  }

  predicate PieceAt(code: seq<byte>, prog: Program, i: nat, p: nat)
    requires i < |prog|
  {
    match prog[i]
    case Run(bytes) =>
      p + 2 + |bytes| <= |code| && code[p] == EXACTN && code[p + 1] == |bytes| && code[p + 2..p + 2 + |bytes|] == bytes
    case One(a) => AtomAt(code, p, a)
    case Rep(_, _) => RepAt(code, prog, i, p)
    case Fork(to) => to <= |prog| && JumpAt(code, p, ON_FAILURE_JUMP, Addr(prog, to))
    case Past(to) => to <= |prog| && JumpAt(code, p, JUMP_PAST_ALT, Addr(prog, to))
  }

  /** `code` holds `prog`, with some loops' jumps possibly already decided. */
  predicate Holds(code: seq<byte>, prog: Program) {
    |code| == Addr(prog, |prog|) && forall i {:trigger PieceAt(code, prog, i, Addr(prog, i))} :: 0 <= i < |prog| ==>
      PieceAt(code, prog, i, Addr(prog, i))
  }

  /** Where the backward jump of loop `i` is. */
  function BackAddr(prog: Program, i: nat): nat
    requires i < |prog| && prog[i].Rep?
  {
    Addr(prog, i) + BodyOffset(prog[i].op) + AtomSize(prog[i].atom)
  }

  /** Loop `i` drops its failure point after each round: its jump pops, or is to decide so. */
  predicate Pops(code: seq<byte>, prog: Program, i: nat)
    requires i < |prog| && prog[i].Rep?
  {
    ByteAt(code, BackAddr(prog, i)) == POP_FAILURE_JUMP ||
    (ByteAt(code, BackAddr(prog, i)) == MAYBE_POP_JUMP && PopDecided(prog, i))
  }

  /** The loops that drop their failure points. */
  function PopSet(code: seq<byte>, prog: Program): set<nat> {
    set i: nat | i < |prog| && Loops(prog, i) && Pops(code, prog, i)
  }

  // ----- A piece depends on its own bytes only -----

  predicate SameBytes(code: seq<byte>, code': seq<byte>, lo: nat, hi: nat) {
    |code| == |code'| && hi <= |code| && forall j :: lo <= j < hi ==> code[j] == code'[j]
  }

  lemma SliceLocal(code: seq<byte>, code': seq<byte>, lo: nat, hi: nat)
    requires lo <= hi && SameBytes(code, code', lo, hi)
    ensures code[lo..hi] == code'[lo..hi]
  {
  }

  lemma AtomAtLocal(code: seq<byte>, code': seq<byte>, p: nat, a: Atom)
    requires AtomAt(code, p, a) && SameBytes(code, code', p, p + AtomSize(a))
    ensures AtomAt(code', p, a)
  {
    if a.Set? { SliceLocal(code, code', p + 2, p + 2 + |a.bits|); }
  }

  lemma JumpAtLocal(code: seq<byte>, code': seq<byte>, p: nat, op: byte, to: int)
    requires JumpAt(code, p, op, to) && SameBytes(code, code', p, p + 3)
    ensures JumpAt(code', p, op, to)
  {
  }

  lemma RepAtLocal(code: seq<byte>, code': seq<byte>, prog: Program, i: nat, p: nat)
    requires i < |prog| && prog[i].Rep? && RepAt(code, prog, i, p)
    requires SameBytes(code, code', p, p + BodyOffset(prog[i].op) + AtomSize(prog[i].atom))
    requires prog[i].op != OptOp ==>
      BackAt(code', prog, i, p + BodyOffset(prog[i].op) + AtomSize(prog[i].atom), p + LoopOffset(prog[i].op))
    ensures RepAt(code', prog, i, p)
  {
    var Rep(op, a) := prog[i];
    var body := p + BodyOffset(op);
    if op == PlusOp { JumpAtLocal(code, code', p, DUMMY_FAILURE_JUMP, body); }
    JumpAtLocal(code, code', p + LoopOffset(op), ON_FAILURE_JUMP, p + PieceSize(prog[i]));
    AtomAtLocal(code, code', body, a);
  }

  lemma PieceAtLocal(code: seq<byte>, code': seq<byte>, prog: Program, i: nat, p: nat)
    requires i < |prog| && PieceAt(code, prog, i, p) && SameBytes(code, code', p, p + PieceSize(prog[i]))
    ensures PieceAt(code', prog, i, p)
  {
    match prog[i]
    case Run(bytes) => SliceLocal(code, code', p + 2, p + 2 + |bytes|);
    case One(a) => AtomAtLocal(code, code', p, a);
    case Rep(_, _) => RepAtLocal(code, code', prog, i, p);
    case Fork(to) => JumpAtLocal(code, code', p, ON_FAILURE_JUMP, Addr(prog, to));
    case Past(to) => JumpAtLocal(code, code', p, JUMP_PAST_ALT, Addr(prog, to));
  }

  lemma DecideOwnPiece(code: seq<byte>, prog: Program, i: nat, p: nat, op: byte)
    requires i < |prog| && Loops(prog, i) && RepAt(code, prog, i, p)
    requires MayDecide(prog, i, op)
    ensures RepAt(code[p + BodyOffset(prog[i].op) + AtomSize(prog[i].atom) := op], prog, i, p)
  {
    var b := p + BodyOffset(prog[i].op) + AtomSize(prog[i].atom);
    var code' := code[b := op];
    assert ByteAt(code', b + 1) == ByteAt(code, b + 1) && ByteAt(code', b + 2) == ByteAt(code, b + 2);
    RepAtLocal(code, code', prog, i, p);
  }

  lemma BackAddrInside(prog: Program, i: nat)
    requires i < |prog| && Loops(prog, i)
    ensures Addr(prog, i) + 3 < BackAddr(prog, i) &&
      BackAddr(prog, i) + 3 == Addr(prog, i) + PieceSize(prog[i]) == Addr(prog, i + 1)
  {
  }

  /** Deciding one loop's jump in place leaves every other piece alone. */
  lemma DecideKeepsHolds(code: seq<byte>, prog: Program, i: nat, op: byte)
    requires Holds(code, prog) && i < |prog| && Loops(prog, i)
    requires BackAddr(prog, i) < |code|
    requires MayDecide(prog, i, op)
    ensures Holds(code[BackAddr(prog, i) := op], prog)
  {
    var code' := code[BackAddr(prog, i) := op];
    forall j | 0 <= j < |prog| ensures PieceAt(code', prog, j, Addr(prog, j)) {
      DecideKeepsPiece(code, prog, i, op, j);
    }
  }

  lemma DecideKeepsPiece(code: seq<byte>, prog: Program, i: nat, op: byte, j: nat)
    requires i < |prog| && Loops(prog, i) && j < |prog| && PieceAt(code, prog, j, Addr(prog, j))
    requires |code| == Addr(prog, |prog|) && BackAddr(prog, i) < |code|
    requires MayDecide(prog, i, op)
    ensures PieceAt(code[BackAddr(prog, i) := op], prog, j, Addr(prog, j))
  {
    hide Addr, MayDecide, RepAt, AtomAt, JumpAt, PieceSize;
    if j == i {
      DecideOwnPiece(code, prog, i, Addr(prog, i), op);
    } else {
      OtherPieceApart(prog, i, j);
      PieceAtLocal(code, code[BackAddr(prog, i) := op], prog, j, Addr(prog, j));
    }
  }

  lemma OtherPieceApart(prog: Program, i: nat, j: nat)
    requires i < |prog| && Loops(prog, i) && j < |prog| && j != i
    ensures BackAddr(prog, i) < Addr(prog, j) || Addr(prog, j) + PieceSize(prog[j]) <= BackAddr(prog, i)
    ensures Addr(prog, j) + PieceSize(prog[j]) <= Addr(prog, |prog|)
  {
    BackAddrInside(prog, i);
    AddrMonotone(prog, j, |prog|);
    if j < i { AddrMonotone(prog, j, i); } else { AddrMonotone(prog, i, j); }
  }

  /** Deciding a jump the way it is bound to go changes no loop's ways. */
  lemma DecideKeepsPopSet(code: seq<byte>, prog: Program, i: nat, op: byte)
    requires |code| == Addr(prog, |prog|) && i < |prog| && Loops(prog, i) && BackAddr(prog, i) < |code|
    requires op == if Pops(code, prog, i) then POP_FAILURE_JUMP else JUMP
    ensures PopSet(code[BackAddr(prog, i) := op], prog) == PopSet(code, prog)
  {
    var code' := code[BackAddr(prog, i) := op];
    forall j: nat | j < |prog| && Loops(prog, j) ensures Pops(code', prog, j) == Pops(code, prog, j) {
      if j != i {
        OtherPieceApart(prog, i, j);
        BackAddrInside(prog, j);
      }
    }
  }
}
