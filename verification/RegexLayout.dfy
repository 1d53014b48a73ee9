/** The bytes a pattern compiles to, and that they hold its program. */
module RegexLayout {
  import opened Common
  import opened RegexLanguage
  import opened RegexProgram
  import opened RegexCode
  import opened RegexSyntax
  import opened RegexMeaning

  function JumpCode(op: byte, offset: int): (c: seq<byte>)
    ensures |c| == 3
  {
    [op, LowByte(offset), HighByte(offset)]
  }

  function AtomCode(a: Atom): (c: seq<byte>)
    requires AtomOk(a)
    ensures |c| == AtomSize(a)
  {
    match a
    case Byte(b) => [EXACTN, 1, b]
    case Any => [ANYCHAR]
    case Set(negated, bits) => [if negated then CHARSET_NOT else CHARSET, |bits|] + bits
  }

  function PieceCode(p: Piece): (c: seq<byte>)
    requires PlainPiece(p)
    ensures |c| == PieceSize(p)
  {
    match p
    case Run(bytes) => [EXACTN, |bytes|] + bytes
    case One(a) => AtomCode(a)
    case Rep(op, a) => RepCode(op, a)
  }

  /** A loop over an atom: its on_failure_jump, the atom and the undecided jump back. */
  function LoopCode(a: Atom): (c: seq<byte>)
    requires AtomOk(a)
    ensures |c| == AtomSize(a) + 6
  {
    JumpCode(ON_FAILURE_JUMP, AtomSize(a) + 3) + AtomCode(a) + JumpCode(MAYBE_POP_JUMP, -6 - AtomSize(a))
  }

  /** A repeated atom as regex.c:1283-1339 leaves it. */
  function RepCode(op: Op, a: Atom): (c: seq<byte>)
    requires AtomOk(a)
    ensures |c| == PieceSize(Rep(op, a))
  {
    match op
    case OptOp => JumpCode(ON_FAILURE_JUMP, AtomSize(a)) + AtomCode(a)
    case StarOp => LoopCode(a)
    case PlusOp => JumpCode(DUMMY_FAILURE_JUMP, 3) + LoopCode(a)
  }

  function PiecesCode(ps: seq<Piece>): seq<byte>
    requires PlainPieces(ps)
  {
    if ps == [] then [] else PiecesCode(ps[..|ps| - 1]) + PieceCode(ps[|ps| - 1])
  }

  /** An alternative that another follows: fork, pieces, and the jump past the rest. */
  function AltCode(ps: seq<Piece>, leave: int): (c: seq<byte>)
    requires PlainPieces(ps)
    ensures |c| == |PiecesCode(ps)| + 6
  {
    JumpCode(ON_FAILURE_JUMP, |PiecesCode(ps)| + 3) + PiecesCode(ps) + JumpCode(JUMP_PAST_ALT, leave)
  }

  /** The closed alternatives; the jump after the last of them is `leave` bytes long. */
  function ClosedCode(alts: seq<seq<Piece>>, leave: int): seq<byte>
    requires PlainAlts(alts)
    decreases |alts|
  {
    if alts == [] then []
    else
      assert PlainPieces(alts[|alts| - 1]);
      var init, last := alts[..|alts| - 1], alts[|alts| - 1];
      PlainInit(alts);
      ClosedCode(init, 3 + |PiecesCode(last)|) + AltCode(last, leave)
  }

  function AltsCode(alts: seq<seq<Piece>>): seq<byte>
    requires alts != [] && PlainAlts(alts)
  {
    assert PlainPieces(alts[|alts| - 1]);
    PlainInit(alts);
    var body := PiecesCode(alts[|alts| - 1]);
    ClosedCode(alts[..|alts| - 1], |body|) + body
  }

  // ----- One piece -----

  ghost predicate SliceAt(code: seq<byte>, p: nat, part: seq<byte>) {
    p + |part| <= |code| && code[p..p + |part|] == part
  }

  lemma SliceParts(code: seq<byte>, p: nat, left: seq<byte>, right: seq<byte>)
    requires SliceAt(code, p, left + right)
    ensures SliceAt(code, p, left) && SliceAt(code, p + |left|, right)
  {
    var all := left + right;
    assert code[p..p + |left|] == code[p..p + |all|][..|left|] == left;
    assert code[p + |left|..p + |left| + |right|] == code[p..p + |all|][|left|..] == right;
  }

  lemma JumpSlice(code: seq<byte>, p: nat, op: byte, offset: int)
    requires SliceAt(code, p, JumpCode(op, offset)) && -0x8000 <= offset < 0x8000
    ensures JumpAt(code, p, op, p + 3 + offset)
  {
    var part := JumpCode(op, offset);
    assert part[0] == code[p..p + 3][0] && part[1] == code[p..p + 3][1] && part[2] == code[p..p + 3][2];
    NumberRoundTrip(code, p + 1, offset);
  }

  lemma AtomSlice(code: seq<byte>, p: nat, a: Atom)
    requires AtomOk(a) && SliceAt(code, p, AtomCode(a))
    ensures AtomAt(code, p, a)
  {
    var part := AtomCode(a);
    assert part[0] == code[p..p + |part|][0];
    match a
    case Byte(_) => assert part[1] == code[p..p + 3][1] && part[2] == code[p..p + 3][2];
    case Any =>
    case Set(negated, bits) =>
      assert part[1] == code[p..p + |part|][1];
      SliceParts(code, p, part[..2], bits);
  }

  lemma LoopSlice(code: seq<byte>, prog: Program, i: nat, p: nat, start: nat)
    requires i < |prog| && Loops(prog, i) && AtomOk(prog[i].atom) && |code| < 0x8000
    requires start == p + LoopOffset(prog[i].op) && SliceAt(code, start, LoopCode(prog[i].atom))
    ensures JumpAt(code, start, ON_FAILURE_JUMP, p + PieceSize(prog[i]))
    ensures AtomAt(code, start + 3, prog[i].atom)
    ensures BackAt(code, prog, i, start + 3 + AtomSize(prog[i].atom), start)
    ensures ByteAt(code, start + 3 + AtomSize(prog[i].atom)) == MAYBE_POP_JUMP
  {
    hide JumpCode, AtomCode;
    var a, n: int := prog[i].atom, AtomSize(prog[i].atom);
    SliceParts(code, start, JumpCode(ON_FAILURE_JUMP, n + 3) + AtomCode(a), JumpCode(MAYBE_POP_JUMP, -6 - n));
    SliceParts(code, start, JumpCode(ON_FAILURE_JUMP, n + 3), AtomCode(a));
    JumpSlice(code, start, ON_FAILURE_JUMP, n + 3);
    AtomSlice(code, start + 3, a);
    JumpSlice(code, start + 3 + n, MAYBE_POP_JUMP, -6 - n);
  }

  /** The backward jump of loop `i`, laid out at `p`, is not decided yet. */
  predicate UndecidedAt(code: seq<byte>, prog: Program, i: nat, p: nat)
    requires i < |prog|
  {
    Loops(prog, i) ==> ByteAt(code, p + BodyOffset(prog[i].op) + AtomSize(prog[i].atom)) == MAYBE_POP_JUMP
  }

  predicate Laid(code: seq<byte>, prog: Program, i: nat, p: nat)
    requires i < |prog|
  {
    PieceAt(code, prog, i, p) && UndecidedAt(code, prog, i, p)
  }

  lemma RepSlice(code: seq<byte>, prog: Program, i: nat, p: nat)
    requires i < |prog| && prog[i].Rep? && PlainPiece(prog[i]) && |code| < 0x8000
    requires SliceAt(code, p, RepCode(prog[i].op, prog[i].atom))
    ensures RepAt(code, prog, i, p) && UndecidedAt(code, prog, i, p)
  {
    hide JumpCode, AtomCode, LoopCode, AtomAt, BackAt, JumpAt, SliceAt, ByteAt;
    var Rep(op, a) := prog[i];
    if op == OptOp {
      SliceParts(code, p, JumpCode(ON_FAILURE_JUMP, AtomSize(a)), AtomCode(a));
      JumpSlice(code, p, ON_FAILURE_JUMP, AtomSize(a));
      AtomSlice(code, p + 3, a);
    } else if op == StarOp {
      LoopSlice(code, prog, i, p, p);
    } else {
      SliceParts(code, p, JumpCode(DUMMY_FAILURE_JUMP, 3), LoopCode(a));
      JumpSlice(code, p, DUMMY_FAILURE_JUMP, 3);
      LoopSlice(code, prog, i, p, p + 3);
    }
  }

  lemma PieceSlice(code: seq<byte>, prog: Program, i: nat, p: nat)
    requires i < |prog| && PlainPiece(prog[i]) && |code| < 0x8000 && SliceAt(code, p, PieceCode(prog[i]))
    ensures Laid(code, prog, i, p)
  {
    match prog[i]
    case Run(bytes) =>
      var part := PieceCode(prog[i]);
      assert part[0] == code[p..p + |part|][0] && part[1] == code[p..p + |part|][1];
      SliceParts(code, p, part[..2], bytes);
    case One(a) => AtomSlice(code, p, a);
    case Rep(op, a) => RepSlice(code, prog, i, p);
  }

  // ----- A stretch of pieces -----

  ghost predicate HoldsFrom(code: seq<byte>, prog: Program, i: nat, j: nat)
    requires j <= |prog|
  {
    forall x {:trigger Laid(code, prog, x, Addr(prog, x))} :: i <= x < j ==> Laid(code, prog, x, Addr(prog, x))
  }

  lemma PiecesCodeSplit(ps: seq<Piece>)
    requires PlainPieces(ps) && ps != []
    ensures var init, last := ps[..|ps| - 1], ps[|ps| - 1];
      PlainPieces(init) && PlainPiece(last) && PiecesCode(ps) == PiecesCode(init) + PieceCode(last)
  {
    hide PieceCode;
  }

  lemma ProgSplit(prog: Program, i: nat, ps: seq<Piece>)
    requires ps != [] && i + |ps| <= |prog| && prog[i..i + |ps|] == ps
    ensures prog[i..i + |ps| - 1] == ps[..|ps| - 1] && prog[i + |ps| - 1] == ps[|ps| - 1]
  {
    assert prog[i..i + |ps| - 1] == prog[i..i + |ps|][..|ps| - 1];
    assert prog[i + |ps| - 1] == prog[i..i + |ps|][|ps| - 1];
  }

  lemma {:induction false} StretchHolds(code: seq<byte>, prog: Program, i: nat, ps: seq<Piece>)
    requires PlainPieces(ps) && i + |ps| <= |prog| && prog[i..i + |ps|] == ps && |code| < 0x8000
    requires SliceAt(code, Addr(prog, i), PiecesCode(ps))
    ensures Addr(prog, i + |ps|) == Addr(prog, i) + |PiecesCode(ps)|
    ensures HoldsFrom(code, prog, i, i + |ps|)
    decreases |ps|
  {
    hide PieceCode, Laid, PlainPiece, PlainPieces, SliceAt;
    if ps != [] {
      var init, last, j := ps[..|ps| - 1], ps[|ps| - 1], i + |ps| - 1;
      PiecesCodeSplit(ps);
      ProgSplit(prog, i, ps);
      SliceParts(code, Addr(prog, i), PiecesCode(init), PieceCode(last));
      StretchHolds(code, prog, i, init);
      PieceSlice(code, prog, j, Addr(prog, j));
    }
  }

  // ----- Alternatives -----

  function CodeBase(alts: seq<seq<Piece>>, k: nat): nat
    requires PlainAlts(alts) && k <= |alts|
  {
    if k == 0 then 0
    else
      assert PlainPieces(alts[k - 1]);
      CodeBase(alts, k - 1) + |PiecesCode(alts[k - 1])| + 6
  }

  lemma {:induction false} CodeBasePrefix(alts: seq<seq<Piece>>, init: seq<seq<Piece>>, k: nat)
    requires PlainAlts(alts) && PlainAlts(init) && init <= alts && k <= |init|
    ensures CodeBase(alts, k) == CodeBase(init, k)
    decreases k
  {
    hide PiecesCode;
    if k > 0 { CodeBasePrefix(alts, init, k - 1); }
  }

  lemma {:induction false} ClosedCodeLength(alts: seq<seq<Piece>>, leave: int)
    requires PlainAlts(alts)
    ensures |ClosedCode(alts, leave)| == CodeBase(alts, |alts|)
    decreases |alts|
  {
    if alts != [] {
      var init, last := alts[..|alts| - 1], alts[|alts| - 1];
      assert PlainPieces(last);
      PlainInit(alts);
      ClosedCodeLength(init, 3 + |PiecesCode(last)|);
      CodeBasePrefix(alts, init, |init|);
    }
  }

  lemma SlicePrefix(front: seq<byte>, code: seq<byte>, p: nat, part: seq<byte>)
    requires front <= code && SliceAt(front, p, part)
    ensures SliceAt(code, p, part)
  {
    assert code[p..p + |part|] == front[p..p + |part|];
  }

  /** How far the jump after alternative `k` leads. */
  function LeaveBytes(alts: seq<seq<Piece>>, leave: int, k: nat): int
    requires PlainAlts(alts) && k < |alts|
  {
    if k + 1 == |alts| then leave else
      assert PlainPieces(alts[k + 1]);
      3 + |PiecesCode(alts[k + 1])|
  }

  lemma {:induction false} ClosedCoded(alts: seq<seq<Piece>>, leave: int, k: nat)
    requires PlainAlts(alts) && k < |alts| && PlainPieces(alts[k])
    ensures SliceAt(ClosedCode(alts, leave), CodeBase(alts, k), AltCode(alts[k], LeaveBytes(alts, leave, k)))
    decreases |alts|
  {
    hide AltCode, PiecesCode;
    var init, last := alts[..|alts| - 1], alts[|alts| - 1];
    PlainInit(alts);
    var front := ClosedCode(init, 3 + |PiecesCode(last)|);
    ClosedCodeLength(init, 3 + |PiecesCode(last)|);
    CodeBasePrefix(alts, init, |init|);
    if k < |init| {
      ClosedCoded(init, 3 + |PiecesCode(last)|, k);
      CodeBasePrefix(alts, init, k);
      assert LeaveBytes(init, 3 + |PiecesCode(last)|, k) == LeaveBytes(alts, leave, k);
      SlicePrefix(front, ClosedCode(alts, leave), CodeBase(alts, k), AltCode(alts[k], LeaveBytes(alts, leave, k)));
    } else {
      var part := AltCode(last, leave);
      assert (front + part)[|front|..|front| + |part|] == part;
    }
  }

  lemma AltsCoded(alts: seq<seq<Piece>>, k: nat)
    requires PlainAlts(alts) && k + 1 < |alts| && PlainPieces(alts[k]) && PlainPieces(alts[k + 1])
    ensures SliceAt(AltsCode(alts), CodeBase(alts, k),
                    AltCode(alts[k], (if k + 2 < |alts| then 3 else 0) + |PiecesCode(alts[k + 1])|))
  {
    hide AltCode, PiecesCode;
    var init, last := alts[..|alts| - 1], alts[|alts| - 1];
    PlainInit(alts);
    var leave := |PiecesCode(last)|;
    ClosedCoded(init, leave, k);
    CodeBasePrefix(alts, init, k);
    SlicePrefix(ClosedCode(init, leave), AltsCode(alts), CodeBase(alts, k),
      AltCode(alts[k], LeaveBytes(init, leave, k)));
  }

  lemma LastCoded(alts: seq<seq<Piece>>)
    requires PlainAlts(alts) && alts != [] && PlainPieces(alts[|alts| - 1])
    ensures SliceAt(AltsCode(alts), CodeBase(alts, |alts| - 1), PiecesCode(alts[|alts| - 1]))
    ensures |AltsCode(alts)| == CodeBase(alts, |alts| - 1) + |PiecesCode(alts[|alts| - 1])|
  {
    hide PiecesCode, ClosedCode, CodeBase;
    var init, body := alts[..|alts| - 1], PiecesCode(alts[|alts| - 1]);
    PlainInit(alts);
    ClosedCodeLength(init, |body|);
    CodeBasePrefix(alts, init, |init|);
  }

  // ----- Addresses -----

  lemma {:induction false} StretchAddr(prog: Program, i: nat, ps: seq<Piece>)
    requires PlainPieces(ps) && i + |ps| <= |prog| && prog[i..i + |ps|] == ps
    ensures Addr(prog, i + |ps|) == Addr(prog, i) + |PiecesCode(ps)|
    decreases |ps|
  {
    hide PieceCode, PlainPiece, PlainPieces;
    if ps != [] {
      PiecesCodeSplit(ps);
      ProgSplit(prog, i, ps);
      StretchAddr(prog, i, ps[..|ps| - 1]);
    }
  }

  lemma {:induction false} BaseAddr(alts: seq<seq<Piece>>, k: nat)
    requires PlainAlts(alts) && k < |alts|
    ensures Base(alts, k) <= |ProgramOf(alts)| && Addr(ProgramOf(alts), Base(alts, k)) == CodeBase(alts, k)
    decreases k
  {
    hide ProgramOf, PiecesCode, PlainAlts;
    if k == 0 {
      assert alts[..0] == [];
    } else {
      PlainAt(alts, k - 1);
      BaseAddr(alts, k - 1);
      AltAddr(alts, k - 1);
    }
  }

  lemma AltAddr(alts: seq<seq<Piece>>, k: nat)
    requires PlainAlts(alts) && k + 1 < |alts| && PlainPieces(alts[k])
    requires Base(alts, k) <= |ProgramOf(alts)| && Addr(ProgramOf(alts), Base(alts, k)) == CodeBase(alts, k)
    ensures EndOf(alts, k) < Base(alts, k + 1) <= |ProgramOf(alts)|
    ensures Addr(ProgramOf(alts), EndOf(alts, k)) == CodeBase(alts, k) + 3 + |PiecesCode(alts[k])|
    ensures Addr(ProgramOf(alts), Base(alts, k + 1)) == CodeBase(alts, k + 1)
  {
    hide ProgramOf, PiecesCode, PlainAlts, PlainPieces, Base;
    var prog, b, ps := ProgramOf(alts), Base(alts, k), alts[k];
    ProgramLaid(alts, k);
    BaseStep(alts, k);
    StretchAddr(prog, b + 1, ps);
    assert Addr(prog, b + 1) == Addr(prog, b) + 3;
    assert Addr(prog, b + 1 + |ps| + 1) == Addr(prog, b + 1 + |ps|) + 3;
  }

  lemma EndAddr(alts: seq<seq<Piece>>, k: nat)
    requires PlainAlts(alts) && k < |alts| && PlainPieces(alts[k])
    ensures EndOf(alts, k) <= |ProgramOf(alts)|
    ensures Addr(ProgramOf(alts), EndOf(alts, k)) ==
            CodeBase(alts, k) + (if k + 1 < |alts| then 3 else 0) + |PiecesCode(alts[k])|
  {
    hide ProgramOf, PiecesCode, PlainAlts, PlainPieces;
    BaseAddr(alts, k);
    if k + 1 < |alts| {
      AltAddr(alts, k);
    } else {
      ProgramLength(alts);
      StretchAddr(ProgramOf(alts), Base(alts, k), alts[k]);
    }
  }

  // ----- The whole code -----

  lemma AltSlices(code: seq<byte>, p: nat, ps: seq<Piece>, leave: int)
    requires PlainPieces(ps) && SliceAt(code, p, AltCode(ps, leave)) && |code| < 0x8000 && 0 <= leave < 0x8000
    ensures JumpAt(code, p, ON_FAILURE_JUMP, p + |PiecesCode(ps)| + 6)
    ensures SliceAt(code, p + 3, PiecesCode(ps))
    ensures JumpAt(code, p + 3 + |PiecesCode(ps)|, JUMP_PAST_ALT, p + |PiecesCode(ps)| + 6 + leave)
  {
    hide PiecesCode, JumpCode, JumpAt;
    var body := PiecesCode(ps);
    SliceParts(code, p, JumpCode(ON_FAILURE_JUMP, |body| + 3) + body, JumpCode(JUMP_PAST_ALT, leave));
    SliceParts(code, p, JumpCode(ON_FAILURE_JUMP, |body| + 3), body);
    JumpSlice(code, p, ON_FAILURE_JUMP, |body| + 3);
    JumpSlice(code, p + 3 + |body|, JUMP_PAST_ALT, leave);
  }

  lemma AltHolds(alts: seq<seq<Piece>>, k: nat)
    requires PlainAlts(alts) && k + 1 < |alts| && PlainPieces(alts[k]) && |AltsCode(alts)| < 0x8000
    ensures Base(alts, k + 1) <= |ProgramOf(alts)| &&
      HoldsFrom(AltsCode(alts), ProgramOf(alts), Base(alts, k), Base(alts, k + 1))
  {
    hide ProgramOf, PiecesCode, AltsCode, PlainAlts, PlainPieces, Addr, AltCode, Base, HoldsFrom, JumpAt, SliceAt;
    var p, body := CodeBase(alts, k), PiecesCode(alts[k]);
    PlainAt(alts, k + 1);
    var leave := (if k + 2 < |alts| then 3 else 0) + |PiecesCode(alts[k + 1])|;
    BaseAddr(alts, k);
    AltAddr(alts, k);
    EndAddr(alts, k + 1);
    ProgramLaid(alts, k);
    BaseStep(alts, k);
    AltsCoded(alts, k);
    LeaveFits(alts, k);
    AltSlices(AltsCode(alts), p, alts[k], leave);
    AltPiecesHold(AltsCode(alts), ProgramOf(alts), Base(alts, k), alts[k], p, p + |body| + 6, EndOf(alts, k + 1),
      p + |body| + 6 + leave);
  }

  lemma PlainAt(alts: seq<seq<Piece>>, k: nat)
    requires PlainAlts(alts) && k < |alts|
    ensures PlainPieces(alts[k])
  {
  }

  lemma LeaveFits(alts: seq<seq<Piece>>, k: nat)
    requires PlainAlts(alts) && k + 1 < |alts| && PlainPieces(alts[k + 1]) && |AltsCode(alts)| < 0x8000
    ensures (if k + 2 < |alts| then 3 else 0) + |PiecesCode(alts[k + 1])| < 0x8000
  {
    hide PiecesCode, AltsCode, PlainAlts, PlainPieces, CodeBase;
    if k + 2 < |alts| {
      PlainAt(alts, k + 2);
      AltsCoded(alts, k + 1);
    } else {
      LastCoded(alts);
    }
  }

  lemma AltPiecesHold(code: seq<byte>, prog: Program, b: nat, ps: seq<Piece>, p: nat, next: nat, end: nat, leave: nat)
    requires PlainPieces(ps) && b + |ps| + 2 <= |prog| && end <= |prog| && |code| < 0x8000
    requires prog[b] == Fork(b + |ps| + 2) && prog[b + 1..b + 1 + |ps|] == ps && prog[b + 1 + |ps|] == Past(end)
    requires Addr(prog, b) == p && Addr(prog, b + |ps| + 2) == next && Addr(prog, end) == leave
    requires JumpAt(code, p, ON_FAILURE_JUMP, next) && SliceAt(code, p + 3, PiecesCode(ps))
    requires JumpAt(code, p + 3 + |PiecesCode(ps)|, JUMP_PAST_ALT, leave)
    ensures HoldsFrom(code, prog, b, b + |ps| + 2)
  {
    hide JumpAt, PiecesCode;
    assert Addr(prog, b + 1) == p + 3;
    StretchHolds(code, prog, b + 1, ps);
    assert Laid(code, prog, b, Addr(prog, b));
    assert Laid(code, prog, b + 1 + |ps|, Addr(prog, b + 1 + |ps|));
  }

  lemma {:induction false} AltsHoldUpTo(alts: seq<seq<Piece>>, k: nat)
    requires PlainAlts(alts) && k < |alts| && |AltsCode(alts)| < 0x8000
    ensures Base(alts, k) <= |ProgramOf(alts)| && HoldsFrom(AltsCode(alts), ProgramOf(alts), 0, Base(alts, k))
    decreases k
  {
    hide ProgramOf, AltsCode, PlainAlts, Laid;
    if k == 0 {
      assert alts[..0] == [];
    } else {
      PlainAt(alts, k - 1);
      AltsHoldUpTo(alts, k - 1);
      AltHolds(alts, k - 1);
    }
  }

  lemma UndecidedPops(code: seq<byte>, prog: Program, i: nat)
    requires i < |prog| && Loops(prog, i) && Laid(code, prog, i, Addr(prog, i))
    ensures Pops(code, prog, i) == PopDecided(prog, i)
  {
    hide PieceAt, PopDecided, Addr;
  }

  lemma AllLaid(code: seq<byte>, prog: Program)
    requires |code| == Addr(prog, |prog|) && HoldsFrom(code, prog, 0, |prog|)
    ensures Holds(code, prog) && PopSet(code, prog) == Deciding(prog)
  {
    hide PieceAt, PopDecided, Addr, Pops, UndecidedAt;
    forall i | 0 <= i < |prog| ensures PieceAt(code, prog, i, Addr(prog, i)) {
      assert Laid(code, prog, i, Addr(prog, i));
    }
    forall i: nat | i < |prog| && Loops(prog, i) ensures Pops(code, prog, i) == PopDecided(prog, i) {
      assert Laid(code, prog, i, Addr(prog, i));
      UndecidedPops(code, prog, i);
    }
  }

  /** The bytes of the alternatives hold their program, with every loop undecided, as long
      as every jump fits 16 bits. */
  lemma AltsHold(alts: seq<seq<Piece>>)
    requires alts != [] && PlainAlts(alts) && |AltsCode(alts)| < 0x8000
    ensures Holds(AltsCode(alts), ProgramOf(alts))
    ensures PopSet(AltsCode(alts), ProgramOf(alts)) == Deciding(ProgramOf(alts))
  {
    hide ProgramOf, AltsCode, PlainAlts, Laid, PiecesCode, CodeBase, Holds, PopSet, Deciding;
    var last := |alts| - 1;
    PlainAt(alts, last);
    AltsHoldUpTo(alts, last);
    LastCoded(alts);
    BaseAddr(alts, last);
    EndAddr(alts, last);
    ProgramLength(alts);
    StretchHolds(AltsCode(alts), ProgramOf(alts), Base(alts, last), alts[last]);
    AllLaid(AltsCode(alts), ProgramOf(alts));
  }

  function PatternCode(pat: Pattern): seq<byte>
    requires Modelled(pat)
  {
    CompiledWellFormed(pat);
    AltsCode(AltPieces(pat))
  }

  /** Compiling keeps the meaning: bytes no longer than a signed 16-bit offset
      reaches hold a program that matches exactly the words of the pattern. */
  lemma PatternCodeHolds(pat: Pattern)
    requires Modelled(pat) && |PatternCode(pat)| < 0x8000
    ensures WellFormed(CompiledProgram(pat)) && Holds(PatternCode(pat), CompiledProgram(pat))
    ensures PopSet(PatternCode(pat), CompiledProgram(pat)) == Deciding(CompiledProgram(pat))
  {
    CompiledWellFormed(pat);
    AltsHold(AltPieces(pat));
  }
}
