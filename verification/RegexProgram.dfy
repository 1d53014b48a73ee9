/** The compiled form of a pattern, as a list of pieces, and what it matches.

    A piece is what one item of a pattern compiles to. Jumps between
    alternatives go forward to a piece; the backward jump of a loop stays inside
    its piece. `RegexCode` lays the pieces out as bytes. */
module RegexProgram {
  import opened Common
  import opened RegexLanguage

  datatype Piece =
    | Run(bytes: seq<byte>)        // exactn
    | One(atom: Atom)              // anychar, charset, charset_not
    | Rep(op: Op, atom: Atom)      // an atom under `*`, `+` or `?`
    | Fork(to: nat)                // on_failure_jump before an alternative
    | Past(to: nat)                // jump_past_alt after an alternative

  type Program = seq<Piece>

  predicate AtomOk(a: Atom) { a.Set? ==> |a.bits| <= 32 }

  predicate PieceOk(prog: Program, i: nat)
    requires i < |prog|
  {
    match prog[i]
    case Run(bytes) => 1 <= |bytes| <= 255
    case One(a) => !a.Byte? && AtomOk(a)
    case Rep(_, a) => AtomOk(a)
    case Fork(to) => i < to <= |prog|
    case Past(to) => i + 1 < to <= |prog|
  }

  predicate WellFormed(prog: Program) { forall i {:trigger PieceOk(prog, i)} :: 0 <= i < |prog| ==> PieceOk(prog, i) }

  predicate Loops(prog: Program, i: nat)
    requires i < |prog|
  {
    prog[i].Rep? && prog[i].op != OptOp
  }

  // ----- What a program matches -----

  predicate Accepts(a: Atom, text: seq<byte>, d: nat) { d < |text| && MatchAtom(a, text[d]) }

  /** From piece `i` at position `d` the program can end at position `e`. */
  ghost predicate Ends(prog: Program, text: seq<byte>, i: nat, d: nat, e: nat)
    requires WellFormed(prog) && i <= |prog|
    decreases |prog| - i, 0, 0
  {
    if i == |prog| then d == e
    else
      assert PieceOk(prog, i);
      match prog[i]
      case Run(bytes) =>
        d + |bytes| <= |text| && text[d..d + |bytes|] == bytes && Ends(prog, text, i + 1, d + |bytes|, e)
      case One(a) => Accepts(a, text, d) && Ends(prog, text, i + 1, d + 1, e)
      case Rep(op, a) =>
        (match op
         case StarOp => LoopEnds(prog, text, i + 1, a, d, e)
         case PlusOp => Accepts(a, text, d) && LoopEnds(prog, text, i + 1, a, d + 1, e)
         case OptOp => Ends(prog, text, i + 1, d, e) || (Accepts(a, text, d) && Ends(prog, text, i + 1, d + 1, e)))
      case Fork(to) => Ends(prog, text, i + 1, d, e) || Ends(prog, text, to, d, e)
      case Past(to) => Ends(prog, text, to, d, e)
  }

  /** A loop over `a` that leaves to piece `exit` can end at position `e`. */
  ghost predicate LoopEnds(prog: Program, text: seq<byte>, exit: nat, a: Atom, d: nat, e: nat)
    requires WellFormed(prog) && exit <= |prog|
    decreases |prog| - exit, 1, |text| - d
  {
    Ends(prog, text, exit, d, e) || (Accepts(a, text, d) && LoopEnds(prog, text, exit, a, d + 1, e))
  }

  lemma {:induction false} EndsInText(prog: Program, text: seq<byte>, i: nat, d: nat, e: nat)
    requires WellFormed(prog) && i <= |prog| && d <= |text|
    requires Ends(prog, text, i, d, e)
    ensures d <= e <= |text|
    decreases |prog| - i, 0, 0
  {
    if i < |prog| {
      assert PieceOk(prog, i);
      match prog[i]
      case Run(bytes) => EndsInText(prog, text, i + 1, d + |bytes|, e);
      case One(a) => EndsInText(prog, text, i + 1, d + 1, e);
      case Rep(op, a) =>
        if op == StarOp {
          LoopEndsInText(prog, text, i + 1, a, d, e);
        } else if op == PlusOp {
          LoopEndsInText(prog, text, i + 1, a, d + 1, e);
        } else if Ends(prog, text, i + 1, d, e) {
          EndsInText(prog, text, i + 1, d, e);
        } else {
          EndsInText(prog, text, i + 1, d + 1, e);
        }
      case Fork(to) =>
        if Ends(prog, text, i + 1, d, e) {
          EndsInText(prog, text, i + 1, d, e);
        } else {
          EndsInText(prog, text, to, d, e);
        }
      case Past(to) => EndsInText(prog, text, to, d, e);
    }
  }

  lemma {:induction false} LoopEndsInText(prog: Program, text: seq<byte>, exit: nat, a: Atom, d: nat, e: nat)
    requires WellFormed(prog) && exit <= |prog| && d <= |text|
    requires LoopEnds(prog, text, exit, a, d, e)
    ensures d <= e <= |text|
    decreases |prog| - exit, 1, |text| - d
  {
    if Ends(prog, text, exit, d, e) {
      EndsInText(prog, text, exit, d, e);
    } else {
      LoopEndsInText(prog, text, exit, a, d + 1, e);
    }
  }

  // ----- When a loop may forget how to leave early -----

  /** Nothing is lost when the loop at piece `i` drops its failure point after
      each round: it ends the program, or what follows starts with a byte the
      body never accepts. */
  predicate PopHarmless(prog: Program, i: nat)
    requires i < |prog| && prog[i].Rep?
  {
    i + 1 == |prog| ||
    (prog[i + 1].Run? && prog[i + 1].bytes != [] && !MatchAtom(prog[i].atom, prog[i + 1].bytes[0]))
  }

  /** A set whose bitmap fills all 32 bytes, so that its length times 8 wraps
      to 0 in an unsigned char (regex.c:4035). */
  predicate FullMap(a: Atom) { a.Set? && !a.negated && |a.bits| == 32 }

  /** What maybe_pop_jump decides for the loop at piece `i` (regex.c:4002-4047):
      it compares the body with the byte that follows, except that it misreads a
      full bitmap as an empty one. */
  predicate PopDecided(prog: Program, i: nat)
    requires i < |prog| && prog[i].Rep?
  {
    i + 1 == |prog| ||
    (prog[i + 1].Run? && prog[i + 1].bytes != [] &&
     match prog[i].atom
     case Byte(b) => b != prog[i + 1].bytes[0]
     case Any => false
     case Set(negated, bits) => if |bits| == 32 then !negated else !MatchAtom(prog[i].atom, prog[i + 1].bytes[0]))
  }

  /** The loops that drop their failure points once their jumps are decided. */
  function Deciding(prog: Program): set<nat> { set i: nat | i < |prog| && Loops(prog, i) && PopDecided(prog, i) }

  /** A full bitmap fools the decision at piece `i`: the body accepts the byte that
      must follow the loop, and the loop is taken for one that does not. */
  predicate Fooled(prog: Program, i: nat)
    requires i < |prog|
  {
    Loops(prog, i) && i + 1 < |prog| && prog[i + 1].Run? && prog[i + 1].bytes != [] && FullMap(prog[i].atom) &&
    MatchAtom(prog[i].atom, prog[i + 1].bytes[0])
  }

  /** The decision to pop is right for every program except exactly the fooled ones. */
  lemma PopDecisionExact(prog: Program, i: nat)
    requires WellFormed(prog) && i < |prog| && Loops(prog, i)
    ensures (PopDecided(prog, i) ==> PopHarmless(prog, i)) <==> !Fooled(prog, i)
    ensures Fooled(prog, i) ==> PopDecided(prog, i)
  {
    if i + 1 < |prog| && prog[i + 1].Run? { assert PieceOk(prog, i + 1); }
  }

  // ----- What the matcher makes of a fooled loop -----

  /** A piece that accepts nothing. */
  const NEVER := One(Set(false, []))

  function LivePiece(prog: Program, i: nat): Piece
    requires i < |prog|
  {
    if Fooled(prog, i) then NEVER else prog[i]
  }

  /** The program that the matcher in effect runs: it never gets past a fooled loop. */
  function Live(prog: Program): (live: Program)
    ensures |live| == |prog| && forall i :: 0 <= i < |prog| ==> live[i] == LivePiece(prog, i)
    ensures WellFormed(prog) ==> WellFormed(live)
  {
    var live := seq(|prog|, i requires 0 <= i < |prog| => LivePiece(prog, i));
    assert WellFormed(prog) ==> WellFormed(live) by {
      if WellFormed(prog) {
        forall i | 0 <= i < |live| ensures PieceOk(live, i) { assert PieceOk(prog, i); }
      }
    }
    live
  }

  lemma {:induction false} LiveEnds(prog: Program, text: seq<byte>, i: nat, d: nat, e: nat)
    requires WellFormed(prog) && i <= |prog| && Ends(Live(prog), text, i, d, e)
    ensures Ends(prog, text, i, d, e)
    decreases |prog| - i, 0, 0
  {
    var live := Live(prog);
    if i < |prog| {
      assert live[i] == LivePiece(prog, i) && PieceOk(prog, i) && PieceOk(live, i);
      assert !Fooled(prog, i);
      match prog[i]
      case Run(bytes) => LiveEnds(prog, text, i + 1, d + |bytes|, e);
      case One(a) => LiveEnds(prog, text, i + 1, d + 1, e);
      case Rep(op, a) =>
        if op == StarOp {
          LiveLoopEnds(prog, text, i + 1, a, d, e);
        } else if op == PlusOp {
          LiveLoopEnds(prog, text, i + 1, a, d + 1, e);
        } else if Ends(live, text, i + 1, d, e) {
          LiveEnds(prog, text, i + 1, d, e);
        } else {
          LiveEnds(prog, text, i + 1, d + 1, e);
        }
      case Fork(to) =>
        if Ends(live, text, i + 1, d, e) { LiveEnds(prog, text, i + 1, d, e); } else { LiveEnds(prog, text, to, d, e); }
      case Past(to) => LiveEnds(prog, text, to, d, e);
    }
  }

  lemma {:induction false} LiveLoopEnds(prog: Program, text: seq<byte>, exit: nat, a: Atom, d: nat, e: nat)
    requires WellFormed(prog) && exit <= |prog| && LoopEnds(Live(prog), text, exit, a, d, e)
    ensures LoopEnds(prog, text, exit, a, d, e)
    decreases |prog| - exit, 1, |text| - d
  {
    if Ends(Live(prog), text, exit, d, e) {
      LiveEnds(prog, text, exit, d, e);
    } else {
      LiveLoopEnds(prog, text, exit, a, d + 1, e);
    }
  }

  // ----- How much backtracking a program can cause -----

  /** A bound on the steps of the matcher from piece `i` with `r` bytes of text left. */
  ghost function Cost(prog: Program, i: nat, r: nat): (c: nat)
    requires WellFormed(prog) && i <= |prog|
    ensures c > 0
    decreases |prog| - i, 0, 0
  {
    if i == |prog| then 1
    else
      assert PieceOk(prog, i);
      match prog[i]
      case Run(bytes) => 1 + if |bytes| <= r then Cost(prog, i + 1, r - |bytes|) else 0
      case One(a) => 1 + if 1 <= r then Cost(prog, i + 1, r - 1) else 0
      case Rep(op, a) =>
        (match op
         case StarOp => LoopCost(prog, i + 1, r)
         case PlusOp => 2 + if 1 <= r then 1 + LoopCost(prog, i + 1, r - 1) else 0
         case OptOp => 2 + Cost(prog, i + 1, r) + if 1 <= r then Cost(prog, i + 1, r - 1) else 0)
      case Fork(to) => 1 + Cost(prog, i + 1, r) + Cost(prog, to, r)
      case Past(to) => 1 + Cost(prog, to, r)
  }

  ghost function LoopCost(prog: Program, exit: nat, r: nat): (c: nat)
    requires WellFormed(prog) && exit <= |prog|
    ensures c > 0
    decreases |prog| - exit, 1, r
  {
    2 + Cost(prog, exit, r) + if 1 <= r then 1 + LoopCost(prog, exit, r - 1) else 0
  }
}
