/** A family of patterns on which the matcher is wrong: maybe_pop_jump takes a
    bitmap of 32 bytes for an empty one (gnu_regex/regex.c:4035). */
module RegexFooled {
  import opened Common
  import opened RegexLanguage
  import opened RegexProgram
  import opened RegexCode
  import opened RegexMachine
  import opened RegexInvariant
  import opened RegexRounds
  import opened RegexSyntax
  import opened RegexMeaning
  import opened RegexLayout
  import opened RegexCompile
  import opened RegexLive

  /** `[..]*c` for a set with a full bitmap that holds `c`. */
  function FooledProgram(a: Atom, c: byte): Program { [Rep(StarOp, a), Run([c])] }

  function FooledPattern(elems: seq<Elem>, c: byte): Pattern {
    [[Item(Bracket(false, elems), [StarOp]), Item(Char(c, false), [])]]
  }

  /** Every pattern `[..]*c` whose set holds `c` and a byte of 248 or more is a failure
      of the matcher: the text `c` is one of its words, yet the run on it returns -1. */
  lemma FooledPatternFails(elems: seq<Elem>, c: byte)
    requires Modelled(FooledPattern(elems, c)) && SomeCovers(elems, c)
    requires exists x: byte :: x >= 248 && SomeCovers(elems, x)
    ensures !SafePattern(FooledPattern(elems, c)) && Denotes(FooledPattern(elems, c), [c])
    ensures exists code' :: Returns([c], 0, InitialState(PatternCode(FooledPattern(elems, c)), 0), 5, NO_MATCH, code')
  {
    FooledUnsafe(elems, c);
    FooledWord(elems, c);
    FooledRun(elems, c);
  }

  lemma FooledWord(elems: seq<Elem>, c: byte)
    requires Modelled(FooledPattern(elems, c)) && SomeCovers(elems, c)
    ensures Denotes(FooledPattern(elems, c), [c])
  {
    var pat, a := FooledPattern(elems, c), AtomOf(Bracket(false, elems));
    AtomOfMatches(Bracket(false, elems), c);
    hide PatternCode, Trim, FullBits, FooledPattern, Denotes, WellFormed, CompiledProgram, AtomSize, Ends;
    FooledCompiled(elems, c);
    CompiledWellFormed(pat);
    FooledMatches(a, c);
    CompiledMeaning(pat, [c], 0, 1);
    assert [c][0..1] == [c];
  }

  lemma FooledRun(elems: seq<Elem>, c: byte)
    requires Modelled(FooledPattern(elems, c)) && SomeCovers(elems, c)
    requires exists x: byte :: x >= 248 && SomeCovers(elems, x)
    ensures exists code' :: Returns([c], 0, InitialState(PatternCode(FooledPattern(elems, c)), 0), 5, NO_MATCH, code')
  {
    var pat, a := FooledPattern(elems, c), AtomOf(Bracket(false, elems));
    FullMapReaches(elems);
    AtomOfMatches(Bracket(false, elems), c);
    hide PatternCode, Holds, Trim, FullBits, Returns, FooledPattern, WellFormed, CompiledProgram, AtomSize;
    FooledCompiled(elems, c);
    PatternCodeHolds(pat);
    FooledMatcherFails(a, c, PatternCode(pat));
  }

  lemma FooledUnsafe(elems: seq<Elem>, c: byte)
    requires SomeCovers(elems, c) && exists x: byte :: x >= 248 && SomeCovers(elems, x)
    ensures !SafePattern(FooledPattern(elems, c))
  {
    var pat := FooledPattern(elems, c);
    FooledOp();
    hide SomeCovers, Collapse;
    assert Misread(pat[0], 0);
    assert !SafeItems(pat[0]);
  }

  lemma FooledOp()
    ensures Collapse([StarOp]) == StarOp
  {
    assert [StarOp][0] == StarOp;
  }

  lemma FooledPieces(elems: seq<Elem>, c: byte)
    ensures Pieces(FooledPattern(elems, c)[0]) == FooledProgram(AtomOf(Bracket(false, elems)), c)
  {
    hide AtomOf, Collapse, ApplyOps;
    var items, a := FooledPattern(elems, c)[0], AtomOf(Bracket(false, elems));
    FooledOp();
    NoPieces();
    PiecesStep(items, 0);
    PiecesStep(items, 1);
    hide Pieces;
    assert items[..0] == [] && items[..2] == items;
    assert Pieces(items[..1]) == [Rep(StarOp, a)];
  }

  lemma FooledPiecesCode(a: Atom, c: byte)
    requires AtomOk(a)
    ensures PlainPieces(FooledProgram(a, c)) && PiecesCode(FooledProgram(a, c)) == LoopCode(a) + [EXACTN, 1, c]
  {
    hide LoopCode, PiecesCode;
    NoPieces();
    PiecesCodeSnoc([], Rep(StarOp, a));
    PiecesCodeSnoc([Rep(StarOp, a)], Run([c]));
    assert [] + [Rep(StarOp, a)] == [Rep(StarOp, a)] && [Rep(StarOp, a)] + [Run([c])] == FooledProgram(a, c);
    assert [EXACTN, 1] + [c] == [EXACTN, 1, c];
    assert [] + LoopCode(a) == LoopCode(a);
  }

  lemma LoopCodeJump(a: Atom, c: byte)
    requires AtomOk(a)
    ensures var code := LoopCode(a) + [EXACTN, 1, c];
      |code| == AtomSize(a) + 9 && ByteAt(code, AtomSize(a) + 3) == MAYBE_POP_JUMP
  {
    hide AtomCode;
    assert LoopCode(a)[AtomSize(a) + 3] == MAYBE_POP_JUMP;
  }

  lemma FooledCompiled(elems: seq<Elem>, c: byte)
    requires Modelled(FooledPattern(elems, c))
    ensures CompiledProgram(FooledPattern(elems, c)) == FooledProgram(AtomOf(Bracket(false, elems)), c)
    ensures var a, code := AtomOf(Bracket(false, elems)), PatternCode(FooledPattern(elems, c));
      |code| == AtomSize(a) + 9 < 0x8000 && ByteAt(code, AtomSize(a) + 3) == MAYBE_POP_JUMP
  {
    hide Pieces, PiecesCode, AtomOf, LoopCode, FooledProgram, Modelled, AtomSize;
    var pat, a := FooledPattern(elems, c), AtomOf(Bracket(false, elems));
    var ps, alts := FooledProgram(a, c), AltPieces(pat);
    FooledPieces(elems, c);
    FooledPiecesCode(a, c);
    LoopCodeJump(a, c);
    SmallAtom(a);
    assert alts == [ps] && alts[..0] == [];
    CompiledWellFormed(pat);
    SingleAlt(ps);
  }

  lemma SmallAtom(a: Atom)
    requires AtomOk(a)
    ensures AtomSize(a) <= 34
  {
  }

  lemma SingleAlt(ps: seq<Piece>)
    requires PlainPieces(ps) && PlainAlts([ps])
    ensures ProgramOf([ps]) == ps && AltsCode([ps]) == PiecesCode(ps)
  {
    hide PiecesCode;
    assert [ps][..0] == [];
    ClosedNothing(|PiecesCode(ps)|);
    assert [] + PiecesCode(ps) == PiecesCode(ps);
  }

  /** The run behind FooledPatternFails, for any code that holds the program undecided. */
  lemma FooledMatcherFails(a: Atom, c: byte, code: seq<byte>)
    requires FullMap(a) && MatchAtom(a, c) && WellFormed(FooledProgram(a, c)) && Holds(code, FooledProgram(a, c))
    requires ByteAt(code, BackAddr(FooledProgram(a, c), 0)) == MAYBE_POP_JUMP
    ensures Ends(FooledProgram(a, c), [c], 0, 0, 1)
    ensures exists code' :: Returns([c], 0, InitialState(code, 0), 5, NO_MATCH, code')
  {
    FooledMatches(a, c);
    assert BackAddr(FooledProgram(a, c), 0) == AtomSize(a) + 3;
    hide Returns, Holds, Ends, Step, WellFormed, FullMap, MatchAtom;
    var code' := code[AtomSize(a) + 3 := POP_FAILURE_JUMP];
    FooledCode(a, c, code);
    FooledTail(a, c, code', State(code', 0, 1, [], 5, UNSET));
    FooledHead(a, c, code);
  }

  /** The code of the pattern with its loop jump still undecided. */
  ghost predicate FooledReady(a: Atom, c: byte, code: seq<byte>) {
    FullMap(a) && MatchAtom(a, c) && WellFormed(FooledProgram(a, c)) && Holds(code, FooledProgram(a, c)) &&
    AtomSize(a) + 3 < |code| && code[AtomSize(a) + 3] == MAYBE_POP_JUMP
  }

  /** The state inside the loop, before its body at 3 or after it. */
  function FooledInside(a: Atom, code: seq<byte>, p: int, d: nat): State {
    State(code, p, d, [Frame(AtomSize(a) + 6, 0)], 5, UNSET)
  }

  lemma FooledEnter(a: Atom, c: byte, code: seq<byte>)
    requires FooledReady(a, c, code)
    ensures Step([c], 0, InitialState(code, 0)) == Next(FooledInside(a, code, 3, 0))
  {
    var prog := FooledProgram(a, c);
    assert Addr(prog, 1) == AtomSize(a) + 6 && Addr(prog, 0) == 0;
    LoopTopHolds(prog, code, At(0));
    hide Holds, WellFormed, AtomAt, Addr, DecidesPop;
    OnFailureStep([c], 0, InitialState(code, 0), AtomSize(a) + 6);
    assert [] + [Frame(AtomSize(a) + 6, 0)] == [Frame(AtomSize(a) + 6, 0)] && Room(5, 0) == 5;
  }

  lemma FooledOver(a: Atom, c: byte, code: seq<byte>)
    requires FooledReady(a, c, code)
    ensures Step([c], 0, FooledInside(a, code, 3, 0)) == Next(FooledInside(a, code, AtomSize(a) + 3, 1))
  {
    var prog := FooledProgram(a, c);
    assert Addr(prog, 0) == 0;
    BodyHolds(prog, code, 0);
    hide Holds, WellFormed, AtomAt, Addr, DecidesPop;
    AtomStep([c], 0, FooledInside(a, code, 3, 0), a);
  }

  lemma FooledBack(a: Atom, c: byte, code: seq<byte>)
    requires FooledReady(a, c, code)
    ensures var code' := code[AtomSize(a) + 3 := POP_FAILURE_JUMP];
      Step([c], 0, FooledInside(a, code, AtomSize(a) + 3, 1)) == Next(State(code', 0, 1, [], 5, UNSET))
  {
    var prog, s := FooledProgram(a, c), FooledInside(a, code, AtomSize(a) + 3, 1);
    assert Addr(prog, 0) == 0;
    assert Addr(prog, 1) == AtomSize(a) + 6 && BackAddr(prog, 0) == AtomSize(a) + 3;
    LoopTopHolds(prog, code, At(0));
    DecisionIsPopDecided(prog, code, 0);
    FooledCode(a, c, code);
    hide Holds, WellFormed, AtomAt, Addr, DecidesPop;
    assert s.stack[..0] == [];
  }

  /** Into the loop, over the byte, and back, dropping the only way out early. */
  lemma FooledHead(a: Atom, c: byte, code: seq<byte>)
    requires FooledReady(a, c, code)
    ensures var code' := code[AtomSize(a) + 3 := POP_FAILURE_JUMP];
      Returns([c], 0, State(code', 0, 1, [], 5, UNSET), 2, NO_MATCH, code') ==>
      Returns([c], 0, InitialState(code, 0), 5, NO_MATCH, code')
  {
    var text, code' := [c], code[AtomSize(a) + 3 := POP_FAILURE_JUMP];
    FooledEnter(a, c, code);
    FooledOver(a, c, code);
    FooledBack(a, c, code);
    hide FooledReady, Step;
    var s2 := FooledInside(a, code, AtomSize(a) + 3, 1);
    if Returns(text, 0, State(code', 0, 1, [], 5, UNSET), 2, NO_MATCH, code') {
      assert Returns(text, 0, s2, 3, NO_MATCH, code');
      assert Returns(text, 0, FooledInside(a, code, 3, 0), 4, NO_MATCH, code');
    }
  }

  lemma FooledMatches(a: Atom, c: byte)
    requires MatchAtom(a, c) && WellFormed(FooledProgram(a, c))
    ensures Ends(FooledProgram(a, c), [c], 0, 0, 1)
  {
    var prog := FooledProgram(a, c);
    assert PieceOk(prog, 0) && PieceOk(prog, 1);
    assert [c][0..1] == [c];
    assert Ends(prog, [c], 2, 1, 1);
    assert Ends(prog, [c], 1, 0, 1);
    assert LoopEnds(prog, [c], 1, a, 0, 1);
  }

  lemma FooledCode(a: Atom, c: byte, code: seq<byte>)
    requires FullMap(a) && WellFormed(FooledProgram(a, c)) && Holds(code, FooledProgram(a, c))
    ensures var prog, b := FooledProgram(a, c), AtomSize(a) + 3;
      b + 2 < |code| && Num(code[b := POP_FAILURE_JUMP], b + 1) == Num(code, b + 1) == -b - 3 &&
      var code' := code[b := POP_FAILURE_JUMP];
      JumpAt(code', 0, ON_FAILURE_JUMP, b + 3) && AtomAt(code', 3, a) &&
      b + 6 <= |code'| && code'[b + 3] == EXACTN && code'[b + 4] == 1 && code'[b + 5..b + 6] == [c] && |code'| == b + 6
  {
    var prog, b := FooledProgram(a, c), AtomSize(a) + 3;
    var code' := code[b := POP_FAILURE_JUMP];
    LoopTopHolds(prog, code, At(0));
    BodyHolds(prog, code, 0);
    BackTarget(prog, code, 0);
    PieceAfterLoop(prog, code, 0);
    assert Addr(prog, 2) == b + 6;
    JumpAtLocal(code, code', 0, ON_FAILURE_JUMP, b + 3);
    AtomAtLocal(code, code', 3, a);
  }

  /** From the top of the loop again: the text is used up, and so is the way out. */
  lemma FooledTail(a: Atom, c: byte, code: seq<byte>, s: State)
    requires AtomOk(a) && JumpAt(code, 0, ON_FAILURE_JUMP, AtomSize(a) + 6) && AtomAt(code, 3, a)
    requires var q := AtomSize(a) + 6;
      |code| == q + 3 && code[q] == EXACTN && code[q + 1] == 1 && code[q + 2..q + 3] == [c]
    requires s == State(code, 0, 1, [], 5, UNSET)
    ensures Returns([c], 0, s, 2, NO_MATCH, code)
  {
    var text, q := [c], AtomSize(a) + 6;
    OnFailureStep(text, 0, s, q);
    assert Room(5, 0) == 5;
    var s1 := s.(stack := [Frame(q, 1)], p := 3);
    assert Step(text, 0, s) == Next(s1) by { assert [] + [Frame(q, 1)] == [Frame(q, 1)]; }
    AtomStep(text, 0, s1, a);
    var s2 := s1.(stack := [], p := q, d := 1);
    assert s1.stack[..0] == [];
    assert Fail(s1, 0) == Next(s2);
    RunStep(text, 0, s2, [c]);
    assert Step(text, 0, s2) == Return(NO_MATCH, code);
    assert Returns(text, 0, s2, 0, NO_MATCH, code);
    assert Returns(text, 0, s1, 1, NO_MATCH, code);
  }
}
