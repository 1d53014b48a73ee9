/** Every round of the matcher keeps the invariant: one lemma per opcode. */
module RegexRounds {
  import opened Common
  import opened RegexLanguage
  import opened RegexProgram
  import opened RegexCode
  import opened RegexMachine
  import opened RegexTrials
  import opened RegexInvariant

  /** A move to a cheaper point with the same trials is a good round. */
  lemma MoveGood(k: Task, st: State, a: Account, st': State, pt': Point)
    requires Invariant(k, st, a) && Placed(k, st', pt', a.qs)
    requires st'.stack == st.stack && st'.best == st.best
    requires PointTrials(k, pt', st'.d, |st.stack|) == PointTrials(k, a.pt, st.d, |st.stack|)
    requires PointCost(k.prog, pt', |k.text| - st'.d) < PointCost(k.prog, a.pt, |k.text| - st.d)
    ensures GoodRound(k, st, a, Next(st'), a.(pt := pt'))
  {
    MoveKeeps(k, st, a, st', pt');
  }

  // ----- Opcodes that consume text -----

  /** The opcodes of an atom accept exactly what the atom does. */
  lemma AtomStep(text: seq<byte>, pos: nat, st: State, a: Atom)
    requires 0 <= st.p && AtomOk(a) && AtomAt(st.code, st.p, a) && st.d <= |text|
    ensures Step(text, pos, st) ==
            if Accepts(a, text, st.d) then Next(st.(p := st.p + AtomSize(a), d := st.d + 1)) else Fail(st, pos)
  {
    if a.Set? && st.d < |text| {
      MapHitIsInMap(st.code, st.p + 1, a.bits, text[st.d]);
    } else if a.Byte? {
      assert ByteAt(st.code, st.p + 2) == a.c;
      assert Exactly(st.code, st.p + 2, 1, text, st.d) == Accepts(a, text, st.d);
    }
  }

  lemma MapHitIsInMap(code: seq<byte>, p: nat, bits: seq<byte>, c: byte)
    requires p + 1 + |bits| <= |code| && code[p] == |bits| <= 32 && code[p + 1..p + 1 + |bits|] == bits
    ensures MapHit(code, p, c) == InMap(bits, c)
  {
    if c / 8 < |bits| {
      assert code[p + 1..p + 1 + |bits|][c / 8] == code[p + 1 + c / 8];
    }
  }

  lemma ExactlyIsSlice(code: seq<byte>, q: nat, bytes: seq<byte>, text: seq<byte>, d: nat)
    requires q + |bytes| <= |code| && code[q..q + |bytes|] == bytes
    ensures Exactly(code, q, |bytes|, text, d) <==> d + |bytes| <= |text| && text[d..d + |bytes|] == bytes
  {
    var n := |bytes|;
    forall j | 0 <= j < n ensures bytes[j] == ByteAt(code, q + j) { assert code[q..q + n][j] == code[q + j]; }
    if d + n <= |text| {
      forall j | d <= j < d + n ensures text[j] == text[d..d + n][j - d] {}
    }
  }

  lemma RunStep(text: seq<byte>, pos: nat, st: State, bytes: seq<byte>)
    requires 0 <= st.p && st.p + 2 + |bytes| <= |st.code|
    requires st.code[st.p] == EXACTN && st.code[st.p + 1] == |bytes| && st.code[st.p + 2..st.p + 2 + |bytes|] == bytes
    ensures Step(text, pos, st) ==
            if st.d + |bytes| <= |text| && text[st.d..st.d + |bytes|] == bytes
            then Next(st.(p := st.p + 2 + |bytes|, d := st.d + |bytes|)) else Fail(st, pos)
  {
    ExactlyIsSlice(st.code, st.p + 2, bytes, text, st.d);
  }

  lemma RunHolds(prog: Program, code: seq<byte>, i: nat)
    requires WellFormed(prog) && Holds(code, prog) && i < |prog| && prog[i].Run?
    ensures var bytes, p := prog[i].bytes, Addr(prog, i);
      p + 2 + |bytes| <= |code| && code[p] == EXACTN && code[p + 1] == |bytes| && code[p + 2..p + 2 + |bytes|] == bytes
  {
    assert PieceAt(code, prog, i, Addr(prog, i)) && PieceOk(prog, i);
  }

  lemma RunTried(k: Task, i: nat, d: nat, n: nat)
    requires WellFormed(k.prog) && i < |k.prog| && k.prog[i].Run? && d <= |k.text|
    ensures var bytes := k.prog[i].bytes;
      if d + |bytes| <= |k.text| && k.text[d..d + |bytes|] == bytes
      then PointTrials(k, At(i), d, n) == PointTrials(k, At(i + 1), d + |bytes|, n) &&
        PointCost(k.prog, At(i + 1), |k.text| - d - |bytes|) < PointCost(k.prog, At(i), |k.text| - d)
      else PointTrials(k, At(i), d, n) == [Miss]
  {
    assert PieceOk(k.prog, i);
  }

  lemma RunRound(k: Task, st: State, a: Account, i: nat) returns (a': Account)
    requires i < |k.prog| && k.prog[i].Run? && a.pt == At(i) && Invariant(k, st, a)
    ensures GoodRound(k, st, a, Step(k.text, k.pos, st), a')
  {
    hide Trials, Cost, Holds, WellFormed, PopSet, Midway, Step, Answered, Sized, StackTrials, PointTrials, PointCost,
      Fail, SameWays;
    var bytes := k.prog[i].bytes;
    RunHolds(k.prog, st.code, i);
    RunStep(k.text, k.pos, st, bytes);
    RunTried(k, i, st.d, |st.stack|);
    if st.d + |bytes| <= |k.text| && k.text[st.d..st.d + |bytes|] == bytes {
      a' := a.(pt := At(i + 1));
      MoveGood(k, st, a, st.(p := st.p + 2 + |bytes|, d := st.d + |bytes|), At(i + 1));
    } else {
      a' := DeadEndFails(k, st, a);
    }
  }

  lemma OneHolds(prog: Program, code: seq<byte>, i: nat)
    requires WellFormed(prog) && Holds(code, prog) && i < |prog| && prog[i].One?
    ensures AtomOk(prog[i].atom) && AtomAt(code, Addr(prog, i), prog[i].atom)
  {
    assert PieceAt(code, prog, i, Addr(prog, i)) && PieceOk(prog, i);
  }

  lemma OneRound(k: Task, st: State, a: Account, i: nat) returns (a': Account)
    requires i < |k.prog| && k.prog[i].One? && a.pt == At(i) && Invariant(k, st, a)
    ensures GoodRound(k, st, a, Step(k.text, k.pos, st), a')
  {
    var atom := k.prog[i].atom;
    OneHolds(k.prog, st.code, i);
    AtomStep(k.text, k.pos, st, atom);
    if Accepts(atom, k.text, st.d) {
      a' := a.(pt := At(i + 1));
      MoveGood(k, st, a, st.(p := st.p + AtomSize(atom), d := st.d + 1), At(i + 1));
    } else {
      a' := DeadEndFails(k, st, a);
    }
  }

  lemma BodyHolds(prog: Program, code: seq<byte>, i: nat)
    requires WellFormed(prog) && Holds(code, prog) && i < |prog| && prog[i].Rep?
    ensures AtomOk(prog[i].atom) && AtomAt(code, PointAddr(prog, Body(i)), prog[i].atom)
  {
    assert PieceAt(code, prog, i, Addr(prog, i)) && PieceOk(prog, i);
  }

  /** After the body, an optional piece is over and a loop comes to its backward jump. */
  function AfterBody(prog: Program, i: nat): Point
    requires i < |prog| && prog[i].Rep?
  {
    if prog[i].op == OptOp then At(i + 1) else Back(i)
  }

  lemma BodyPlaced(k: Task, st: State, i: nat, qs: seq<Pending>)
    requires i < |k.prog| && k.prog[i].Rep? && Placed(k, st, Body(i), qs) && Accepts(k.prog[i].atom, k.text, st.d)
    ensures Placed(k, st.(p := st.p + AtomSize(k.prog[i].atom), d := st.d + 1), AfterBody(k.prog, i), qs)
  {
    if k.prog[i].op == OptOp { assert i !in PopSet(st.code, k.prog); }
  }

  lemma BodyTried(k: Task, i: nat, d: nat, n: nat)
    requires WellFormed(k.prog) && i < |k.prog| && k.prog[i].Rep? && d <= |k.text|
    ensures if Accepts(k.prog[i].atom, k.text, d)
            then PointTrials(k, Body(i), d, n) == PointTrials(k, AfterBody(k.prog, i), d + 1, n) &&
              PointCost(k.prog, AfterBody(k.prog, i), |k.text| - d - 1) < PointCost(k.prog, Body(i), |k.text| - d)
            else PointTrials(k, Body(i), d, n) == [Miss]
  {
  }

  lemma BodyRound(k: Task, st: State, a: Account, i: nat) returns (a': Account)
    requires i < |k.prog| && k.prog[i].Rep? && a.pt == Body(i) && Invariant(k, st, a)
    ensures GoodRound(k, st, a, Step(k.text, k.pos, st), a')
  {
    var atom := k.prog[i].atom;
    BodyHolds(k.prog, st.code, i);
    AtomStep(k.text, k.pos, st, atom);
    BodyTried(k, i, st.d, |st.stack|);
    if Accepts(atom, k.text, st.d) {
      a' := a.(pt := AfterBody(k.prog, i));
      BodyPlaced(k, st, i, a.qs);
      hide Trials, LoopTrials, Cost, LoopCost, Holds, WellFormed, PopSet, Midway, Step, Answered, Sized, StackTrials,
        PointTrials, PointCost;
      MoveGood(k, st, a, st.(p := st.p + AtomSize(atom), d := st.d + 1), a'.pt);
    } else {
      a' := DeadEndFails(k, st, a);
    }
  }

  // ----- Opcodes that push -----

  lemma PushCosts(k: Task, st: State, a: Account, st': State, pt': Point, f: Frame, q: Pending)
    requires WellFormed(k.prog) && PointOk(k.prog, a.pt) && PointOk(k.prog, pt') && |st.stack| == |a.qs|
    requires st.d <= |k.text| && st'.stack == st.stack + [f] && st'.d == st.d
    requires PointCost(k.prog, pt', |k.text| - st.d) + FrameCost(k.prog, k.text, f, q) <
             PointCost(k.prog, a.pt, |k.text| - st.d)
    ensures Measure(k, st', a.(pt := pt', qs := a.qs + [q])) < Measure(k, st, a)
  {
    StackPush(k, st.stack, a.qs, f, q);
  }

  lemma OnFailureStep(text: seq<byte>, pos: nat, st: State, to: int)
    requires 0 <= st.p && JumpAt(st.code, st.p, ON_FAILURE_JUMP, to)
    ensures Step(text, pos, st) == Push(st, Frame(to, st.d), st.p + 3)
  {
  }

  /** A push that finds no room returns -2; otherwise it is a good round. */
  lemma PushOutcome(k: Task, st: State, a: Account, f: Frame, q: Pending, size: nat, p': int, pt': Point)
    requires Invariant(k, st, a) && size == Room(st.size, FRAME_SLOTS * |st.stack|) && PointOk(k.prog, pt')
    requires size != 0 ==> Placed(k, st.(stack := st.stack + [f], size := size, p := p'), pt', a.qs + [q])
    requires PointTrials(k, a.pt, st.d, |st.stack|) ==
             if |st.stack| >= CAPACITY then [Deep]
             else PointTrials(k, pt', st.d, |st.stack| + 1) + FrameTrials(k, f, q, |st.stack|)
    requires PointCost(k.prog, pt', |k.text| - st.d) + FrameCost(k.prog, k.text, f, q) <
             PointCost(k.prog, a.pt, |k.text| - st.d)
    ensures GoodRound(k, st, a, Push(st, f, p'), a.(pt := pt', qs := a.qs + [q]))
  {
    hide Trials, LoopTrials, Cost, LoopCost, WellFormed, Holds, PopSet, PointTrials, FrameTrials, PointCost, Midway,
      Answered, Sized;
    RoomExactly(st.size, |st.stack|);
    if size != 0 {
      var st' := st.(stack := st.stack + [f], size := size, p := p');
      PushKeeps(k, st, a, st', pt', f, q);
      PushCosts(k, st, a, st', pt', f, q);
    } else {
      TooDeep(k, a.done, StackTrials(k, st.stack, a.qs), st.best);
    }
  }

  lemma PushPlaced(k: Task, st: State, pt: Point, qs: seq<Pending>, exit: nat, q: Pending, pt': Point, size: nat)
    requires Placed(k, st, pt, qs) && (pt.At? || pt.Again?) && exit <= |k.prog|
    requires PointOk(k.prog, pt') && PointAddr(k.prog, pt') == st.p + 3
    requires q == if Drops(k, pt', st.d) then Dropped else Piece(exit)
    requires size == Room(st.size, FRAME_SLOTS * |st.stack|) && size != 0
    ensures Placed(k, st.(stack := st.stack + [Frame(Addr(k.prog, exit), st.d)], size := size, p := st.p + 3),
                   pt', qs + [q])
  {
    hide Trials, WellFormed, Holds, PopSet, PointAddr, Drops, PointOk, Sized;
    RoomExactly(st.size, |st.stack|);
    assert (qs + [q])[..|qs|] == qs;
    var f := Frame(Addr(k.prog, exit), st.d);
    assert PlaceOk(k.prog, f, exit);
    assert Kept(qs) by { assert !Drops(k, pt, st.d) by { AtopKeeps(k, pt, st.d); } }
  }

  lemma AtopKeeps(k: Task, pt: Point, d: nat)
    requires PointOk(k.prog, pt) && (pt.At? || pt.Again?)
    ensures !Drops(k, pt, d)
  {
  }

  /** The top of a loop, or an optional piece, offers its body and its exit. */
  predicate LoopTop(prog: Program, pt: Point) {
    PointOk(prog, pt) &&
    (pt.Again? || (pt.At? && pt.i < |prog| && prog[pt.i].Rep? && prog[pt.i].op != PlusOp))
  }

  /** The failure point that leaves the loop: dropped after this round if there is one. */
  function Exit(k: Task, i: nat, d: nat): Pending
    requires i < |k.prog| && k.prog[i].Rep?
  {
    if Drops(k, Body(i), d) then Dropped else Piece(i + 1)
  }

  lemma LoopTrialsSplit(k: Task, i: nat, d: nat, n: nat, f: Frame)
    requires WellFormed(k.prog) && i < |k.prog| && Loops(k.prog, i) && f.Frame? && f.str == d
    ensures PointTrials(k, Again(i), d, n) ==
      if n >= CAPACITY then [Deep]
      else PointTrials(k, Body(i), d, n + 1) + FrameTrials(k, f, Exit(k, i, d), n)
  {
  }

  lemma LoopTopTrials(k: Task, pt: Point, d: nat, n: nat, f: Frame)
    requires WellFormed(k.prog) && LoopTop(k.prog, pt) && f.Frame? && f.str == d
    requires pt.i in k.pops ==> Loops(k.prog, pt.i)
    ensures PointTrials(k, pt, d, n) ==
      if n >= CAPACITY then [Deep]
      else PointTrials(k, Body(pt.i), d, n + 1) + FrameTrials(k, f, Exit(k, pt.i, d), n)
  {
    assert PieceOk(k.prog, pt.i);
    if Loops(k.prog, pt.i) {
      LoopTrialsSplit(k, pt.i, d, n, f);
    }
  }

  lemma LoopTopCosts(k: Task, pt: Point, f: Frame, q: Pending)
    requires WellFormed(k.prog) && LoopTop(k.prog, pt) && f.Frame? && f.str <= |k.text|
    requires q == Dropped || q == Piece(pt.i + 1)
    ensures PointCost(k.prog, Body(pt.i), |k.text| - f.str) + FrameCost(k.prog, k.text, f, q) <
            PointCost(k.prog, pt, |k.text| - f.str)
  {
    var r := |k.text| - f.str;
    assert LoopCost(k.prog, pt.i + 1, r) ==
           2 + Cost(k.prog, pt.i + 1, r) + if 1 <= r then 1 + LoopCost(k.prog, pt.i + 1, r - 1) else 0;
  }

  lemma LoopTopHolds(prog: Program, code: seq<byte>, pt: Point)
    requires WellFormed(prog) && Holds(code, prog) && LoopTop(prog, pt)
    ensures JumpAt(code, PointAddr(prog, pt), ON_FAILURE_JUMP, Addr(prog, pt.i + 1))
    ensures PointAddr(prog, Body(pt.i)) == PointAddr(prog, pt) + 3
  {
    assert PieceAt(code, prog, pt.i, Addr(prog, pt.i));
    assert Addr(prog, pt.i + 1) == Addr(prog, pt.i) + PieceSize(prog[pt.i]);
  }

  lemma LoopTopRound(k: Task, st: State, a: Account) returns (a': Account)
    requires Invariant(k, st, a) && LoopTop(k.prog, a.pt)
    ensures GoodRound(k, st, a, Step(k.text, k.pos, st), a')
  {
    hide Trials, LoopTrials, Cost, LoopCost, Holds, WellFormed, PointTrials, FrameTrials, PointCost, Midway, GoodRound,
      Step, Addr, StackOk;
    var i := a.pt.i;
    var q := Exit(k, i, st.d);
    a' := a.(pt := Body(i), qs := a.qs + [q]);
    LoopTopHolds(k.prog, st.code, a.pt);
    var f, size := Frame(Addr(k.prog, i + 1), st.d), Room(st.size, FRAME_SLOTS * |st.stack|);
    OnFailureStep(k.text, k.pos, st, Addr(k.prog, i + 1));
    if size != 0 { PushPlaced(k, st, a.pt, a.qs, i + 1, q, Body(i), size); }
    LoopTopCosts(k, a.pt, f, q);
    LoopTopTrials(k, a.pt, st.d, |st.stack|, f);
    PushOutcome(k, st, a, f, q, size, st.p + 3, Body(i));
  }

  lemma ForkHolds(k: Task, code: seq<byte>, i: nat, d: nat, n: nat)
    requires WellFormed(k.prog) && Holds(code, k.prog) && i < |k.prog| && k.prog[i].Fork? && d <= |k.text|
    ensures i < k.prog[i].to <= |k.prog| && JumpAt(code, Addr(k.prog, i), ON_FAILURE_JUMP, Addr(k.prog, k.prog[i].to))
    ensures Addr(k.prog, i + 1) == Addr(k.prog, i) + 3
    ensures var f, q := Frame(Addr(k.prog, k.prog[i].to), d), Piece(k.prog[i].to);
      PointTrials(k, At(i), d, n) ==
        (if n >= CAPACITY then [Deep] else PointTrials(k, At(i + 1), d, n + 1) + FrameTrials(k, f, q, n)) &&
      PointCost(k.prog, At(i + 1), |k.text| - d) + FrameCost(k.prog, k.text, f, q) <
        PointCost(k.prog, At(i), |k.text| - d)
  {
    assert PieceAt(code, k.prog, i, Addr(k.prog, i)) && PieceOk(k.prog, i);
  }

  lemma ForkRound(k: Task, st: State, a: Account, i: nat) returns (a': Account)
    requires i < |k.prog| && k.prog[i].Fork? && a.pt == At(i) && Invariant(k, st, a)
    ensures GoodRound(k, st, a, Step(k.text, k.pos, st), a')
  {
    ForkHolds(k, st.code, i, st.d, |st.stack|);
    hide Trials, Cost, Holds, WellFormed, PopSet, Midway, Step, Answered, Sized, StackTrials, FrameCost, Room,
      GoodRound;
    var to := k.prog[i].to;
    a' := a.(pt := At(i + 1), qs := a.qs + [Piece(to)]);
    var f, size := Frame(Addr(k.prog, to), st.d), Room(st.size, FRAME_SLOTS * |st.stack|);
    OnFailureStep(k.text, k.pos, st, Addr(k.prog, to));
    if size != 0 { PushPlaced(k, st, a.pt, a.qs, to, Piece(to), At(i + 1), size); }
    PushOutcome(k, st, a, f, Piece(to), size, st.p + 3, At(i + 1));
  }

  lemma DummyStep(text: seq<byte>, pos: nat, st: State, to: int)
    requires 0 <= st.p && JumpAt(st.code, st.p, DUMMY_FAILURE_JUMP, to)
    ensures Step(text, pos, st) == Push(st, Dummy, to)
  {
  }

  lemma PlusPlaced(k: Task, st: State, i: nat, qs: seq<Pending>, q: Pending, size: nat)
    requires i < |k.prog| && k.prog[i].Rep? && Placed(k, st, At(i), qs)
    requires q == (if Drops(k, Body(i), st.d) then Dropped else Nothing)
    requires size == Room(st.size, FRAME_SLOTS * |st.stack|) && size != 0
    ensures Placed(k, st.(stack := st.stack + [Dummy], size := size, p := PointAddr(k.prog, Body(i))),
                   Body(i), qs + [q])
  {
    hide Trials, WellFormed, Holds, PopSet, Sized;
    RoomExactly(st.size, |st.stack|);
    assert (qs + [q])[..|qs|] == qs;
  }

  lemma PlusTrials(k: Task, i: nat, d: nat, n: nat, q: Pending)
    requires WellFormed(k.prog) && i < |k.prog| && k.prog[i].Rep? && k.prog[i].op == PlusOp
    requires q == if Drops(k, Body(i), d) then Dropped else Nothing
    ensures PointTrials(k, At(i), d, n) ==
      if n >= CAPACITY then [Deep] else PointTrials(k, Body(i), d, n + 1) + FrameTrials(k, Dummy, q, n)
  {
  }

  lemma PlusHolds(prog: Program, code: seq<byte>, i: nat)
    requires WellFormed(prog) && Holds(code, prog) && i < |prog| && prog[i].Rep? && prog[i].op == PlusOp
    ensures JumpAt(code, Addr(prog, i), DUMMY_FAILURE_JUMP, PointAddr(prog, Body(i)))
  {
    assert PieceAt(code, prog, i, Addr(prog, i));
  }

  lemma PlusCosts(k: Task, i: nat, r: nat)
    requires WellFormed(k.prog) && i < |k.prog| && k.prog[i].Rep? && k.prog[i].op == PlusOp
    ensures PointCost(k.prog, Body(i), r) < PointCost(k.prog, At(i), r)
  {
  }

  /** A `+` skips its own on_failure_jump the first time, pushing a dummy instead. */
  lemma PlusRound(k: Task, st: State, a: Account, i: nat) returns (a': Account)
    requires i < |k.prog| && k.prog[i].Rep? && k.prog[i].op == PlusOp && a.pt == At(i) && Invariant(k, st, a)
    ensures GoodRound(k, st, a, Step(k.text, k.pos, st), a')
  {
    hide Trials, LoopTrials, Cost, LoopCost, Holds, WellFormed, PointTrials, FrameTrials, PointCost, Midway, GoodRound,
      Step, Addr, StackOk, Room, Sized, DroppedOnTop;
    PlusHolds(k.prog, st.code, i);
    PlusCosts(k, i, |k.text| - st.d);
    var q := if Drops(k, Body(i), st.d) then Dropped else Nothing;
    a' := a.(pt := Body(i), qs := a.qs + [q]);
    var size := Room(st.size, FRAME_SLOTS * |st.stack|);
    DummyStep(k.text, k.pos, st, PointAddr(k.prog, Body(i)));
    if size != 0 { PlusPlaced(k, st, i, a.qs, q, size); }
    PlusTrials(k, i, st.d, |st.stack|, q);
    PushOutcome(k, st, a, Dummy, q, size, PointAddr(k.prog, Body(i)), Body(i));
  }

  // ----- Opcodes that jump -----

  lemma JumpPastStep(text: seq<byte>, pos: nat, st: State, to: int)
    requires 0 <= st.p && JumpAt(st.code, st.p, JUMP_PAST_ALT, to)
    ensures Step(text, pos, st) == Next(st.(p := to))
  {
  }

  lemma PastRound(k: Task, st: State, a: Account, i: nat) returns (a': Account)
    requires i < |k.prog| && k.prog[i].Past? && a.pt == At(i) && Invariant(k, st, a)
    ensures GoodRound(k, st, a, Step(k.text, k.pos, st), a')
  {
    assert PieceAt(st.code, k.prog, i, Addr(k.prog, i)) && PieceOk(k.prog, i);
    var to := k.prog[i].to;
    a' := a.(pt := At(to));
    JumpPastStep(k.text, k.pos, st, Addr(k.prog, to));
    MoveGood(k, st, a, st.(p := Addr(k.prog, to)), At(to));
  }

  /** The decision of maybe_pop_jump, read off the bytes, is the one on the program. */
  lemma DecisionIsPopDecided(prog: Program, code: seq<byte>, i: nat)
    requires WellFormed(prog) && Holds(code, prog) && i < |prog| && Loops(prog, i)
    ensures BackAddr(prog, i) + 3 <= |code|
    ensures DecidesPop(code, BackAddr(prog, i)) == PopDecided(prog, i)
  {
    var p := BackAddr(prog, i);
    BackTarget(prog, code, i);
    BodyHolds(prog, code, i);
    BackAddrInside(prog, i);
    if i + 1 < |prog| {
      PieceAfterLoop(prog, code, i);
      DecisionBeforePiece(prog, code, i, p);
    }
  }

  lemma PieceAfterLoop(prog: Program, code: seq<byte>, i: nat)
    requires WellFormed(prog) && Holds(code, prog) && i + 1 < |prog| && Loops(prog, i)
    ensures BackAddr(prog, i) + 3 < |code| && PieceOk(prog, i + 1) && PieceAt(code, prog, i + 1, BackAddr(prog, i) + 3)
  {
    AddrMonotone(prog, i + 1, |prog|);
    BackAddrInside(prog, i);
    assert PieceAt(code, prog, i + 1, Addr(prog, i + 1));
  }

  lemma DecisionBeforePiece(prog: Program, code: seq<byte>, i: nat, p: nat)
    requires i + 1 < |prog| && Loops(prog, i) && AtomOk(prog[i].atom) && p + 3 < |code|
    requires var body := p + 3 + Num(code, p + 1) + 3; 0 <= body && AtomAt(code, body, prog[i].atom)
    requires PieceAt(code, prog, i + 1, p + 3) && PieceOk(prog, i + 1)
    ensures DecidesPop(code, p) == PopDecided(prog, i)
  {
    var body, a := p + 3 + Num(code, p + 1) + 3, prog[i].atom;
    if prog[i + 1].Run? {
      var c := prog[i + 1].bytes[0];
      assert c == code[p + 5] by { assert code[p + 5..p + 5 + |prog[i + 1].bytes|][0] == code[p + 5]; }
      if a.Set? { CastHit(code, body + 1, a.bits, c); }
    }
  }

  lemma CastHit(code: seq<byte>, p: nat, bits: seq<byte>, c: byte)
    requires p + 1 + |bits| <= |code| && code[p] == |bits| <= 32 && code[p + 1..p + 1 + |bits|] == bits
    ensures MapHitCast(code, p, c) == (|bits| != 32 && InMap(bits, c))
  {
    MapHitIsInMap(code, p, bits, c);
  }

  lemma BackTarget(prog: Program, code: seq<byte>, i: nat)
    requires WellFormed(prog) && Holds(code, prog) && i < |prog| && Loops(prog, i)
    ensures BackAt(code, prog, i, BackAddr(prog, i), PointAddr(prog, Again(i)))
  {
    assert PieceAt(code, prog, i, Addr(prog, i));
  }

  /** The backward jump decides as the loop is bound to, pops or not, and goes back. */
  lemma BackStep(k: Task, st: State, i: nat) returns (st': State)
    requires WellFormed(k.prog) && i < |k.prog| && Loops(k.prog, i) && SameWays(k, st.code)
    requires st.p == BackAddr(k.prog, i) && (i in k.pops ==> st.stack != [])
    ensures SameWays(k, st'.code)
    ensures st' == st.(code := st'.code, p := PointAddr(k.prog, Again(i)),
                       stack := if i in k.pops then st.stack[..|st.stack| - 1] else st.stack)
    ensures Step(k.text, k.pos, st) == Next(st')
  {
    BackTarget(k.prog, st.code, i);
    assert i in PopSet(st.code, k.prog) <==> Pops(st.code, k.prog, i);
    var code := st.code;
    if st.code[st.p] == MAYBE_POP_JUMP {
      DecisionIsPopDecided(k.prog, st.code, i);
      PopDecisionExact(k.prog, i);
      var op := if DecidesPop(st.code, st.p) then POP_FAILURE_JUMP else JUMP;
      code := st.code[st.p := op];
      DecideKeepsHolds(st.code, k.prog, i, op);
      DecideKeepsPopSet(st.code, k.prog, i, op);
      BackTarget(k.prog, code, i);
    }
    st' := st.(code := code, p := PointAddr(k.prog, Again(i)),
               stack := if i in k.pops then st.stack[..|st.stack| - 1] else st.stack);
  }

  lemma BackPlaced(k: Task, st: State, i: nat, qs: seq<Pending>, st': State, last: nat)
    requires i < |k.prog| && Loops(k.prog, i) && Placed(k, st, Back(i), qs) && SameWays(k, st'.code)
    requires last == if i in k.pops then |st.stack| - 1 else |st.stack|
    requires st' == st.(code := st'.code, p := PointAddr(k.prog, Again(i)), stack := st.stack[..last])
    ensures Placed(k, st', Again(i), qs[..last])
  {
    hide Trials, WellFormed, Holds, PopSet;
  }

  lemma BackCosts(k: Task, st: State, a: Account, st': State, last: nat)
    requires WellFormed(k.prog) && a.pt.Back? && PointOk(k.prog, a.pt) && |st.stack| == |a.qs| && st.d <= |k.text|
    requires |st.stack| - 1 <= last <= |st.stack| && st'.stack == st.stack[..last] && st'.d == st.d
    ensures Measure(k, st', a.(pt := Again(a.pt.i), qs := a.qs[..last])) < Measure(k, st, a)
  {
    if last == |st.stack| { assert st.stack[..last] == st.stack && a.qs[..last] == a.qs; }
  }

  lemma BackRound(k: Task, st: State, a: Account, i: nat) returns (a': Account)
    requires i < |k.prog| && Loops(k.prog, i) && a.pt == Back(i) && Invariant(k, st, a)
    ensures GoodRound(k, st, a, Step(k.text, k.pos, st), a')
  {
    var last := if i in k.pops then |st.stack| - 1 else |st.stack|;
    var st' := BackStep(k, st, i);
    a' := a.(pt := Again(i), qs := a.qs[..last]);
    assert st.stack[..|st.stack|] == st.stack && a.qs[..|a.qs|] == a.qs;
    BackPlaced(k, st, i, a.qs, st', last);
    BackCosts(k, st, a, st', last);
    hide Trials, LoopTrials, WellFormed, Holds, PopSet, Measure, Midway, Step;
    if i in k.pops {
      PopKeeps(k, st, a, st', Again(i));
    } else {
      MoveKeeps(k, st, a, st', Again(i));
    }
  }

  /** A round of the matcher never leaves the model, keeps the
      invariant and makes progress, or returns what the trials amount to. */
  lemma RoundGood(k: Task, st: State, a: Account) returns (a': Account)
    requires Invariant(k, st, a)
    ensures GoodRound(k, st, a, Step(k.text, k.pos, st), a')
  {
    hide Trials, LoopTrials, WellFormed, Holds, PopSet, Measure, Midway, Step, GoodRound, StackOk;
    match a.pt
    case Again(i) => a' := LoopTopRound(k, st, a);
    case Body(i) => a' := BodyRound(k, st, a, i);
    case Back(i) => a' := BackRound(k, st, a, i);
    case At(i) =>
      if i == |k.prog| {
        a' := AcceptGood(k, st, a);
      } else {
        match k.prog[i]
        case Run(_) => a' := RunRound(k, st, a, i);
        case One(_) => a' := OneRound(k, st, a, i);
        case Fork(_) => a' := ForkRound(k, st, a, i);
        case Past(_) => a' := PastRound(k, st, a, i);
        case Rep(op, _) => if op == PlusOp { a' := PlusRound(k, st, a, i); } else { a' := LoopTopRound(k, st, a); }
      }
  }

  /** Whatever a run from a state of the invariant returns is what the trials amount to. */
  lemma {:induction false} ReturnsAnswered(k: Task, st: State, a: Account, rounds: nat, n: int, code: seq<byte>)
    requires Invariant(k, st, a) && Returns(k.text, k.pos, st, rounds, n, code)
    ensures Answered(k, n)
    decreases rounds
  {
    hide Invariant, Answered, Measure, Holds, Step;
    var a' := RoundGood(k, st, a);
    if Step(k.text, k.pos, st).Next? {
      ReturnsAnswered(k, Step(k.text, k.pos, st).st, a', rounds - 1, n, code);
    }
  }
}
