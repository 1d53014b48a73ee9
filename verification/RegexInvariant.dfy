/** What every round of the matcher keeps: the machine state stands for a point of the
    program, the failure stack for pending points, and the trials made so far, followed by
    those that the point and the stack stand for, are all the trials there are. */
module RegexInvariant {
  import opened Common
  import opened RegexLanguage
  import opened RegexProgram
  import opened RegexCode
  import opened RegexMachine
  import opened RegexTrials

  /** What is matched: a program whose loops in `pops` drop their failure points, against
      `text` from `pos` on. */
  datatype Task = Task(prog: Program, pops: set<nat>, text: seq<byte>, pos: nat)

  /** A place in the program: at piece `i`, or at the on_failure_jump, the body
      or the backward jump of the repeated piece `i`. */
  datatype Point = At(i: nat) | Again(i: nat) | Body(i: nat) | Back(i: nat)

  predicate PointOk(prog: Program, pt: Point) {
    match pt
    case At(i) => i <= |prog|
    case Again(i) => i < |prog| && Loops(prog, i)
    case Body(i) => i < |prog| && prog[i].Rep?
    case Back(i) => i < |prog| && Loops(prog, i)
  }

  function PointAddr(prog: Program, pt: Point): nat
    requires PointOk(prog, pt)
  {
    match pt
    case At(i) => Addr(prog, i)
    case Again(i) => Addr(prog, i) + LoopOffset(prog[i].op)
    case Body(i) => Addr(prog, i) + BodyOffset(prog[i].op)
    case Back(i) => BackAddr(prog, i)
  }

  /** What is tried from point `pt` at position `d` with `n` failure points pending, in order.
      The one of a loop that pops is gone when the loop comes round. */
  ghost function PointTrials(k: Task, pt: Point, d: nat, n: nat): seq<Trial>
    requires WellFormed(k.prog) && PointOk(k.prog, pt)
  {
    match pt
    case At(i) => Trials(k.prog, k.pops, k.text, i, d, n)
    case Again(i) => LoopTrials(k.prog, k.pops, k.text, i, k.prog[i].atom, d, n)
    case Back(i) => LoopTrials(k.prog, k.pops, k.text, i, k.prog[i].atom, d, Round(k, i, n))
    case Body(i) =>
      if !Accepts(k.prog[i].atom, k.text, d) then [Miss]
      else if k.prog[i].op == OptOp then Trials(k.prog, k.pops, k.text, i + 1, d + 1, n)
      else LoopTrials(k.prog, k.pops, k.text, i, k.prog[i].atom, d + 1, Round(k, i, n))
  }

  /** How many of `n` failure points are left when loop `i` comes round. */
  function Round(k: Task, i: nat, n: nat): nat { if i in k.pops && n > 0 then n - 1 else n }

  ghost function PointCost(prog: Program, pt: Point, r: nat): (c: nat)
    requires WellFormed(prog) && PointOk(prog, pt)
    ensures c > 0
  {
    match pt
    case At(i) => Cost(prog, i, r)
    case Again(i) => LoopCost(prog, i + 1, r)
    case Back(i) => 1 + LoopCost(prog, i + 1, r)
    case Body(i) =>
      1 + if r == 0 then 0
          else if prog[i].op == OptOp then Cost(prog, i + 1, r - 1) else 1 + LoopCost(prog, i + 1, r - 1)
  }

  // ----- The failure stack -----

  /** What a failure point stands for: one failing trial for a dummy, the piece it resumes
      at, or nothing when the round under way is going to drop it. */
  datatype Pending = Nothing | Piece(i: nat) | Dropped

  predicate Kept(qs: seq<Pending>) { forall j :: 0 <= j < |qs| ==> !qs[j].Dropped? }

  predicate PlaceOk(prog: Program, f: Frame, i: nat) { i <= |prog| && f.Frame? && f.place == Addr(prog, i) }

  ghost predicate FrameOk(k: Task, f: Frame, q: Pending) {
    match q
    case Nothing => f.Dummy?
    case Piece(i) => PlaceOk(k.prog, f, i) && k.pos <= f.str <= |k.text|
    case Dropped => f.Frame? ==> exists i: nat :: PlaceOk(k.prog, f, i)
  }

  ghost predicate StackOk(k: Task, stack: seq<Frame>, qs: seq<Pending>) {
    |stack| == |qs| && forall j :: 0 <= j < |stack| ==> FrameOk(k, stack[j], qs[j])
  }

  /** What a failure point with `n` others below it stands for. */
  ghost function FrameTrials(k: Task, f: Frame, q: Pending, n: nat): seq<Trial>
    requires WellFormed(k.prog)
  {
    match q
    case Nothing => [Miss]
    case Piece(i) => if i <= |k.prog| && f.Frame? then Trials(k.prog, k.pops, k.text, i, f.str, n) else [Miss]
    case Dropped => []
  }

  /** What the failure stack stands for, from its top down. */
  ghost function StackTrials(k: Task, stack: seq<Frame>, qs: seq<Pending>): (r: seq<Trial>)
    requires WellFormed(k.prog) && |stack| == |qs|
    ensures stack == [] ==> r == []
    ensures stack != [] && Kept(qs) ==> r != []
  {
    if stack == [] then []
    else
      var n := |stack| - 1;
      FrameTrials(k, stack[n], qs[n], n) + StackTrials(k, stack[..n], qs[..n])
  }

  ghost function FrameCost(prog: Program, text: seq<byte>, f: Frame, q: Pending): nat
    requires WellFormed(prog)
  {
    if q.Piece? && q.i <= |prog| && f.Frame? && f.str <= |text| then Cost(prog, q.i, |text| - f.str) else 0
  }

  ghost function StackCost(prog: Program, text: seq<byte>, stack: seq<Frame>, qs: seq<Pending>): nat
    requires WellFormed(prog) && |stack| == |qs|
  {
    if stack == [] then 0
    else
      StackCost(prog, text, stack[..|stack| - 1], qs[..|stack| - 1]) +
      FrameCost(prog, text, stack[|stack| - 1], qs[|stack| - 1])
  }

  // ----- The invariant -----

  /** A ghost account of a state: its point, its failure stack, and the trials made so far. */
  datatype Account = Account(pt: Point, qs: seq<Pending>, done: seq<Trial>)

  /** The round of the loop under way at `pt` ends in dropping the top failure point. */
  predicate Drops(k: Task, pt: Point, d: nat)
    requires PointOk(k.prog, pt)
  {
    pt.i in k.pops && (pt.Back? || (pt.Body? && Accepts(k.prog[pt.i].atom, k.text, d)))
  }

  predicate DroppedOnTop(drops: bool, qs: seq<Pending>) {
    if drops then qs != [] && qs[|qs| - 1] == Dropped && Kept(qs[..|qs| - 1]) else Kept(qs)
  }

  /** The size of a failure stack that started with five slots and was only doubled. */
  predicate Sized(size: nat) {
    size == 5 || size == 10 || size == 20 || size == 40 || size == 80 || size == 160 || size == 320 || size == 640 ||
    size == 1280 || size == 2560 || size == 5120 || size == 10240
  }

  ghost predicate Placed(k: Task, st: State, pt: Point, qs: seq<Pending>) {
    WellFormed(k.prog) && Holds(st.code, k.prog) && PopSet(st.code, k.prog) == k.pops &&
    PointOk(k.prog, pt) && st.p == PointAddr(k.prog, pt) && k.pos <= st.d <= |k.text| &&
    StackOk(k, st.stack, qs) && DroppedOnTop(Drops(k, pt, st.d), qs) && Sized(st.size)
  }

  /** The trials `done` have been made without reaching the end of the text and without an
      overflow, the longest match among them is `best`, and `todo` are to come. */
  ghost predicate Midway(k: Task, done: seq<Trial>, todo: seq<Trial>, best: int)
    requires WellFormed(k.prog)
  {
    Trials(k.prog, k.pops, k.text, 0, k.pos, 0) == done + todo && Hit(|k.text|) !in done && Deep !in done &&
    best == Longest(done) && (best != NONE ==> k.pos <= best)
  }

  ghost predicate Invariant(k: Task, st: State, a: Account) {
    Placed(k, st, a.pt, a.qs) &&
    Midway(k, a.done, PointTrials(k, a.pt, st.d, |st.stack|) + StackTrials(k, st.stack, a.qs), st.best)
  }

  ghost function Measure(k: Task, st: State, a: Account): nat
    requires WellFormed(k.prog) && PointOk(k.prog, a.pt) && |st.stack| == |a.qs| && st.d <= |k.text|
  {
    PointCost(k.prog, a.pt, |k.text| - st.d) + StackCost(k.prog, k.text, st.stack, a.qs)
  }

  /** `n` is what the trials amount to. */
  ghost predicate Answered(k: Task, n: int)
    requires WellFormed(k.prog)
  {
    Answer(Trials(k.prog, k.pops, k.text, 0, k.pos, 0), |k.text|, k.pos, n)
  }

  /** The buffer still holds the program, with the same loops popping. */
  predicate SameWays(k: Task, code: seq<byte>) { Holds(code, k.prog) && PopSet(code, k.prog) == k.pops }

  /** A round from a state of the invariant keeps it and costs something, or returns what
      the trials amount to. */
  ghost predicate GoodRound(k: Task, st: State, a: Account, o: Outcome, a': Account)
    requires Placed(k, st, a.pt, a.qs)
  {
    match o
    case Next(st') => Invariant(k, st', a') && Measure(k, st', a') < Measure(k, st, a)
    case Return(n, code) => Answered(k, n) && SameWays(k, code)
    case Stuck => false
  }

  lemma InitialInvariant(k: Task, code: seq<byte>)
    requires WellFormed(k.prog) && SameWays(k, code) && k.pos <= |k.text|
    ensures Invariant(k, InitialState(code, k.pos), Account(At(0), [], []))
  {
    hide Trials, Holds, WellFormed;
    var todo := PointTrials(k, At(0), k.pos, 0);
    assert [] + (todo + []) == todo;
  }

  /** There is room for one more failure point exactly while fewer than CAPACITY are pending. */
  lemma {:induction false} RoomExactly(size: nat, points: nat)
    requires Sized(size)
    ensures Room(size, FRAME_SLOTS * points) != 0 <==> points < CAPACITY
    ensures Room(size, FRAME_SLOTS * points) != 0 ==> Sized(Room(size, FRAME_SLOTS * points))
    decreases 10240 - size
  {
    if FRAME_SLOTS * points + FRAME_SLOTS > size && size <= 5120 { RoomExactly(2 * size, points); }
  }

  // ----- Moves, one lemma per kind -----

  /** Moving to another point without touching the stack. */
  lemma MoveKeeps(k: Task, st: State, a: Account, st': State, pt': Point)
    requires Invariant(k, st, a) && Placed(k, st', pt', a.qs)
    requires st'.stack == st.stack && st'.best == st.best
    requires PointTrials(k, pt', st'.d, |st.stack|) == PointTrials(k, a.pt, st.d, |st.stack|)
    ensures Invariant(k, st', a.(pt := pt'))
  {
  }

  lemma StackPush(k: Task, stack: seq<Frame>, qs: seq<Pending>, f: Frame, q: Pending)
    requires WellFormed(k.prog) && |stack| == |qs|
    ensures StackTrials(k, stack + [f], qs + [q]) == FrameTrials(k, f, q, |stack|) + StackTrials(k, stack, qs)
    ensures StackCost(k.prog, k.text, stack + [f], qs + [q]) ==
      StackCost(k.prog, k.text, stack, qs) + FrameCost(k.prog, k.text, f, q)
  {
    assert (stack + [f])[..|stack + [f]| - 1] == stack && (qs + [q])[..|qs + [q]| - 1] == qs;
  }

  /** Pushing a failure point splits what was to be tried between the new point and it. */
  lemma PushKeeps(k: Task, st: State, a: Account, st': State, pt': Point, f: Frame, q: Pending)
    requires Invariant(k, st, a) && Placed(k, st', pt', a.qs + [q])
    requires st'.stack == st.stack + [f] && st'.best == st.best
    requires PointTrials(k, a.pt, st.d, |st.stack|) ==
             PointTrials(k, pt', st'.d, |st.stack| + 1) + FrameTrials(k, f, q, |st.stack|)
    ensures Invariant(k, st', a.(pt := pt', qs := a.qs + [q]))
  {
    hide Trials, LoopTrials, Holds, WellFormed, PointTrials, FrameTrials;
    StackPush(k, st.stack, a.qs, f, q);
    var n := |st.stack|;
    var x, y, z := PointTrials(k, pt', st'.d, n + 1), FrameTrials(k, f, q, n), StackTrials(k, st.stack, a.qs);
    assert (x + y) + z == x + (y + z);
  }

  /** Dropping the top failure point of a loop that pops. */
  lemma PopKeeps(k: Task, st: State, a: Account, st': State, pt': Point)
    requires Invariant(k, st, a) && a.qs != [] && a.qs[|a.qs| - 1] == Dropped
    requires Placed(k, st', pt', a.qs[..|a.qs| - 1])
    requires st'.stack == st.stack[..|st.stack| - 1] && st'.best == st.best
    requires PointTrials(k, pt', st'.d, |st'.stack|) == PointTrials(k, a.pt, st.d, |st.stack|)
    ensures Invariant(k, st', a.(pt := pt', qs := a.qs[..|a.qs| - 1]))
  {
    hide Trials, LoopTrials, Holds, WellFormed, PointTrials;
    assert StackTrials(k, st.stack, a.qs) == [] + StackTrials(k, st'.stack, a.qs[..|a.qs| - 1]);
  }

  // ----- Failing -----

  /** The state as the code at `fail` finds it: only the stack is left to try, and the last
      trial made failed unless there is something left. */
  ghost predicate Failing(k: Task, st: State, qs: seq<Pending>, done: seq<Trial>) {
    WellFormed(k.prog) && SameWays(k, st.code) && k.pos <= |k.text| && StackOk(k, st.stack, qs) && Kept(qs) &&
    Sized(st.size) &&
    Midway(k, done, StackTrials(k, st.stack, qs), st.best) &&
    (st.stack == [] ==> done != [] && done[|done| - 1] == Miss)
  }

  /** Making one more trial that fails. */
  lemma OneMiss(k: Task, done: seq<Trial>, todo: seq<Trial>, best: int)
    requires WellFormed(k.prog) && Midway(k, done, [Miss] + todo, best)
    ensures Midway(k, done + [Miss], todo, best)
  {
    hide Trials, WellFormed;
    assert done + ([Miss] + todo) == (done + [Miss]) + todo;
    assert (done + [Miss])[..|done|] == done;
  }

  lemma PieceIsNoLoopJump(code: seq<byte>, prog: Program, i: nat)
    requires WellFormed(prog) && Holds(code, prog) && i <= |prog|
    ensures !ResumesAtLoopJump(code, Addr(prog, i))
  {
    if i < |prog| {
      assert PieceAt(code, prog, i, Addr(prog, i));
    }
  }

  /** A trial that needs too many failure points ends the run. */
  lemma TooDeep(k: Task, done: seq<Trial>, todo: seq<Trial>, best: int)
    requires WellFormed(k.prog) && Midway(k, done, [Deep] + todo, best)
    ensures Answered(k, INTERNAL_ERROR)
  {
    hide Trials, WellFormed;
    var all := done + ([Deep] + todo);
    assert all[|done|] == Deep && all[..|done|] == done;
  }

  /** With nothing left to try, the longest match made is the answer. */
  lemma NothingLeft(k: Task, done: seq<Trial>, best: int)
    requires WellFormed(k.prog) && Midway(k, done, [], best) && done != [] && done[|done| - 1] == Miss
    ensures Answered(k, if best != UNSET then best - k.pos else NO_MATCH)
  {
    hide Trials, WellFormed;
    assert done + [] == done;
  }

  lemma {:induction false} FailGood(k: Task, st: State, qs: seq<Pending>, done: seq<Trial>) returns (a': Account)
    requires Failing(k, st, qs, done)
    ensures match Fail(st, k.pos)
            case Next(st') => Invariant(k, st', a') && Measure(k, st', a') <= StackCost(k.prog, k.text, st.stack, qs)
            case Return(n, code) => Answered(k, n) && SameWays(k, code)
            case Stuck => false
    decreases |st.stack|
  {
    hide Trials, LoopTrials, Cost, WellFormed, Holds, PopSet, Answered, Midway;
    a' := Account(At(0), qs, done);
    if st.stack == [] {
      NothingLeft(k, done, st.best);
    } else {
      var last := |st.stack| - 1;
      assert FrameOk(k, st.stack[last], qs[last]);
      if st.stack[last].Dummy? {
        OneMiss(k, done, StackTrials(k, st.stack[..last], qs[..last]), st.best);
        a' := FailGood(k, st.(stack := st.stack[..last]), qs[..last], done + [Miss]);
      } else {
        PieceIsNoLoopJump(st.code, k.prog, qs[last].i);
        a' := Account(At(qs[last].i), qs[..last], done);
        ResumeGood(k, st, qs, done);
      }
    }
  }

  lemma ResumeGood(k: Task, st: State, qs: seq<Pending>, done: seq<Trial>)
    requires Failing(k, st, qs, done) && st.stack != [] && qs[|qs| - 1].Piece?
    ensures
      var last := |st.stack| - 1;
      FrameOk(k, st.stack[last], qs[last]) &&
      Invariant(k, st.(stack := st.stack[..last], p := st.stack[last].place, d := st.stack[last].str),
                Account(At(qs[last].i), qs[..last], done))
  {
    hide Trials, LoopTrials, WellFormed, Holds, PopSet, Midway;
    var last := |st.stack| - 1;
    assert FrameOk(k, st.stack[last], qs[last]);
  }

  /** A point where the one trial left fails is left by failing. */
  lemma DeadEndFails(k: Task, st: State, a: Account) returns (a': Account)
    requires Invariant(k, st, a) && Kept(a.qs) && PointTrials(k, a.pt, st.d, |st.stack|) == [Miss]
    ensures GoodRound(k, st, a, Fail(st, k.pos), a')
  {
    hide Trials, LoopTrials, WellFormed, Holds, PopSet, Midway, Answered, PointTrials, Cost, LoopCost;
    OneMiss(k, a.done, StackTrials(k, st.stack, a.qs), st.best);
    a' := FailGood(k, st, a.qs, a.done + [Miss]);
  }

  // ----- Accepting -----

  /** A match that reaches the end of the text is the answer. */
  lemma EndReached(k: Task, done: seq<Trial>, todo: seq<Trial>, best: int)
    requires WellFormed(k.prog) && Midway(k, done, [Hit(|k.text|)] + todo, best) && k.pos <= |k.text|
    ensures Answered(k, |k.text| - k.pos)
  {
    hide Trials, WellFormed;
    var all := done + ([Hit(|k.text|)] + todo);
    assert all[|done|] == Hit(|k.text|);
    forall j | 0 <= j < |all| && all[j] == Deep ensures Hit(|k.text|) in all[..j] {
      assert j > |done| && all[..j][|done|] == Hit(|k.text|);
    }
  }

  /** The last trial counts only if nothing matched before. */
  lemma LastTrial(k: Task, done: seq<Trial>, d: nat, best: int)
    requires WellFormed(k.prog) && Midway(k, done, [Hit(d)], best) && d != |k.text| && k.pos <= d
    ensures Answered(k, (if best != UNSET then best else d) - k.pos)
  {
    hide Trials, WellFormed;
    assert (done + [Hit(d)])[..|done|] == done;
  }

  /** A match is remembered if it is the longest so far. */
  lemma OneHit(k: Task, done: seq<Trial>, d: nat, todo: seq<Trial>, best: int)
    requires WellFormed(k.prog) && Midway(k, done, [Hit(d)] + todo, best) && d != |k.text| && k.pos <= d
    ensures Midway(k, done + [Hit(d)], todo, if best == UNSET || d > best then d else best)
  {
    hide Trials, WellFormed;
    assert done + ([Hit(d)] + todo) == (done + [Hit(d)]) + todo;
    assert (done + [Hit(d)])[..|done|] == done;
  }

  /** At the end of the pattern but not of the text the search goes on while there is
      something left to try. */
  lemma AcceptGood(k: Task, st: State, a: Account) returns (a': Account)
    requires Invariant(k, st, a) && a.pt == At(|k.prog|)
    ensures GoodRound(k, st, a, Step(k.text, k.pos, st), a')
  {
    hide Trials, LoopTrials, WellFormed, Holds, PopSet, Midway, Answered, PointTrials, Addr, Step, Fail, Cost, Sized,
      PointAddr;
    AtEnd(k, st, a);
    AcceptStep(k.text, k.pos, st);
    var todo := StackTrials(k, st.stack, a.qs);
    a' := a;
    if st.d == |k.text| {
      EndReached(k, a.done, todo, st.best);
    } else if st.stack == [] {
      assert [Hit(st.d)] + todo == [Hit(st.d)];
      LastTrial(k, a.done, st.d, st.best);
    } else {
      OneHit(k, a.done, st.d, todo, st.best);
      var kept := if st.best == UNSET || st.d > st.best then st.(best := st.d) else st;
      a' := FailGood(k, kept, a.qs, a.done + [Hit(st.d)]);
    }
  }

  lemma AcceptStep(text: seq<byte>, pos: nat, st: State)
    requires st.p == |st.code|
    ensures Step(text, pos, st) ==
      if st.d == |text| then Return(st.d - pos, st.code)
      else if st.stack != [] then Fail(if st.best == UNSET || st.d > st.best then st.(best := st.d) else st, pos)
      else Return((if st.best != UNSET then st.best else st.d) - pos, st.code)
  {
  }

  lemma AtEnd(k: Task, st: State, a: Account)
    requires Placed(k, st, a.pt, a.qs) && a.pt == At(|k.prog|)
    ensures st.p == |st.code| && PointTrials(k, a.pt, st.d, |st.stack|) == [Hit(st.d)] && Kept(a.qs)
  {
  }
}
