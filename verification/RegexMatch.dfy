/** re_match on one string (gnu_regex/regex.c:3135-3143 and 3160-4341): the loop
    that runs the byte code, backtracks, and rewrites the code as it goes. */
module RegexMatch {
  import opened Common
  import opened RegexLanguage
  import opened RegexProgram
  import opened RegexCode
  import opened RegexMachine
  import opened RegexTrials
  import opened RegexInvariant
  import opened RegexRounds
  import opened RegexLength
  import opened RegexBuffer

  /** EXTRACT_NUMBER (regex.c:403-407). */
  method ExtractNumber(buf: array<byte>, used: nat, i: nat) returns (n: int)
    requires i + 1 < used <= buf.Length
    ensures n == Num(buf[..used], i)
  {
    var low: int, high: int := buf[i], buf[i + 1];
    n := low + (if high < 128 then high else high - 256) * 256;
  }

  /** The do-while loop of exactn (regex.c:3549-3556). */
  method MatchExactn(buf: array<byte>, used: nat, q: nat, n: nat, text: seq<byte>, d: nat) returns (ok: bool)
    requires q + n <= used <= buf.Length && d <= |text|
    ensures ok == Exactly(buf[..used], q, n, text, d)
  {
    var j := 0;
    while j < n
      invariant 0 <= j <= n && d + j <= |text|
      invariant forall i :: d <= i < d + j ==> text[i] == ByteAt(buf[..used], q + (i - d))
    {
      if d + j == |text| {
        return false;
      }
      if text[d + j] != buf[q + j] {
        assert text[d + j] != ByteAt(buf[..used], q + (d + j - d));
        return false;
      }
      j := j + 1;
    }
    return true;
  }

  /** The bitmap test of charset and charset_not (regex.c:3590-3592). */
  method TestMap(buf: array<byte>, used: nat, p: nat, c: byte) returns (hit: bool)
    requires p < used <= buf.Length && p + 1 + buf[p] <= used
    ensures hit == MapHit(buf[..used], p, c)
  {
    var length: int := buf[p];
    hit := c < length * 8 && Bit(buf[p + 1 + c / 8], c % 8);
  }

  /** The bytes that the decision at `p` reads are inside the buffer. */
  predicate DecisionInside(code: seq<byte>, p: nat) {
    p + 3 <= |code| && (p + 3 < |code| && code[p + 3] == EXACTN ==> p + 5 < |code|) &&
    var body := p + 6 + Num(code, p + 1);
    0 <= body < |code| && (code[body] == EXACTN ==> body + 2 < |code|) &&
    (code[body] == CHARSET || code[body] == CHARSET_NOT ==>
       body + 1 < |code| && code[body + 1] <= 32 && body + 2 + code[body + 1] <= |code|)
  }

  lemma DecisionBounds(prog: Program, code: seq<byte>, i: nat)
    requires WellFormed(prog) && i < |prog| && Loops(prog, i) && Holds(code, prog)
    ensures DecisionInside(code, BackAddr(prog, i))
  {
    var p := BackAddr(prog, i);
    BackTarget(prog, code, i);
    BodyHolds(prog, code, i);
    assert p + 6 + Num(code, p + 1) == PointAddr(prog, Body(i));
    if i + 1 < |prog| {
      PieceAfterLoop(prog, code, i);
    } else {
      BackAddrInside(prog, i);
    }
  }

  /** The test that maybe_pop_jump makes of the bitmap of the loop's body (regex.c:4033-4041). */
  method BodyRefuses(buf: array<byte>, used: nat, body: nat, c: byte) returns (refuses: bool)
    requires body + 1 < used <= buf.Length && (buf[body] == CHARSET || buf[body] == CHARSET_NOT)
    requires buf[body + 1] <= 32 && body + 2 + buf[body + 1] <= used
    ensures refuses == (MapHitCast(buf[..used], body + 1, c) == (buf[body] == CHARSET_NOT))
  {
    var not := buf[body] == CHARSET_NOT;
    var length: int := buf[body + 1];
    if c < length * 8 % 256 && Bit(buf[body + 2 + c / 8], c % 8) {
      not := !not;
    }
    refuses := !not;
  }

  /** The decision of maybe_pop_jump at `p` (regex.c:3977-4048). */
  method DecidePop(buf: array<byte>, used: nat, p: nat) returns (pop: bool)
    requires used <= buf.Length && DecisionInside(buf[..used], p)
    ensures pop == DecidesPop(buf[..used], p)
  {
    var p2 := p + 3;
    if p2 == used {
      return true;
    }
    pop := false;
    if buf[p2] == EXACTN {
      var c := buf[p2 + 2];
      var mcnt := ExtractNumber(buf, used, p + 1);
      var body := p2 + mcnt + 3;
      if buf[body] == EXACTN {
        pop := buf[body + 2] != c;
      } else if buf[body] == CHARSET || buf[body] == CHARSET_NOT {
        pop := BodyRefuses(buf, used, body, c);
      }
    }
  }

  /** The opcodes of a loop's backward jump. */
  predicate IsLoopJump(op: byte) { op == MAYBE_POP_JUMP || op == POP_FAILURE_JUMP || op == JUMP }

  /** What the test at `place` reads is inside the buffer. */
  predicate TestInside(code: seq<byte>, place: int) {
    0 <= place <= |code| &&
    (place < |code| && IsLoopJump(code[place]) ==> place + 2 < |code| && 0 <= place + 3 + Num(code, place + 1) < |code|)
  }

  /** Whether a failure point resumes at the backward jump of a loop (regex.c:4307-4325). */
  method TestLoopJump(buf: array<byte>, used: nat, place: nat) returns (loops: bool)
    requires used <= buf.Length && TestInside(buf[..used], place)
    ensures loops == ResumesAtLoopJump(buf[..used], place)
  {
    loops := false;
    if place < used && IsLoopJump(buf[place]) {
      var mcnt := ExtractNumber(buf, used, place + 1);
      loops := buf[place + 3 + mcnt] == ON_FAILURE_JUMP;
    }
  }

  lemma PlaceIsInside(code: seq<byte>, prog: Program, i: nat)
    requires WellFormed(prog) && Holds(code, prog) && i <= |prog|
    ensures TestInside(code, Addr(prog, i))
  {
    if i < |prog| {
      AddrMonotone(prog, i, |prog|);
      assert PieceAt(code, prog, i, Addr(prog, i));
    }
  }

  lemma FramePlace(k: Task, f: Frame, q: Pending) returns (i: nat)
    requires FrameOk(k, f, q) && f.Frame?
    ensures PlaceOk(k.prog, f, i)
  {
    if q.Piece? { i := q.i; } else { i :| PlaceOk(k.prog, f, i); }
  }

  /** The loop at label `fail` (regex.c:4287-4333): failure points are popped until
      one can be resumed. */
  method PopToResume(buf: array<byte>, used: nat, stack: seq<Frame>, ghost k: Task, ghost qs: seq<Pending>,
                     ghost st: State)
    returns (resumed: bool, p: int, d: nat, stack': seq<Frame>)
    requires used <= buf.Length && st.code == buf[..used] && st.stack == stack
    requires WellFormed(k.prog) && Holds(st.code, k.prog) && StackOk(k, stack, qs)
    ensures resumed ==> Fail(st, k.pos) == Next(st.(p := p, d := d, stack := stack'))
    ensures !resumed ==> Fail(st, k.pos) == Return(if st.best != UNSET then st.best - k.pos else NO_MATCH, st.code)
  {
    hide Holds, WellFormed, TestInside, ResumesAtLoopJump;
    stack' := stack;
    ghost var cur := st;
    while stack' != []
      invariant |stack'| <= |stack| && stack' == stack[..|stack'|] && cur == st.(stack := stack') &&
        Fail(cur, k.pos) == Fail(st, k.pos)
      decreases |stack'|
    {
      var last := |stack'| - 1;
      var f := stack'[last];
      assert FrameOk(k, stack[last], qs[last]);
      cur := cur.(stack := stack'[..last]);
      stack' := stack'[..last];
      if f.Frame? {
        ghost var i := FramePlace(k, f, qs[last]);
        PlaceIsInside(st.code, k.prog, i);
        var loops := TestLoopJump(buf, used, f.place);
        if !loops {
          return true, f.place, f.str, stack';
        }
      }
    }
    return false, 0, 0, [];
  }

  // ----- The main loop -----

  predicate IsJump(op: byte) {
    op == JUMP || op == JUMP_PAST_ALT || op == ON_FAILURE_JUMP || op == DUMMY_FAILURE_JUMP ||
    op == POP_FAILURE_JUMP || op == MAYBE_POP_JUMP
  }

  /** The opcode at `p` is one of the model's, and what it reads is inside the buffer. */
  predicate OpInside(code: seq<byte>, p: int, stack: seq<Frame>) {
    0 <= p < |code| &&
    (code[p] == EXACTN || code[p] == ANYCHAR || code[p] == CHARSET || code[p] == CHARSET_NOT || IsJump(code[p])) &&
    (code[p] == EXACTN || code[p] == CHARSET || code[p] == CHARSET_NOT ==>
      p + 1 < |code| && p + 2 + code[p + 1] <= |code|) &&
    (IsJump(code[p]) ==> p + 2 < |code|) &&
    (code[p] == POP_FAILURE_JUMP ==> stack != []) &&
    (code[p] == MAYBE_POP_JUMP ==> DecisionInside(code, p) && (DecidesPop(code, p) ==> stack != []))
  }

  lemma AtomInside(code: seq<byte>, p: nat, a: Atom, stack: seq<Frame>)
    requires AtomAt(code, p, a)
    ensures OpInside(code, p, stack)
  {
  }

  lemma PieceInside(prog: Program, code: seq<byte>, i: nat, stack: seq<Frame>)
    requires WellFormed(prog) && Holds(code, prog) && i < |prog|
    ensures OpInside(code, Addr(prog, i), stack)
  {
    assert PieceAt(code, prog, i, Addr(prog, i));
    if prog[i].One? { AtomInside(code, Addr(prog, i), prog[i].atom, stack); }
  }

  lemma PointInside(k: Task, st: State, pt: Point, qs: seq<Pending>)
    requires Placed(k, st, pt, qs)
    ensures st.p == |st.code| <==> pt == At(|k.prog|)
    ensures pt != At(|k.prog|) ==> OpInside(st.code, st.p, st.stack)
  {
    if pt.At? {
      if pt.i < |k.prog| { PieceInside(k.prog, st.code, pt.i, st.stack); }
    } else if pt.Again? {
      LoopTopHolds(k.prog, st.code, pt);
    } else if pt.Body? {
      BodyHolds(k.prog, st.code, pt.i);
      AtomInside(st.code, st.p, k.prog[pt.i].atom, st.stack);
    } else {
      BackInside(k, st, pt.i, qs);
    }
  }

  /** The jump of a loop that pops, or decides to, finds its own failure point. */
  lemma BackInside(k: Task, st: State, i: nat, qs: seq<Pending>)
    requires i < |k.prog| && Loops(k.prog, i) && Placed(k, st, Back(i), qs)
    ensures OpInside(st.code, st.p, st.stack)
  {
    BackTarget(k.prog, st.code, i);
    DecisionBounds(k.prog, st.code, i);
    DecisionIsPopDecided(k.prog, st.code, i);
    assert i in PopSet(st.code, k.prog) <==> Pops(st.code, k.prog, i);
  }

  /** PUSH_FAILURE_POINT (regex.c:2352-2424): the slots are doubled until one more
      failure point fits. */
  method MakeRoom(size: nat, frames: nat) returns (ok: bool, size': nat)
    requires size > 0
    ensures ok == (Room(size, FRAME_SLOTS * frames) != 0)
    ensures ok ==> size' == Room(size, FRAME_SLOTS * frames) && size' > 0
  {
    size' := size;
    while size' - FRAME_SLOTS * frames < FRAME_SLOTS
      invariant size' > 0 && Room(size', FRAME_SLOTS * frames) == Room(size, FRAME_SLOTS * frames)
      decreases MAX_FAILURES * FRAME_SLOTS + 1 - size'
    {
      if size' > MAX_FAILURES * FRAME_SLOTS {
        return false, 0;
      }
      size' := 2 * size';
    }
    ok := true;
  }

  datatype Action = Continue | Failed | Overflow

  /** The opcodes that read the text (regex.c:3529-3601). */
  method ExecuteText(buf: array<byte>, used: nat, text: seq<byte>, p: nat, d: nat, ghost st: State, ghost pos: nat)
    returns (action: Action, p': int, d': nat)
    requires used <= buf.Length && st.code == buf[..used] && st.p == p && st.d == d <= |text|
    requires OpInside(st.code, p, st.stack) && !IsJump(st.code[p])
    ensures action == Continue ==> Step(text, pos, st) == Next(st.(p := p', d := d'))
    ensures action != Continue ==> action == Failed && Step(text, pos, st) == Fail(st, pos)
  {
    p', d' := p, d;
    var ok, width := false, 1;
    if buf[p] == EXACTN {
      var n := buf[p + 1];
      ok := MatchExactn(buf, used, p + 2, n, text, d);
      if ok { return Continue, p + 2 + n, d + n; }
      return Failed, p, d;
    } else if d == |text| {
      return Failed, p, d;
    } else if buf[p] == ANYCHAR {
      ok := text[d] != 0;
    } else {
      var hit := TestMap(buf, used, p + 1, text[d]);
      var length: int := buf[p + 1];
      ok, width := hit != (buf[p] == CHARSET_NOT), 2 + length;
    }
    if ok { return Continue, p + width, d + 1; }
    return Failed, p, d;
  }

  /** The opcodes that jump and push or pop failure points (regex.c:3934-4111). */
  method ExecuteJump(buf: array<byte>, used: nat, p: nat, d: nat, stack: seq<Frame>, size: nat, text: seq<byte>,
                     ghost st: State, ghost pos: nat)
    returns (action: Action, p': int, stack': seq<Frame>, size': nat)
    requires used <= buf.Length && st.code == buf[..used] && st.p == p && st.d == d && st.stack == stack &&
      st.size == size > 0
    requires OpInside(st.code, p, stack) && IsJump(st.code[p])
    modifies buf
    ensures size' > 0
    ensures action == Continue ==>
              Step(text, pos, st) == Next(st.(code := buf[..used], p := p', stack := stack', size := size'))
    ensures action != Continue ==>
              action == Overflow && buf[..used] == old(buf[..used]) &&
                Step(text, pos, st) == Return(INTERNAL_ERROR, st.code)
  {
    stack', size' := stack, size;
    var mcnt := ExtractNumber(buf, used, p + 1);
    var op := buf[p];
    if op == ON_FAILURE_JUMP || op == DUMMY_FAILURE_JUMP {
      var ok, grown := MakeRoom(size, |stack|);
      if !ok { return Overflow, p, stack, size; }
      if op == ON_FAILURE_JUMP { return Continue, p + 3, stack + [Frame(p + 3 + mcnt, d)], grown; }
      return Continue, p + 3 + mcnt, stack + [Dummy], grown;
    }
    if op == MAYBE_POP_JUMP {
      var pop := DecidePop(buf, used, p);
      op := if pop then POP_FAILURE_JUMP else JUMP;
      buf[p] := op;
      assert buf[..used] == st.code[p := op];
    }
    if op == POP_FAILURE_JUMP { stack' := stack[..|stack| - 1]; }
    return Continue, p + 3 + mcnt, stack', size;
  }

  /** The rounds from `init` pass through `st` after `k` of them. */
  ghost predicate Leads(text: seq<byte>, pos: nat, init: State, k: nat, st: State) {
    forall r: nat, n: int, code: seq<byte> :: Returns(text, pos, st, r, n, code) ==>
      Returns(text, pos, init, k + r, n, code)
  }

  lemma LeadsNowhere(text: seq<byte>, pos: nat, init: State)
    ensures Leads(text, pos, init, 0, init)
  {
  }

  lemma LeadsNext(text: seq<byte>, pos: nat, init: State, k: nat, st: State, st': State)
    requires Leads(text, pos, init, k, st) && Step(text, pos, st) == Next(st')
    ensures Leads(text, pos, init, k + 1, st')
  {
    forall r: nat, n: int, code: seq<byte> | Returns(text, pos, st', r, n, code)
      ensures Returns(text, pos, init, k + 1 + r, n, code)
    {
      assert Returns(text, pos, st, r + 1, n, code);
      assert k + (r + 1) == k + 1 + r;
    }
  }

  lemma LeadsReturn(text: seq<byte>, pos: nat, init: State, k: nat, st: State, n: int, code: seq<byte>)
    requires Leads(text, pos, init, k, st) && Step(text, pos, st) == Return(n, code)
    ensures Returns(text, pos, init, k, n, code)
  {
    assert Returns(text, pos, st, 0, n, code);
    assert k + 0 == k;
  }

  /** re_match. The value is what the trials from `pos` amount to: it says whether and how
      far the text matches the live program, a match that reaches the end of the text is
      always found, and the match is at least as long as the first one in order of trial
      and as every one but that of the last trial. It is -2 exactly if a trial needs more
      failure points than the failure stack holds. The buffer may have been rewritten but
      still holds the program, with the same loops popping. */
  method ReMatch(bufp: PatternBuffer, text: seq<byte>, pos: int, ghost prog: Program)
    returns (n: int, ghost rounds: nat)
    requires bufp.Valid() && WellFormed(prog) && Holds(bufp.Code(), prog)
    modifies bufp.buffer
    ensures Holds(bufp.Code(), prog) && PopSet(bufp.Code(), prog) == PopSet(old(bufp.Code()), prog)
    ensures !(0 <= pos <= |text|) ==> n == NO_MATCH
    ensures 0 <= pos <= |text| ==>
              var pops := PopSet(old(bufp.Code()), prog);
              Correct(prog, text, pos, n) && Answered(Task(prog, pops, text, pos), n) &&
              (n == INTERNAL_ERROR <==> Overflows(Trials(prog, pops, text, 0, pos, 0), |text|)) &&
              (n == INTERNAL_ERROR ==> |prog| + |text| - pos > CAPACITY) &&
              LongEnough(Trials(prog, pops, text, 0, pos, 0), pos, n) &&
              Returns(text, pos, InitialState(old(bufp.Code()), pos), rounds, n, bufp.Code())
  {
    hide Holds, WellFormed, Correct, Returns, Measure, PopSet, Answered, Trials, LongEnough, Ways, Midway, PointTrials,
      Overflows, Sized,
      StackTrials, Leads, DroppedOnTop, PointAddr, DecidesPop;
    rounds := 0;
    if pos < 0 || pos > |text| {
      return NO_MATCH, 0;
    }
    var buf, used := bufp.buffer, bufp.used;
    var p: int, d: nat, stack: seq<Frame>, size: nat, best: int := 0, pos, [], INIT_FAILURE_ALLOC, UNSET;
    ghost var init, k := InitialState(bufp.Code(), pos), Task(prog, PopSet(bufp.Code(), prog), text, pos);
    ghost var st, a := init, Account(At(0), [], []);
    HeldWays(bufp.Code(), prog);
    InitialInvariant(k, bufp.Code());
    LeadsNowhere(text, pos, init);
    while true
      invariant st == State(buf[..used], p, d, stack, size, best) && size > 0
      invariant Invariant(k, st, a) && Leads(text, pos, init, rounds, st)
      decreases Measure(k, st, a)
    {
      ghost var a' := RoundGood(k, st, a);
      PointInside(k, st, a.pt, a.qs);
      var action := Failed;
      if p == used {
        if d == |text| || stack == [] {
          n := (if d != |text| && best != UNSET then best else d) - pos;
          LeadsReturn(text, pos, init, rounds, st, n, st.code);
          AnsweredCorrect(k, n);
          return;
        }
        if best == UNSET || d > best {
          best := d;
        }
      } else if IsJump(buf[p]) {
        action, p, stack, size := ExecuteJump(buf, used, p, d, stack, size, text, st, pos);
      } else {
        action, p, d := ExecuteText(buf, used, text, p, d, st, pos);
      }
      if action == Overflow {
        LeadsReturn(text, pos, init, rounds, st, INTERNAL_ERROR, st.code);
        AnsweredCorrect(k, INTERNAL_ERROR);
        return INTERNAL_ERROR, rounds;
      }
      if action == Failed {
        var resumed, p', d', stack' := PopToResume(buf, used, stack, k, a.qs, st.(best := best));
        if !resumed {
          n := if best != UNSET then best - pos else NO_MATCH;
          LeadsReturn(text, pos, init, rounds, st, n, st.code);
          AnsweredCorrect(k, n);
          return;
        }
        p, d, stack := p', d', stack';
      }
      ghost var next := State(buf[..used], p, d, stack, size, best);
      LeadsNext(text, pos, init, rounds, st, next);
      st, a, rounds := next, a', rounds + 1;
    }
  }
}
