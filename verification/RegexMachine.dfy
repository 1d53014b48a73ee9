/** One round of the main loop of re_match_2 (gnu_regex/regex.c:3374-4333) as a
    function from machine state to machine state, for the opcodes that patterns
    without groups compile to. The text is one string (string1 is null), there is
    no translate table and newline_anchor is off. */
module RegexMachine {
  import opened Common
  import opened RegexLanguage
  import opened RegexCode

  /** A failure point. A dummy has no pattern place. */
  datatype Frame = Dummy | Frame(place: int, str: nat)

  /** `size` is the number of slots allocated for the failure stack; every
      failure point takes four of them, since no register is active. */
  datatype State = State(code: seq<byte>, p: int, d: nat, stack: seq<Frame>, size: nat, best: int)

  const FRAME_SLOTS := 4
  const INIT_FAILURE_ALLOC := 5
  const MAX_FAILURES := 2000
  const NO_MATCH := -1
  const INTERNAL_ERROR := -2
  const UNSET := -1

  /** What a round leads to: another round, a return value, or code outside the model. */
  datatype Outcome = Next(st: State) | Return(n: int, code: seq<byte>) | Stuck

  function InitialState(code: seq<byte>, pos: nat): State {
    State(code, 0, pos, [], INIT_FAILURE_ALLOC, UNSET)
  }

  // ----- The failure stack -----

  /** The size after making room for one more failure point, or 0 when the stack
      is already too large to double (DOUBLE_FAIL_STACK and the loop of
      PUSH_FAILURE_POINT, regex.c:2299-2310, 2369-2377). */
  function Room(size: nat, used: nat): (r: nat)
    decreases MAX_FAILURES * FRAME_SLOTS + 1 - size
  {
    if used + FRAME_SLOTS <= size then size
    else if size > MAX_FAILURES * FRAME_SLOTS || size == 0 then 0
    else Room(2 * size, used)
  }

  function Push(st: State, f: Frame, p: int): Outcome {
    var size := Room(st.size, FRAME_SLOTS * |st.stack|);
    if size == 0 then Return(INTERNAL_ERROR, st.code)
    else Next(st.(stack := st.stack + [f], size := size, p := p))
  }

  /** A failure point that resumes at the backward jump of a loop is skipped (regex.c:4307-4325). */
  predicate ResumesAtLoopJump(code: seq<byte>, place: int) {
    0 <= place < |code| &&
    (code[place] == MAYBE_POP_JUMP || code[place] == POP_FAILURE_JUMP || code[place] == JUMP) &&
    ByteAt(code, place + 3 + Num(code, place + 1)) == ON_FAILURE_JUMP
  }

  /** The code at label `fail` (regex.c:4287-4340). */
  function Fail(st: State, pos: nat): Outcome
    decreases |st.stack|
  {
    if st.stack == [] then
      if st.best != UNSET then Return(st.best - pos, st.code) else Return(NO_MATCH, st.code)
    else
      var f := st.stack[|st.stack| - 1];
      var popped := st.(stack := st.stack[..|st.stack| - 1]);
      if f.Dummy? || ResumesAtLoopJump(st.code, f.place) then Fail(popped, pos)
      else Next(popped.(p := f.place, d := f.str))
  }

  // ----- The opcodes -----

  /** What the charset test computes for the map at `p` (its length byte) and byte `c` (regex.c:3590-3592). */
  predicate MapHit(code: seq<byte>, p: int, c: byte) {
    c < ByteAt(code, p) * 8 && Bit(ByteAt(code, p + 1 + c / 8), c % 8)
  }

  /** The same test as maybe_pop_jump makes it, with the length cast to unsigned char (regex.c:4035-4036). */
  predicate MapHitCast(code: seq<byte>, p: int, c: byte) {
    c < ByteAt(code, p) * 8 % 256 && Bit(ByteAt(code, p + 1 + c / 8), c % 8)
  }

  /** Whether maybe_pop_jump at `p` changes to pop_failure_jump (regex.c:3981-4048). */
  predicate DecidesPop(code: seq<byte>, p: int) {
    var p2 := p + 3;
    p2 == |code| ||
    (ByteAt(code, p2) == EXACTN &&
     var c := ByteAt(code, p2 + 2);
     var p1 := p + 3 + Num(code, p + 1);
     if ByteAt(code, p1 + 3) == EXACTN && ByteAt(code, p1 + 5) != c then true
     else if ByteAt(code, p1 + 3) == CHARSET then !MapHitCast(code, p1 + 4, c)
     else if ByteAt(code, p1 + 3) == CHARSET_NOT then MapHitCast(code, p1 + 4, c)
     else false)
  }

  function JumpTo(st: State): Outcome { Next(st.(p := st.p + 3 + Num(st.code, st.p + 1))) }

  function PopAndJump(st: State): Outcome {
    if st.stack == [] then Stuck else JumpTo(st.(stack := st.stack[..|st.stack| - 1]))
  }

  /** The `n` bytes of an exactn at `q` occur in the text at `d`. */
  predicate Exactly(code: seq<byte>, q: int, n: nat, text: seq<byte>, d: nat) {
    d + n <= |text| && forall j :: d <= j < d + n ==> text[j] == ByteAt(code, q + (j - d))
  }

  function Consume(st: State, pos: nat, accept: bool, width: nat): Outcome {
    if accept then Next(st.(p := st.p + width, d := st.d + 1)) else Fail(st, pos)
  }

  function Step(text: seq<byte>, pos: nat, st: State): Outcome {
    var code, p, d := st.code, st.p, st.d;
    if p == |code| then
      if d == |text| then Return(d - pos, code)
      else if st.stack != [] then
        Fail(if st.best == UNSET || d > st.best then st.(best := d) else st, pos)
      else Return((if st.best != UNSET then st.best else d) - pos, code)
    else if !(0 <= p < |code|) then Stuck
    else
      var op := code[p];
      if op == EXACTN then
        var n := ByteAt(code, p + 1);
        if Exactly(code, p + 2, n, text, d) then Next(st.(p := p + 2 + n, d := d + n)) else Fail(st, pos)
      else if op == ANYCHAR then Consume(st, pos, d < |text| && text[d] != 0, 1)
      else if op == CHARSET then Consume(st, pos, d < |text| && MapHit(code, p + 1, text[d]), 2 + ByteAt(code, p + 1))
      else if op == CHARSET_NOT then
        Consume(st, pos, d < |text| && !MapHit(code, p + 1, text[d]), 2 + ByteAt(code, p + 1))
      else if op == JUMP || op == JUMP_PAST_ALT then JumpTo(st)
      else if op == ON_FAILURE_JUMP then Push(st, Frame(p + 3 + Num(code, p + 1), d), p + 3)
      else if op == DUMMY_FAILURE_JUMP then Push(st, Dummy, p + 3 + Num(code, p + 1))
      else if op == POP_FAILURE_JUMP then PopAndJump(st)
      else if op == MAYBE_POP_JUMP then
        if DecidesPop(code, p) then PopAndJump(st.(code := code[p := POP_FAILURE_JUMP]))
        else JumpTo(st.(code := code[p := JUMP]))
      else Stuck
  }

  /** The rounds from `st` end in a return of `n` with the buffer holding `code`. */
  ghost predicate Returns(text: seq<byte>, pos: nat, st: State, rounds: nat, n: int, code: seq<byte>)
    decreases rounds
  {
    match Step(text, pos, st)
    case Next(st') => rounds > 0 && Returns(text, pos, st', rounds - 1, n, code)
    case Return(n', code') => n == n' && code == code'
    case Stuck => false
  }
}
