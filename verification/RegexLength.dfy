/** What the value that a run returns means for the program: whether it matches, and how
    long the match is. */
module RegexLength {
  import opened Common
  import opened RegexLanguage
  import opened RegexProgram
  import opened RegexCode
  import opened RegexMachine
  import opened RegexTrials
  import opened RegexInvariant
  import opened RegexRounds

  /** What a returned value means. */
  ghost predicate Correct(prog: Program, text: seq<byte>, pos: nat, n: int)
    requires WellFormed(prog)
  {
    n == INTERNAL_ERROR ||
    ((n == NO_MATCH || (n >= 0 && Ends(Live(prog), text, 0, pos, pos + n))) &&
     (n == NO_MATCH <==> forall e: nat :: !Ends(Live(prog), text, 0, pos, e)) &&
     (Ends(Live(prog), text, 0, pos, |text|) ==> n == |text| - pos))
  }

  /** Which match is returned: at least as long as the first one in order of trial, and as
      every one but that of the last trial. */
  ghost predicate LongEnough(ts: seq<Trial>, pos: nat, n: int) {
    n == INTERNAL_ERROR ||
    (pos + n >= FirstHit(ts) && forall j, e: nat :: 0 <= j < |ts| - 1 && ts[j] == Hit(e) ==> e <= pos + n)
  }

  /** A buffer that holds the program has loops that pop only where they may, and every
      fooled one does. */
  lemma HeldWays(code: seq<byte>, prog: Program)
    requires WellFormed(prog) && Holds(code, prog)
    ensures Ways(prog, PopSet(code, prog))
  {
    forall i | 0 <= i < |prog| && Loops(prog, i)
      ensures Pops(code, prog, i) ==> PopHarmless(prog, i) || Fooled(prog, i)
      ensures Fooled(prog, i) ==> Pops(code, prog, i)
    {
      BackTarget(prog, code, i);
      PopDecisionExact(prog, i);
    }
  }

  /** No trial that matches goes past the end of the text. */
  lemma HitsInText(k: Task, e: nat)
    requires WellFormed(k.prog) && Ways(k.prog, k.pops) && k.pos <= |k.text|
    requires Hit(e) in Trials(k.prog, k.pops, k.text, 0, k.pos, 0)
    ensures Ends(Live(k.prog), k.text, 0, k.pos, e) && k.pos <= e <= |k.text|
  {
    TrialsSound(k.prog, k.pops, k.text, 0, k.pos, 0, e);
    EndsInText(Live(k.prog), k.text, 0, k.pos, e);
  }

  lemma AnsweredEnd(k: Task, n: int)
    requires WellFormed(k.prog) && Ways(k.prog, k.pops) && k.pos <= |k.text| && Answered(k, n)
    ensures var ts := Trials(k.prog, k.pops, k.text, 0, k.pos, 0);
      LongEnough(ts, k.pos, n) && (n == INTERNAL_ERROR <==> Overflows(ts, |k.text|)) &&
      (n != INTERNAL_ERROR ==>
        (if n == NO_MATCH then forall e: nat :: Hit(e) !in ts else n >= 0 && Hit(k.pos + n) in ts) &&
        (Hit(|k.text|) in ts ==> n == |k.text| - k.pos))
  {
    hide Trials, Ends, WellFormed, Ways, Live, Longest, FirstHit, Overflows;
    var ts := Trials(k.prog, k.pops, k.text, 0, k.pos, 0);
    forall e: nat | Hit(e) in ts ensures k.pos <= e <= |k.text| { HitsInText(k, e); }
    SettledBeats(ts, |k.text|);
  }

  /** Without an overflow and without a trial that reaches the end, no trial overflows. */
  lemma NoneDeep(ts: seq<Trial>, textEnd: nat)
    requires !Overflows(ts, textEnd) && Hit(textEnd) !in ts
    ensures Deep !in ts
  {
  }

  /** What the trials amount to is right about the program, and long enough. */
  lemma AnsweredCorrect(k: Task, n: int)
    requires WellFormed(k.prog) && Ways(k.prog, k.pops) && k.pos <= |k.text| && Answered(k, n)
    ensures Correct(k.prog, k.text, k.pos, n)
    ensures LongEnough(Trials(k.prog, k.pops, k.text, 0, k.pos, 0), k.pos, n)
    ensures n == INTERNAL_ERROR <==> Overflows(Trials(k.prog, k.pops, k.text, 0, k.pos, 0), |k.text|)
    ensures n == INTERNAL_ERROR ==> |k.prog| + |k.text| - k.pos > CAPACITY
  {
    hide Trials, Ends, WellFormed, Ways, Live, FirstHit, Answered, LongEnough;
    var ts, live := Trials(k.prog, k.pops, k.text, 0, k.pos, 0), Live(k.prog);
    AnsweredEnd(k, n);
    if n == INTERNAL_ERROR {
      if |k.prog| + |k.text| - k.pos <= CAPACITY { NotDeep(k.prog, k.pops, k.text, 0, k.pos, 0); }
    } else {
      if n != NO_MATCH { HitsInText(k, k.pos + n); }
      if Hit(|k.text|) !in ts {
        NoneDeep(ts, |k.text|);
        forall e: nat | Ends(live, k.text, 0, k.pos, e) ensures n != NO_MATCH && e != |k.text| {
          var e' := TrialsComplete(k.prog, k.pops, k.text, 0, k.pos, 0, e);
          HitsInText(k, e');
        }
      }
    }
  }

  /** Every match of the live program is no longer than the one returned or than that of
      the last trial. */
  lemma OnlyLastMayBeat(k: Task, n: int, e: nat)
    requires WellFormed(k.prog) && Ways(k.prog, k.pops) && k.pos <= |k.text| && Answered(k, n) && n != INTERNAL_ERROR
    requires Ends(Live(k.prog), k.text, 0, k.pos, e)
    ensures var ts := Trials(k.prog, k.pops, k.text, 0, k.pos, 0);
      e <= k.pos + n || (ts[|ts| - 1].Hit? && e <= ts[|ts| - 1].end)
  {
    AnsweredCorrect(k, n);
    AnsweredEnd(k, n);
    hide Trials, WellFormed, Ways, Live, Answered, Ends;
    var ts := Trials(k.prog, k.pops, k.text, 0, k.pos, 0);
    if Hit(|k.text|) in ts {
      EndsInText(Live(k.prog), k.text, 0, k.pos, e);
    } else {
      NoneDeep(ts, |k.text|);
      var e' := TrialsComplete(k.prog, k.pops, k.text, 0, k.pos, 0, e);
      var j :| 0 <= j < |ts| && ts[j] == Hit(e');
    }
  }

  /** A run that returns from a buffer holding the program returns what the trials amount to. */
  lemma RunAnswered(k: Task, code: seq<byte>, rounds: nat, n: int, end: seq<byte>)
    requires WellFormed(k.prog) && SameWays(k, code) && k.pos <= |k.text|
    requires Returns(k.text, k.pos, InitialState(code, k.pos), rounds, n, end)
    ensures Answered(k, n) && Correct(k.prog, k.text, k.pos, n)
  {
    hide Trials, Holds, Returns, InitialState, Invariant, WellFormed, PopSet, Correct, Answered, Ways;
    HeldWays(code, k.prog);
    InitialInvariant(k, code);
    ReturnsAnswered(k, InitialState(code, k.pos), Account(At(0), [], []), rounds, n, end);
    AnsweredCorrect(k, n);
  }

  lemma HarmlessDecides(prog: Program, i: nat)
    requires WellFormed(prog) && i < |prog| && Loops(prog, i) && PopHarmless(prog, i)
    ensures MayDecide(prog, i, JUMP) && MayDecide(prog, i, POP_FAILURE_JUMP)
  {
    PopDecisionExact(prog, i);
  }

  /** Where popping is harmless, a run with an ordinary jump at the loop and one with
      pop_failure_jump agree on whether there is a match and whether it reaches the end. */
  lemma DecisionUnseen(prog: Program, code: seq<byte>, i: nat, text: seq<byte>, pos: nat,
                       rounds: nat, n: int, end: seq<byte>, rounds': nat, n': int, end': seq<byte>)
    requires WellFormed(prog) && Holds(code, prog) && i < |prog| && Loops(prog, i) && BackAddr(prog, i) < |code|
    requires PopHarmless(prog, i) && pos <= |text|
    requires Returns(text, pos, InitialState(code[BackAddr(prog, i) := JUMP], pos), rounds, n, end)
    requires Returns(text, pos, InitialState(code[BackAddr(prog, i) := POP_FAILURE_JUMP], pos), rounds', n', end')
    ensures n != INTERNAL_ERROR && n' != INTERNAL_ERROR ==>
      (n == NO_MATCH <==> n' == NO_MATCH) && (n == |text| - pos <==> n' == |text| - pos)
  {
    var kept, popped := code[BackAddr(prog, i) := JUMP], code[BackAddr(prog, i) := POP_FAILURE_JUMP];
    HarmlessDecides(prog, i);
    hide Holds, Returns, InitialState, PopSet, Answered, MayDecide, PopDecided, FullMap, PopHarmless, BackAddr, Correct;
    DecideKeepsHolds(code, prog, i, JUMP);
    DecideKeepsHolds(code, prog, i, POP_FAILURE_JUMP);
    RunAnswered(Task(prog, PopSet(kept, prog), text, pos), kept, rounds, n, end);
    RunAnswered(Task(prog, PopSet(popped, prog), text, pos), popped, rounds', n', end');
    if n != INTERNAL_ERROR && n' != INTERNAL_ERROR { CorrectAgree(prog, text, pos, n, n'); }
  }

  /** Two correct answers agree on whether there is a match and whether it reaches the end. */
  lemma CorrectAgree(prog: Program, text: seq<byte>, pos: nat, n: int, n': int)
    requires WellFormed(prog) && Correct(prog, text, pos, n) && Correct(prog, text, pos, n')
    requires n != INTERNAL_ERROR && n' != INTERNAL_ERROR
    ensures (n == NO_MATCH <==> n' == NO_MATCH) && (pos <= |text| ==> (n == |text| - pos <==> n' == |text| - pos))
  {
    hide Ends, Live, WellFormed;
  }
}
