/** The order in which the matcher tries the ways through a program, and the length it
    settles on, both read off the program and the text. */
module RegexTrials {
  import opened Common
  import opened RegexLanguage
  import opened RegexProgram

  /** One way through the program: it matches up to `end`, fails on the way, or needs a
      failure point more than the failure stack holds. */
  datatype Trial = Hit(end: nat) | Miss | Deep

  /** The failure points that the largest failure stack holds. */
  const CAPACITY := 2560

  // ----- The order of trial -----

  /** What is tried from piece `i` at position `d` with `n` failure points pending, in order:
      the body of a repeated piece before leaving it, an earlier alternative before a later
      one. Each failure point stands for the trials that follow it; the dummy one of a `+`
      stands for one that fails. The loops in `pops` drop their failure point after every
      round, and so leave only where the body refuses the text. */
  ghost function Trials(prog: Program, pops: set<nat>, text: seq<byte>, i: nat, d: nat, n: nat): (r: seq<Trial>)
    requires WellFormed(prog) && i <= |prog|
    ensures r != []
    decreases |prog| - i, 0, 0
  {
    if i == |prog| then [Hit(d)]
    else
      assert PieceOk(prog, i);
      match prog[i]
      case Run(bytes) =>
        if d + |bytes| <= |text| && text[d..d + |bytes|] == bytes
        then Trials(prog, pops, text, i + 1, d + |bytes|, n) else [Miss]
      case One(a) => if Accepts(a, text, d) then Trials(prog, pops, text, i + 1, d + 1, n) else [Miss]
      case Rep(op, a) =>
        (match op
         case StarOp => LoopTrials(prog, pops, text, i, a, d, n)
         case PlusOp =>
           if n >= CAPACITY then [Deep]
           else if Accepts(a, text, d)
           then if i in pops then LoopTrials(prog, pops, text, i, a, d + 1, n)
                else LoopTrials(prog, pops, text, i, a, d + 1, n + 1) + [Miss]
           else [Miss, Miss]
         case OptOp =>
           if n >= CAPACITY then [Deep]
           else
             (if Accepts(a, text, d) then Trials(prog, pops, text, i + 1, d + 1, n + 1) else [Miss]) +
             Trials(prog, pops, text, i + 1, d, n))
      case Fork(to) =>
        if n >= CAPACITY then [Deep]
        else Trials(prog, pops, text, i + 1, d, n + 1) + Trials(prog, pops, text, to, d, n)
      case Past(to) => Trials(prog, pops, text, to, d, n)
  }

  /** What is tried at the top of the loop over `a` at piece `i`. */
  ghost function LoopTrials(prog: Program, pops: set<nat>, text: seq<byte>, i: nat, a: Atom, d: nat, n: nat):
    (r: seq<Trial>)
    requires WellFormed(prog) && i < |prog|
    ensures r != []
    decreases |prog| - i - 1, 1, |text| - d
  {
    if n >= CAPACITY then [Deep]
    else if !Accepts(a, text, d) then [Miss] + Trials(prog, pops, text, i + 1, d, n)
    else if i in pops then LoopTrials(prog, pops, text, i, a, d + 1, n)
    else LoopTrials(prog, pops, text, i, a, d + 1, n + 1) + Trials(prog, pops, text, i + 1, d, n)
  }

  // ----- The length settled on -----

  const NONE := -1

  /** Where the longest of the trials that match ends. */
  ghost function Longest(ts: seq<Trial>): (r: int)
    ensures r == NONE <==> forall e: nat :: Hit(e) !in ts
    ensures r != NONE ==> r >= 0 && Hit(r) in ts && forall e: nat :: Hit(e) in ts ==> e <= r
  {
    if ts == [] then NONE
    else
      var r, t := Longest(ts[..|ts| - 1]), ts[|ts| - 1];
      assert ts == ts[..|ts| - 1] + [t];
      if t.Hit? && t.end > r then t.end else r
  }

  /** Where the match that the matcher settles on ends. A trial that reaches the end of the
      text wins. Otherwise the longest of all the trials but the last one does: the last
      one, made with no failure point left, counts only if nothing has matched before. */
  ghost function Settled(ts: seq<Trial>, textEnd: nat): (r: int)
    requires ts != []
  {
    if Hit(textEnd) in ts then textEnd
    else if Longest(ts[..|ts| - 1]) != NONE then Longest(ts[..|ts| - 1])
    else Longest(ts)
  }

  /** A trial needs too many failure points before any reaches the end of the text. */
  ghost predicate Overflows(ts: seq<Trial>, textEnd: nat) {
    exists j :: 0 <= j < |ts| && ts[j] == Deep && Hit(textEnd) !in ts[..j]
  }

  /** The value that is returned: -2 where the failure stack overflows, -1 if no trial
      matches, or else the length settled on. */
  ghost predicate Answer(ts: seq<Trial>, textEnd: nat, pos: nat, n: int)
    requires ts != []
  {
    var e := Settled(ts, textEnd);
    n == if Overflows(ts, textEnd) then -2 else if e == NONE then -1 else e - pos
  }

  /** The first trial that matches. */
  ghost function FirstHit(ts: seq<Trial>): (r: int)
    ensures r == NONE <==> forall e: nat :: Hit(e) !in ts
    ensures r != NONE ==> r >= 0 && Hit(r) in ts
  {
    if ts == [] then NONE else if ts[0].Hit? then ts[0].end else FirstHit(ts[1..])
  }

  // ----- Trials and what the program matches -----

  /** The loops in `pops` are ones that may drop their failure points, and a fooled one does. */
  predicate Ways(prog: Program, pops: set<nat>) {
    forall i :: 0 <= i < |prog| ==>
      (i in pops ==> Loops(prog, i) && (PopHarmless(prog, i) || Fooled(prog, i))) && (Fooled(prog, i) ==> i in pops)
  }

  lemma HitIn(a: seq<Trial>, b: seq<Trial>, t: Trial)
    ensures t in a + b <==> t in a || t in b
  {
  }

  /** Where the body of a fooled loop refuses the text, so does what follows the loop. */
  lemma FooledDead(prog: Program, pops: set<nat>, text: seq<byte>, i: nat, d: nat, n: nat)
    requires WellFormed(prog) && i < |prog| && Fooled(prog, i) && !Accepts(prog[i].atom, text, d)
    ensures Trials(prog, pops, text, i + 1, d, n) == [Miss]
  {
    var bytes := prog[i + 1].bytes;
    if d + |bytes| <= |text| { assert text[d] == text[d..d + |bytes|][0]; }
  }

  /** No trial gets out of a fooled loop. */
  lemma {:induction false} FooledMisses(prog: Program, pops: set<nat>, text: seq<byte>, i: nat, d: nat, n: nat,
                                        t: Trial)
    requires WellFormed(prog) && i < |prog| && Fooled(prog, i) && i in pops
    requires t in LoopTrials(prog, pops, text, i, prog[i].atom, d, n)
    ensures !t.Hit?
    decreases |text| - d
  {
    if n < CAPACITY {
      if Accepts(prog[i].atom, text, d) {
        FooledMisses(prog, pops, text, i, d + 1, n, t);
      } else {
        FooledDead(prog, pops, text, i, d, n);
      }
    }
  }

  lemma NeverEnds(prog: Program, text: seq<byte>, i: nat, d: nat, e: nat)
    requires WellFormed(prog) && i < |prog| && Fooled(prog, i)
    ensures !Ends(Live(prog), text, i, d, e)
  {
    assert Live(prog)[i] == NEVER;
  }

  /** A trial that matches ends where the live program can end. */
  lemma {:induction false} TrialsSound(prog: Program, pops: set<nat>, text: seq<byte>, i: nat, d: nat, n: nat, e: nat)
    requires WellFormed(prog) && Ways(prog, pops) && i <= |prog| && Hit(e) in Trials(prog, pops, text, i, d, n)
    ensures Ends(Live(prog), text, i, d, e)
    decreases |prog| - i, 0, 0
  {
    if i < |prog| {
      assert PieceOk(prog, i) && Live(prog)[i] == LivePiece(prog, i);
      match prog[i]
      case Run(bytes) => TrialsSound(prog, pops, text, i + 1, d + |bytes|, n, e);
      case One(a) => TrialsSound(prog, pops, text, i + 1, d + 1, n, e);
      case Rep(op, a) => RepSound(prog, pops, text, i, d, n, e);
      case Fork(to) =>
        HitIn(Trials(prog, pops, text, i + 1, d, n + 1), Trials(prog, pops, text, to, d, n), Hit(e));
        if Hit(e) in Trials(prog, pops, text, i + 1, d, n + 1) {
          TrialsSound(prog, pops, text, i + 1, d, n + 1, e);
        } else {
          TrialsSound(prog, pops, text, to, d, n, e);
        }
      case Past(to) => TrialsSound(prog, pops, text, to, d, n, e);
    }
  }

  lemma {:induction false} RepSound(prog: Program, pops: set<nat>, text: seq<byte>, i: nat, d: nat, n: nat, e: nat)
    requires WellFormed(prog) && Ways(prog, pops) && i < |prog| && prog[i].Rep?
    requires Hit(e) in Trials(prog, pops, text, i, d, n)
    ensures Ends(Live(prog), text, i, d, e)
    decreases |prog| - i - 1, 2, 0
  {
    var Rep(op, a) := prog[i];
    assert Live(prog)[i] == LivePiece(prog, i);
    if op == OptOp {
      if Hit(e) in Trials(prog, pops, text, i + 1, d, n) {
        TrialsSound(prog, pops, text, i + 1, d, n, e);
      } else {
        TrialsSound(prog, pops, text, i + 1, d + 1, n + 1, e);
      }
    } else {
      var d', n' := if op == StarOp then d else d + 1, if op == StarOp || i in pops then n else n + 1;
      assert Hit(e) in LoopTrials(prog, pops, text, i, a, d', n');
      if Fooled(prog, i) {
        FooledMisses(prog, pops, text, i, d', n', Hit(e));
      } else {
        LoopSound(prog, pops, text, i, d', n', e);
      }
    }
  }

  lemma {:induction false} LoopSound(prog: Program, pops: set<nat>, text: seq<byte>, i: nat, d: nat, n: nat, e: nat)
    requires WellFormed(prog) && Ways(prog, pops) && i < |prog| && Loops(prog, i)
    requires Hit(e) in LoopTrials(prog, pops, text, i, prog[i].atom, d, n)
    ensures LoopEnds(Live(prog), text, i + 1, prog[i].atom, d, e)
    decreases |prog| - i - 1, 1, |text| - d
  {
    if Hit(e) in Trials(prog, pops, text, i + 1, d, n) {
      TrialsSound(prog, pops, text, i + 1, d, n, e);
    } else {
      LoopSound(prog, pops, text, i, d + 1, if i in pops then n else n + 1, e);
    }
  }

  /** Wherever the live program can end, some trial ends there or later, unless one overflows:
      dropping failure points loses only shorter matches. */
  lemma {:induction false} TrialsComplete(prog: Program, pops: set<nat>, text: seq<byte>, i: nat, d: nat, n: nat,
                                          e: nat)
    returns (e': nat)
    requires WellFormed(prog) && Ways(prog, pops) && i <= |prog| && Ends(Live(prog), text, i, d, e)
    requires Deep !in Trials(prog, pops, text, i, d, n)
    ensures e <= e' && Hit(e') in Trials(prog, pops, text, i, d, n)
    decreases |prog| - i, 0, 0
  {
    e' := e;
    if i < |prog| {
      var live := Live(prog);
      assert PieceOk(prog, i) && live[i] == LivePiece(prog, i);
      if Fooled(prog, i) { NeverEnds(prog, text, i, d, e); }
      match prog[i]
      case Run(bytes) => e' := TrialsComplete(prog, pops, text, i + 1, d + |bytes|, n, e);
      case One(a) => e' := TrialsComplete(prog, pops, text, i + 1, d + 1, n, e);
      case Rep(op, a) => e' := RepComplete(prog, pops, text, i, d, n, e);
      case Fork(to) =>
        var first, second := Trials(prog, pops, text, i + 1, d, n + 1), Trials(prog, pops, text, to, d, n);
        assert n < CAPACITY;
        HitIn(first, second, Deep);
        if Ends(live, text, i + 1, d, e) {
          e' := TrialsComplete(prog, pops, text, i + 1, d, n + 1, e);
        } else {
          e' := TrialsComplete(prog, pops, text, to, d, n, e);
        }
        HitIn(first, second, Hit(e'));
      case Past(to) => e' := TrialsComplete(prog, pops, text, to, d, n, e);
    }
  }

  lemma {:induction false} RepComplete(prog: Program, pops: set<nat>, text: seq<byte>, i: nat, d: nat, n: nat, e: nat)
    returns (e': nat)
    requires WellFormed(prog) && Ways(prog, pops) && i < |prog| && prog[i].Rep? && !Fooled(prog, i)
    requires Ends(Live(prog), text, i, d, e) && Deep !in Trials(prog, pops, text, i, d, n)
    ensures e <= e' && Hit(e') in Trials(prog, pops, text, i, d, n)
    decreases |prog| - i - 1, 2, 0
  {
    var Rep(op, a) := prog[i];
    assert Live(prog)[i] == prog[i];
    match op
    case StarOp => e' := LoopComplete(prog, pops, text, i, d, n, e);
    case PlusOp =>
      assert n < CAPACITY;
      e' := LoopComplete(prog, pops, text, i, d + 1, if i in pops then n else n + 1, e);
    case OptOp =>
      assert n < CAPACITY;
      if Ends(Live(prog), text, i + 1, d, e) {
        e' := TrialsComplete(prog, pops, text, i + 1, d, n, e);
      } else {
        e' := TrialsComplete(prog, pops, text, i + 1, d + 1, n + 1, e);
      }
  }

  lemma {:induction false} LoopComplete(prog: Program, pops: set<nat>, text: seq<byte>, i: nat, d: nat, n: nat, e: nat)
    returns (e': nat)
    requires WellFormed(prog) && Ways(prog, pops) && i < |prog| && Loops(prog, i) && !Fooled(prog, i)
    requires LoopEnds(Live(prog), text, i + 1, prog[i].atom, d, e)
    requires Deep !in LoopTrials(prog, pops, text, i, prog[i].atom, d, n)
    ensures e <= e' && Hit(e') in LoopTrials(prog, pops, text, i, prog[i].atom, d, n)
    decreases |prog| - i - 1, 1, |text| - d
  {
    assert n < CAPACITY;
    if !Ends(Live(prog), text, i + 1, d, e) {
      e' := LoopComplete(prog, pops, text, i, d + 1, if i in pops then n else n + 1, e);
    } else if Accepts(prog[i].atom, text, d) && i in pops {
      DroppedIsShorter(prog, text, i, d, e);
      e' := LoopComplete(prog, pops, text, i, d + 1, n, d + 1);
    } else {
      e' := TrialsComplete(prog, pops, text, i + 1, d, n, e);
    }
  }

  /** A loop that drops its failure point where its body goes on ends the program. */
  lemma DroppedIsShorter(prog: Program, text: seq<byte>, i: nat, d: nat, e: nat)
    requires WellFormed(prog) && i < |prog| && Loops(prog, i) && PopHarmless(prog, i) && !Fooled(prog, i)
    requires Accepts(prog[i].atom, text, d) && Ends(Live(prog), text, i + 1, d, e)
    ensures e == d && LoopEnds(Live(prog), text, i + 1, prog[i].atom, d + 1, d + 1)
  {
    if i + 1 < |prog| { assert false; }
    assert Ends(Live(prog), text, i + 1, d + 1, d + 1);
  }

  // ----- When the failure stack holds all failure points -----

  /** Every failure point goes with a piece or a byte of its own, so none is too many while
      pieces and text are short enough. */
  lemma {:induction false} NotDeep(prog: Program, pops: set<nat>, text: seq<byte>, i: nat, d: nat, n: nat)
    requires WellFormed(prog) && i <= |prog| && d <= |text| && n + (|prog| - i) + (|text| - d) <= CAPACITY
    ensures Deep !in Trials(prog, pops, text, i, d, n)
    decreases |prog| - i, 0, 0
  {
    if i < |prog| {
      assert PieceOk(prog, i);
      match prog[i]
      case Run(bytes) => if d + |bytes| <= |text| { NotDeep(prog, pops, text, i + 1, d + |bytes|, n); }
      case One(a) => if d < |text| { NotDeep(prog, pops, text, i + 1, d + 1, n); }
      case Rep(op, a) =>
        NotDeep(prog, pops, text, i + 1, d, n);
        if op == StarOp { LoopNotDeep(prog, pops, text, i, a, d, n); }
        if op == PlusOp && d < |text| {
          LoopNotDeep(prog, pops, text, i, a, d + 1, if i in pops then n else n + 1);
        }
        if op == OptOp && d < |text| { NotDeep(prog, pops, text, i + 1, d + 1, n + 1); }
      case Fork(to) =>
        NotDeep(prog, pops, text, i + 1, d, n + 1);
        NotDeep(prog, pops, text, to, d, n);
        HitIn(Trials(prog, pops, text, i + 1, d, n + 1), Trials(prog, pops, text, to, d, n), Deep);
      case Past(to) => NotDeep(prog, pops, text, to, d, n);
    }
  }

  lemma {:induction false} LoopNotDeep(prog: Program, pops: set<nat>, text: seq<byte>, i: nat, a: Atom, d: nat, n: nat)
    requires WellFormed(prog) && i < |prog| && d <= |text| && n + (|prog| - i) + (|text| - d) <= CAPACITY
    ensures Deep !in LoopTrials(prog, pops, text, i, a, d, n)
    decreases |prog| - i - 1, 1, |text| - d
  {
    NotDeep(prog, pops, text, i + 1, d, n);
    if Accepts(a, text, d) { LoopNotDeep(prog, pops, text, i, a, d + 1, if i in pops then n else n + 1); }
  }

  // ----- How good the length settled on is -----

  /** The length settled on is at least that of the first match in order of trial, and of
      every trial but the last. */
  lemma SettledBeats(ts: seq<Trial>, textEnd: nat)
    requires ts != [] && forall e: nat :: Hit(e) in ts ==> e <= textEnd
    ensures Settled(ts, textEnd) >= FirstHit(ts)
    ensures forall j, e: nat :: 0 <= j < |ts| - 1 && ts[j] == Hit(e) ==> e <= Settled(ts, textEnd)
    ensures Settled(ts, textEnd) == NONE <==> forall e: nat :: Hit(e) !in ts
    ensures Settled(ts, textEnd) != NONE ==> Settled(ts, textEnd) >= 0 && Hit(Settled(ts, textEnd)) in ts
  {
    var init := ts[..|ts| - 1];
    assert ts == init + [ts[|ts| - 1]];
    forall j, e: nat | 0 <= j < |init| && ts[j] == Hit(e) ensures Hit(e) in init { assert init[j] == ts[j]; }
    if FirstHit(ts) != NONE && Longest(init) != NONE {
      FirstOfInit(ts);
    }
  }

  lemma {:induction false} FirstOfInit(ts: seq<Trial>)
    requires ts != [] && Longest(ts[..|ts| - 1]) != NONE
    ensures FirstHit(ts) == FirstHit(ts[..|ts| - 1])
    decreases |ts|
  {
    var init := ts[..|ts| - 1];
    if !ts[0].Hit? {
      assert ts[1..][..|ts[1..]| - 1] == init[1..];
      assert Hit(Longest(init)) in init[1..] by { assert init == [init[0]] + init[1..]; }
      FirstOfInit(ts[1..]);
    }
  }

  /** The longest match is settled on, except exactly when the last trial matches further
      than the earlier ones, of which at least one matches, but not up to the end of the text. */
  lemma LongestExactly(ts: seq<Trial>, textEnd: nat)
    requires ts != [] && forall e: nat :: Hit(e) in ts ==> e <= textEnd
    ensures Settled(ts, textEnd) != Longest(ts) <==>
            ts[|ts| - 1].Hit? && NONE < Longest(ts[..|ts| - 1]) < ts[|ts| - 1].end < textEnd
  {
    var init, t := ts[..|ts| - 1], ts[|ts| - 1];
    assert ts == init + [t];
    if Hit(textEnd) in ts { assert Longest(ts) == textEnd; }
  }
}
