/** The whole way from pattern text to answer, and exactly when the answer is the one
    that the pattern's language asks for. */
module RegexAnswer {
  import opened Common
  import opened RegexLanguage
  import opened RegexProgram
  import opened RegexCode
  import opened RegexMachine
  import opened RegexTrials
  import opened RegexInvariant
  import opened RegexLength
  import opened RegexBuffer
  import opened RegexMatch
  import opened RegexFastmap
  import opened RegexSearch
  import opened RegexSyntax
  import opened RegexMeaning
  import opened RegexLayout
  import opened RegexCompile
  import opened RegexLive
  import opened RegexOrder

  /** Some word of the pattern starts at `i`. */
  ghost predicate WordAt(pat: Pattern, text: seq<byte>, i: nat) {
    exists e: nat :: i <= e <= |text| && Denotes(pat, text[i..e])
  }

  /** What matching at `pos` must answer, in terms of the pattern's language alone. */
  ghost predicate Answers(pat: Pattern, text: seq<byte>, pos: nat, n: int)
    requires pos <= |text|
  {
    (n == NO_MATCH || (n >= 0 && pos + n <= |text| && Denotes(pat, text[pos..pos + n]))) &&
    (n == NO_MATCH <==> !WordAt(pat, text, pos)) &&
    (Denotes(pat, text[pos..]) ==> n == |text| - pos)
  }

  lemma CorrectAnswers(pat: Pattern, text: seq<byte>, pos: nat, n: int)
    requires Modelled(pat) && pos <= |text| && WellFormed(CompiledProgram(pat)) && n != INTERNAL_ERROR
    requires Correct(CompiledProgram(pat), text, pos, n)
    ensures Answers(LiveAlts(pat), text, pos, n)
  {
    var live := Live(CompiledProgram(pat));
    hide Ends, Denotes, WellFormed, Modelled, Live, LiveAlts;
    forall e: nat ensures Ends(live, text, 0, pos, e) <==> pos <= e <= |text| && Denotes(LiveAlts(pat), text[pos..e]) {
      LiveMeaning(pat, text, pos, e);
    }
    assert text[pos..|text|] == text[pos..];
  }

  lemma MatchesAtIsWordAt(pat: Pattern, text: seq<byte>, i: nat)
    requires Modelled(pat) && i <= |text| && WellFormed(CompiledProgram(pat))
    ensures MatchesAt(CompiledProgram(pat), text, i) <==> WordAt(LiveAlts(pat), text, i)
  {
    var live := Live(CompiledProgram(pat));
    hide Ends, Denotes, WellFormed, Modelled, Live, LiveAlts;
    forall e: nat ensures Ends(live, text, 0, i, e) <==> i <= e <= |text| && Denotes(LiveAlts(pat), text[i..e]) {
      LiveMeaning(pat, text, i, e);
    }
  }

  ghost function ModelledProgram(pat: Pattern): (prog: Program)
    requires Modelled(pat)
    ensures pat != [] && prog == CompiledProgram(pat)
  {
    CompiledProgram(pat)
  }

  /** Compiling a pattern and matching it at `pos` answers for the language of its live
      alternatives, except for the -2 of a full failure stack. For a safe pattern that
      is its own language. The match is the one that the pattern's trials settle on: at
      least as long as the first in order of trial and as every one but the last. The
      failure stack overflows exactly if a trial needs too many failure points, and cannot
      while pieces and text are short enough. */
  method CompileAndMatch(pattern: seq<byte>, text: seq<byte>, pos: nat, ghost pat: Pattern) returns (n: int)
    requires Modelled(pat) && pattern == PatternText(pat) && |PatternCode(pat)| < 0x8000
    requires pos <= |text|
    ensures n == INTERNAL_ERROR || Answers(LiveAlts(pat), text, pos, n)
    ensures n == INTERNAL_ERROR <==> Overflows(PatternTrials(pat, 0, text, pos), |text|)
    ensures n == INTERNAL_ERROR ==> |CompiledProgram(pat)| + |text| - pos > CAPACITY
    ensures Answer(PatternTrials(pat, 0, text, pos), |text|, pos, n)
    ensures LongEnough(PatternTrials(pat, 0, text, pos), pos, n)
    ensures SafePattern(pat) ==> n == INTERNAL_ERROR || Answers(pat, text, pos, n)
    ensures n != INTERNAL_ERROR ==>
      ((n == NO_MATCH <==> !WordAt(pat, text, pos)) <==> (WordAt(LiveAlts(pat), text, pos) <==> WordAt(pat, text, pos)))
  {
    hide Modelled, PatternText, PatternCode, SafePattern, LiveAlts, Holds, WellFormed, Correct, WordAt, Denotes,
      PatternTrials, Trials, Answer, LongEnough, PopSet, Deciding, Overflows;
    var bufp := new PatternBuffer();
    ghost var prog := ModelledProgram(pat);
    var err := RegexCompile.Compile(bufp, pattern, pat);
    PatternCodeHolds(pat);
    ghost var rounds;
    n, rounds := ReMatch(bufp, text, pos, prog);
    CompiledOrder(pat, text, pos);
    LiveOfSafe(pat);
    if n != INTERNAL_ERROR { CorrectAnswers(pat, text, pos, n); }
  }

  /** Compiling a pattern and searching the text finds the first place where a word of
      a live alternative starts, with a fastmap or without. */
  method CompileAndSearch(pattern: seq<byte>, text: seq<byte>, useFastmap: bool, ghost pat: Pattern) returns (r: int)
    requires Modelled(pat) && pattern == PatternText(pat) && |PatternCode(pat)| < 0x8000
    ensures r == INTERNAL_ERROR || -1 <= r <= |text|
    ensures r == INTERNAL_ERROR ==>
      |CompiledProgram(pat)| + |text| > CAPACITY || (useFastmap && |CompiledProgram(pat)| > MAX_FAILURES)
    ensures r >= 0 ==> WordAt(LiveAlts(pat), text, r) && forall i: nat :: i < r ==> !WordAt(LiveAlts(pat), text, i)
    ensures r == NO_MATCH ==> forall i: nat :: i <= |text| ==> !WordAt(LiveAlts(pat), text, i)
  {
    hide Modelled, PatternText, PatternCode, LiveAlts, Holds, WellFormed, MatchesAt, WordAt, First, Nullable;
    var bufp := new PatternBuffer();
    ghost var prog := ModelledProgram(pat);
    var err := RegexCompile.Compile(bufp, pattern, pat);
    PatternCodeHolds(pat);
    r := ReSearch(bufp, useFastmap, text, 0, |text|, prog);
    forall i: nat | i <= |text| ensures MatchesAt(prog, text, i) <==> WordAt(LiveAlts(pat), text, i) {
      MatchesAtIsWordAt(pat, text, i);
    }
  }

  // ----- When the answer is right -----

  /** On every text, whether the matcher finds a match is right. */
  ghost predicate FindsRight(pat: Pattern) {
    forall text: seq<byte>, pos: nat, n: int :: pos <= |text| && Answers(LiveAlts(pat), text, pos, n) ==>
      (n == NO_MATCH <==> !WordAt(pat, text, pos))
  }

  /** On every text, the whole answer of the matcher is right. */
  ghost predicate AnswersRight(pat: Pattern) {
    forall text: seq<byte>, pos: nat, n: int :: pos <= |text| && Answers(LiveAlts(pat), text, pos, n) ==>
      Answers(pat, text, pos, n)
  }

  ghost predicate WordsLive(pat: Pattern) { forall w: seq<byte> :: Denotes(pat, w) ==> Denotes(LiveAlts(pat), w) }

  ghost predicate LivePrefix(pat: Pattern, w: seq<byte>) { exists k: nat :: k <= |w| && Denotes(LiveAlts(pat), w[..k]) }

  ghost predicate PrefixesLive(pat: Pattern) { forall w: seq<byte> :: Denotes(pat, w) ==> LivePrefix(pat, w) }

  lemma LiveIsWord(pat: Pattern, w: seq<byte>)
    requires Denotes(LiveAlts(pat), w)
    ensures Denotes(pat, w)
  {
    hide InCat, ItemRes, SafeItems;
    LiveDenotes(pat, w);
    var k: nat :| LiveWord(pat, k, w);
  }

  /** A text has an answer, and any answer for a text without a live word is -1. */
  lemma SomeAnswer(pat: Pattern, text: seq<byte>) returns (n: int)
    ensures Answers(pat, text, 0, n)
  {
    hide Denotes;
    assert text[0..] == text && text[0..|text|] == text;
    if Denotes(pat, text) {
      n := |text|;
      assert WordAt(pat, text, 0);
    } else if WordAt(pat, text, 0) {
      var e: nat :| e <= |text| && Denotes(pat, text[0..e]);
      n := e;
    } else {
      n := NO_MATCH;
    }
  }

  lemma WordAtStart(pat: Pattern, w: seq<byte>)
    requires Denotes(pat, w)
    ensures WordAt(pat, w, 0)
  {
    hide Denotes;
    assert w[0..|w|] == w;
  }

  lemma PrefixIsWordAt(pat: Pattern, w: seq<byte>)
    ensures WordAt(LiveAlts(pat), w, 0) <==> LivePrefix(pat, w)
  {
    hide Denotes, LiveAlts;
    forall k: nat | k <= |w| ensures w[0..k] == w[..k] {}
  }

  lemma LivePrefixHere(pat: Pattern, text: seq<byte>, pos: nat, e: nat)
    requires pos <= e <= |text| && LivePrefix(pat, text[pos..e])
    ensures WordAt(LiveAlts(pat), text, pos)
  {
    hide Denotes, LiveAlts;
    var k: nat :| k <= e - pos && Denotes(LiveAlts(pat), text[pos..e][..k]);
    assert text[pos..e][..k] == text[pos..pos + k];
  }

  lemma LiveWordAt(pat: Pattern, text: seq<byte>, pos: nat)
    requires WordAt(LiveAlts(pat), text, pos)
    ensures WordAt(pat, text, pos)
  {
    hide Denotes, LiveAlts;
    var e: nat :| pos <= e <= |text| && Denotes(LiveAlts(pat), text[pos..e]);
    LiveIsWord(pat, text[pos..e]);
  }

  /** Match or no match is right on every text if and only if every word of the pattern
      begins with a word of a live alternative. */
  lemma FindsExactly(pat: Pattern)
    ensures FindsRight(pat) <==> PrefixesLive(pat)
  {
    hide Denotes, LiveAlts, LivePrefix, WordAt;
    if PrefixesLive(pat) {
      forall text: seq<byte>, pos: nat, n: int | pos <= |text| && Answers(LiveAlts(pat), text, pos, n)
        ensures n == NO_MATCH <==> !WordAt(pat, text, pos)
      {
        FoundHere(pat, text, pos);
      }
    }
    if FindsRight(pat) {
      forall w: seq<byte> | Denotes(pat, w) ensures LivePrefix(pat, w) {
        var n := SomeAnswer(LiveAlts(pat), w);
        WordAtStart(pat, w);
        PrefixIsWordAt(pat, w);
      }
    }
  }

  lemma FoundHere(pat: Pattern, text: seq<byte>, pos: nat)
    requires pos <= |text| && PrefixesLive(pat)
    ensures WordAt(LiveAlts(pat), text, pos) <==> WordAt(pat, text, pos)
  {
    hide Denotes, LiveAlts, LivePrefix;
    if WordAt(LiveAlts(pat), text, pos) { LiveWordAt(pat, text, pos); }
    if WordAt(pat, text, pos) {
      var e: nat :| pos <= e <= |text| && Denotes(pat, text[pos..e]);
      LivePrefixHere(pat, text, pos, e);
    }
  }

  /** The whole answer is right on every text if and only if every word of the pattern
      is a word of a live alternative. */
  lemma AnswersExactly(pat: Pattern)
    ensures AnswersRight(pat) <==> WordsLive(pat)
  {
    hide Denotes, LiveAlts, Answers;
    if WordsLive(pat) {
      forall text: seq<byte>, pos: nat, n: int | pos <= |text| && Answers(LiveAlts(pat), text, pos, n)
        ensures Answers(pat, text, pos, n)
      {
        AnswerKept(pat, text, pos, n);
      }
    }
    if AnswersRight(pat) {
      forall w: seq<byte> | Denotes(pat, w) ensures Denotes(LiveAlts(pat), w) {
        var n := SomeAnswer(LiveAlts(pat), w);
        AnswerReaches(pat, w, n);
      }
    }
  }

  lemma AnswerKept(pat: Pattern, text: seq<byte>, pos: nat, n: int)
    requires WordsLive(pat) && pos <= |text| && Answers(LiveAlts(pat), text, pos, n)
    ensures Answers(pat, text, pos, n)
  {
    hide Denotes, LiveAlts;
    if n != NO_MATCH { LiveIsWord(pat, text[pos..pos + n]); }
    if WordAt(LiveAlts(pat), text, pos) { LiveWordAt(pat, text, pos); }
  }

  lemma AnswerReaches(pat: Pattern, w: seq<byte>, n: int)
    requires Denotes(pat, w) && Answers(LiveAlts(pat), w, 0, n) && Answers(pat, w, 0, n)
    ensures Denotes(LiveAlts(pat), w)
  {
    hide Denotes, LiveAlts;
    assert w[0..] == w && w[0..|w|] == w;
  }

  // ----- Patterns of one alternative -----

  lemma SomeChar(a: SrcAtom) returns (c: byte)
    requires AtomModelled(a)
    ensures c in Chars(a)
  {
    match a
    case Char(x, _) => c := x;
    case Dot => c := 1;
    case Bracket(negated, elems) =>
      if negated {
        c := NUL;
        forall i | 0 <= i < |elems| ensures !RegexSyntax.Covers(elems[i], c) {
          assert ElemOk(elems[i], i == 0, negated);
        }
      } else {
        assert ElemOk(elems[0], true, negated);
        c := if elems[0].Single? then elems[0].c else elems[0].lo;
        assert RegexSyntax.Covers(elems[0], c);
      }
  }

  lemma {:induction false} OnceUnderOps(r: Re, ops: seq<Op>, w: seq<byte>)
    requires InLang(r, w)
    ensures InLang(ApplyOps(r, ops), w)
    decreases |ops|
  {
    if ops != [] {
      var init := ops[..|ops| - 1];
      OnceUnderOps(r, init, w);
      match ops[|ops| - 1]
      case StarOp => StarSingle(ApplyOps(r, init), w);
      case PlusOp => PlusSingle(ApplyOps(r, init), w);
      case OptOp =>
    }
  }

  lemma {:induction false} SomeWord(items: seq<Item>) returns (w: seq<byte>)
    requires forall i :: 0 <= i < |items| ==> AtomModelled(items[i].atom)
    ensures InCat(ItemRes(items), w)
    decreases |items|
  {
    w := [];
    if items != [] {
      var rest := SomeWord(items[1..]);
      var c := SomeChar(items[0].atom);
      OnceUnderOps(Sym(Chars(items[0].atom)), items[0].ops, [c]);
      w := [c] + rest;
      assert ItemRes(items) == [ItemRe(items[0])] + ItemRes(items[1..]);
      assert w[..1] == [c] && w[1..] == rest;
      CatIn(ItemRe(items[0]), ItemRes(items[1..]), w, 1);
    }
  }

  /** The matcher is right about a pattern of one alternative, on every text, if and only
      if the pattern is safe. It is wrong about each of its words otherwise. */
  lemma OneAlternative(pat: Pattern)
    requires Modelled(pat) && |pat| == 1
    ensures FindsRight(pat) <==> SafePattern(pat)
    ensures AnswersRight(pat) <==> SafePattern(pat)
    ensures !SafePattern(pat) ==>
      forall w: seq<byte>, n: int :: Denotes(pat, w) && Answers(LiveAlts(pat), w, 0, n) ==> n == NO_MATCH
  {
    hide InCat, ItemRes, SafeItems;
    LiveOfSafe(pat);
    FindsExactly(pat);
    AnswersExactly(pat);
    if SafePattern(pat) {
      forall w: seq<byte> | Denotes(pat, w) ensures LivePrefix(pat, w) { assert w[..|w|] == w; }
    } else {
      assert LiveAlts(pat) == [];
      assert ItemsModelled(pat[0]);
      var w := SomeWord(pat[0]);
      assert Denotes(pat, w) && !LivePrefix(pat, w);
    }
  }
}
