/** re_search (gnu_regex/regex.c:2843-2990), forwards, on one string, with and
    without a fastmap. */
module RegexSearch {
  import opened Common
  import opened RegexProgram
  import opened RegexCode
  import opened RegexMachine
  import opened RegexTrials
  import opened RegexInvariant
  import opened RegexLength
  import opened RegexBuffer
  import opened RegexMatch
  import opened RegexFastmap

  ghost predicate MatchesAt(prog: Program, text: seq<byte>, i: nat)
    requires WellFormed(prog)
  {
    exists e: nat :: Ends(Live(prog), text, 0, i, e)
  }

  /** The last position a search may start a match at. */
  function LastStart(text: seq<byte>, startpos: nat, range: nat): nat {
    if startpos + range > |text| then |text| else startpos + range
  }

  /** `r` is the first position from `startpos` on where the pattern matches, or -1 if there is none. */
  ghost predicate FirstMatch(prog: Program, text: seq<byte>, startpos: nat, last: nat, r: int)
    requires WellFormed(prog)
  {
    if r == NO_MATCH then forall i: nat :: startpos <= i <= last ==> !MatchesAt(prog, text, i)
    else
      startpos <= r <= last && MatchesAt(prog, text, r) &&
      forall i: nat :: startpos <= i < r ==> !MatchesAt(prog, text, i)
  }

  /** The fastmap, if it claims to be accurate, is. */
  ghost predicate FastmapOk(bufp: PatternBuffer, prog: Program)
    requires bufp.Valid() && WellFormed(prog)
    reads bufp, bufp.fastmap
  {
    bufp.fastmapAccurate ==>
      (bufp.canBeNull <==> Nullable(prog, 0)) &&
      (!bufp.canBeNull ==> forall c: byte :: bufp.fastmap[c] <==> First(prog, 0, c))
  }

  lemma ExactIsOk(bufp: PatternBuffer, prog: Program)
    requires bufp.Valid() && WellFormed(prog) && (bufp.canBeNull <==> Nullable(prog, 0))
    requires !bufp.canBeNull ==> forall c: byte :: bufp.fastmap[c] <==> First(prog, 0, c)
    ensures FastmapOk(bufp, prog)
  {
    hide First, Nullable, WellFormed;
  }

  /** Any match is at a position the fastmap lets through. */
  lemma FastmapSound(prog: Program, text: seq<byte>, i: nat)
    requires WellFormed(prog) && i <= |text| && MatchesAt(prog, text, i) && !Nullable(prog, 0)
    ensures i < |text| && First(prog, 0, text[i])
  {
    var e: nat :| Ends(Live(prog), text, 0, i, e);
    LiveEnds(prog, text, 0, i, e);
    MatchStartsWithFirst(prog, text, 0, i, e);
  }

  lemma MatchDecides(prog: Program, text: seq<byte>, pos: nat, n: int)
    requires WellFormed(prog) && Correct(prog, text, pos, n) && n != INTERNAL_ERROR
    ensures n >= 0 <==> MatchesAt(prog, text, pos)
  {
    hide Ends;
  }

  /** The fast skip over bytes that cannot start a match (regex.c:2946-2949). */
  method SkipAhead(fastmap: array<bool>, text: seq<byte>, startpos: nat, range: nat, ghost prog: Program)
    returns (startpos': nat, range': nat)
    requires fastmap.Length == 256 && WellFormed(prog) && startpos + range <= |text| && !Nullable(prog, 0)
    requires forall c: byte :: fastmap[c] <==> First(prog, 0, c)
    ensures startpos <= startpos' && startpos' + range' == startpos + range
    ensures forall i: nat :: startpos <= i < startpos' ==> !MatchesAt(prog, text, i)
    ensures range' > 0 ==> First(prog, 0, text[startpos'])
  {
    hide First, Nullable, MatchesAt, WellFormed;
    var irange := range;
    range' := range;
    var d := startpos;
    while range' > 0 && !fastmap[text[d]]
      invariant 0 <= range' <= range && d == startpos + irange - range'
      invariant forall i: nat :: startpos <= i < d ==> !MatchesAt(prog, text, i)
    {
      if MatchesAt(prog, text, d) { FastmapSound(prog, text, d); }
      range', d := range' - 1, d + 1;
    }
    startpos' := startpos + irange - range';
  }

  /** One use of the fastmap: skip ahead while positions are left, else only look
      at the last byte (regex.c:2925-2965). Nothing it passes over matches. */
  method UseFastmap(bufp: PatternBuffer, text: seq<byte>, startpos: nat, range: nat, ghost prog: Program)
    returns (pos: nat, left: nat, skip: bool, ended: bool)
    requires bufp.Valid() && WellFormed(prog) && FastmapOk(bufp, prog) && bufp.fastmapAccurate &&
      startpos + range <= |text|
    ensures startpos <= pos && pos + left == startpos + range
    ensures forall i: nat :: startpos <= i < pos ==> !MatchesAt(prog, text, i)
    ensures skip || ended ==> !MatchesAt(prog, text, pos)
    ensures ended ==> left == 0
  {
    hide First, Nullable, MatchesAt, WellFormed;
    pos, left, skip, ended := startpos, range, false, false;
    if bufp.canBeNull {
      return;
    }
    if pos < |text| {
      if left > 0 {
        pos, left := SkipAhead(bufp.fastmap, text, pos, left, prog);
      } else {
        skip := !bufp.fastmap[text[pos]];
      }
    }
    ended := pos == |text|;
    if MatchesAt(prog, text, pos) { FastmapSound(prog, text, pos); }
  }

  /** re_search. Whether or not a fastmap is used, the result is the first match.
      Only an internal error while a fastmap is built leaves one that wrongly claims
      to be accurate. */
  method ReSearch(bufp: PatternBuffer, useFastmap: bool, text: seq<byte>, startpos: int, range: nat,
                  ghost prog: Program)
    returns (r: int)
    requires bufp.Valid() && WellFormed(prog) && Holds(bufp.Code(), prog) && FastmapOk(bufp, prog)
    modifies bufp`canBeNull, bufp`fastmapAccurate, bufp.fastmap, bufp.buffer
    ensures bufp.Valid() && Holds(bufp.Code(), prog)
    ensures r != INTERNAL_ERROR || |prog| <= MAX_FAILURES ==> FastmapOk(bufp, prog)
    ensures r == INTERNAL_ERROR ==>
      |prog| + |text| - startpos > CAPACITY || (useFastmap && |prog| > MAX_FAILURES)
    ensures !(0 <= startpos <= |text|) ==> r == NO_MATCH
    ensures 0 <= startpos <= |text| ==>
              r == INTERNAL_ERROR || FirstMatch(prog, text, startpos, LastStart(text, startpos, range), r)
  {
    hide First, Nullable, MatchesAt, WellFormed, Holds, Correct, FastmapOk, Returns, InitialState, Answered, LongEnough,
      PopSet, Trials, Overflows;
    if startpos < 0 || startpos > |text| {
      return NO_MATCH;
    }
    var pos: nat, left: nat := startpos, range;
    ghost var last := LastStart(text, startpos, range);
    if startpos + range > |text| {
      left := |text| - startpos;
    }
    if useFastmap && !bufp.fastmapAccurate {
      var f := ReCompileFastmap(bufp, prog);
      if f == INTERNAL_ERROR {
        return INTERNAL_ERROR;
      }
      ExactIsOk(bufp, prog);
    }
    while true
      invariant bufp.Valid() && Holds(bufp.Code(), prog) && FastmapOk(bufp, prog) &&
        (useFastmap ==> bufp.fastmapAccurate)
      invariant startpos <= pos && pos + left == last <= |text|
      invariant forall i: nat :: startpos <= i < pos ==> !MatchesAt(prog, text, i)
      decreases left
    {
      var skip, ended := false, false;
      if useFastmap {
        pos, left, skip, ended := UseFastmap(bufp, text, pos, left, prog);
      }
      if ended {
        return NO_MATCH;
      }
      if !skip {
        var val;
        ghost var rounds;
        val, rounds := ReMatch(bufp, text, pos, prog);
        if val == INTERNAL_ERROR {
          return INTERNAL_ERROR;
        }
        MatchDecides(prog, text, pos, val);
        if val >= 0 {
          return pos;
        }
      }
      if left == 0 {
        break;
      }
      pos, left := pos + 1, left - 1;
    }
    return NO_MATCH;
  }

  /** Two searches, one without and one with a fastmap, agree whenever neither runs out
      of failure stack, though the first may have rewritten the code. */
  method SearchBothWays(bufp: PatternBuffer, text: seq<byte>, startpos: int, range: nat, ghost prog: Program)
    returns (plain: int, mapped: int)
    requires bufp.Valid() && WellFormed(prog) && Holds(bufp.Code(), prog) && FastmapOk(bufp, prog)
    modifies bufp`canBeNull, bufp`fastmapAccurate, bufp.fastmap, bufp.buffer
    ensures plain != INTERNAL_ERROR && mapped != INTERNAL_ERROR ==> plain == mapped
  {
    hide First, Nullable, MatchesAt, WellFormed, Holds, FastmapOk;
    plain := ReSearch(bufp, false, text, startpos, range, prog);
    if plain == INTERNAL_ERROR {
      return plain, plain;
    }
    mapped := ReSearch(bufp, true, text, startpos, range, prog);
  }
}
