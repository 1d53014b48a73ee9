/** Which alternatives of a pattern the matcher can match: those without a loop that
    maybe_pop_jump misreads (gnu_regex/regex.c:4035). */
module RegexLive {
  import opened Common
  import opened RegexLanguage
  import opened RegexProgram
  import opened RegexSyntax
  import opened RegexMeaning

  /** Item `i` repeats a set that holds a byte of 248 or more and the character that
      follows it: the patterns that maybe_pop_jump misreads. */
  predicate Misread(items: seq<Item>, i: nat)
    requires i < |items|
  {
    items[i].atom.Bracket? && !items[i].atom.negated && items[i].ops != [] && Collapse(items[i].ops) != OptOp &&
    (exists c: byte :: c >= 248 && SomeCovers(items[i].atom.elems, c)) &&
    i + 1 < |items| && items[i + 1].atom.Char? && items[i + 1].ops == [] &&
    SomeCovers(items[i].atom.elems, items[i + 1].atom.c)
  }

  predicate SafeItems(items: seq<Item>) { forall i :: 0 <= i < |items| ==> !Misread(items, i) }

  predicate SafePattern(pat: Pattern) { forall k :: 0 <= k < |pat| ==> SafeItems(pat[k]) }

  /** The alternatives of a pattern that are not misread. */
  function LiveAlts(pat: Pattern): Pattern {
    if pat == [] then [] else (if SafeItems(pat[0]) then [pat[0]] else []) + LiveAlts(pat[1..])
  }

  // ----- What live alternatives denote -----

  ghost predicate LiveWord(pat: Pattern, k: nat, w: seq<byte>) {
    k < |pat| && SafeItems(pat[k]) && InCat(ItemRes(pat[k]), w)
  }

  lemma DenotesCons(items: seq<Item>, pat: Pattern, w: seq<byte>)
    ensures Denotes([items] + pat, w) <==> InCat(ItemRes(items), w) || Denotes(pat, w)
  {
    hide InCat, ItemRes;
    var all := [items] + pat;
    if Denotes(pat, w) {
      var k :| 0 <= k < |pat| && InCat(ItemRes(pat[k]), w);
      assert all[k + 1] == pat[k];
    }
    if InCat(ItemRes(items), w) { assert all[0] == items; }
    if Denotes(all, w) && !InCat(ItemRes(items), w) {
      var k :| 0 <= k < |all| && InCat(ItemRes(all[k]), w);
      assert all[k] == pat[k - 1];
    }
  }

  lemma {:induction false} LiveDenotes(pat: Pattern, w: seq<byte>)
    ensures Denotes(LiveAlts(pat), w) <==> exists k: nat :: LiveWord(pat, k, w)
    decreases |pat|
  {
    hide InCat, ItemRes, SafeItems;
    if pat == [] {
    } else {
      var rest := pat[1..];
      LiveDenotes(rest, w);
      if SafeItems(pat[0]) {
        DenotesCons(pat[0], LiveAlts(rest), w);
      } else {
        assert [] + LiveAlts(rest) == LiveAlts(rest);
      }
      forall k: nat ensures LiveWord(rest, k, w) <==> LiveWord(pat, k + 1, w) {}
      if exists k: nat :: LiveWord(pat, k, w) {
        var k: nat :| LiveWord(pat, k, w);
        assert k > 0 ==> LiveWord(rest, k - 1, w);
      }
      if LiveWord(pat, 0, w) { assert SafeItems(pat[0]) && InCat(ItemRes(pat[0]), w); }
      if SafeItems(pat[0]) && InCat(ItemRes(pat[0]), w) { assert LiveWord(pat, 0, w); }
      if exists k: nat :: LiveWord(rest, k, w) {
        var k: nat :| LiveWord(rest, k, w);
        assert LiveWord(pat, k + 1, w);
      }
    }
  }

  /** Nothing is dropped exactly from the safe patterns. */
  lemma {:induction false} LiveOfSafe(pat: Pattern)
    ensures |LiveAlts(pat)| <= |pat| && (LiveAlts(pat) == pat <==> SafePattern(pat))
    decreases |pat|
  {
    hide SafeItems;
    if pat != [] {
      var rest := pat[1..];
      LiveOfSafe(rest);
      assert SafePattern(pat) <==> SafeItems(pat[0]) && SafePattern(rest) by {
        if SafeItems(pat[0]) && SafePattern(rest) {
          forall k | 0 <= k < |pat| ensures SafeItems(pat[k]) { if k > 0 { assert pat[k] == rest[k - 1]; } }
        }
        if SafePattern(pat) {
          forall k | 0 <= k < |rest| ensures SafeItems(rest[k]) { assert rest[k] == pat[k + 1]; }
        }
      }
      assert pat == [pat[0]] + rest;
      if SafeItems(pat[0]) && LiveAlts(pat) == pat {
        assert LiveAlts(pat)[1..] == LiveAlts(rest);
      }
    }
  }

  // ----- A bitmap is full exactly when some byte of its last eight is in the set -----

  lemma FullMapReaches(elems: seq<Elem>)
    ensures |Trim(FullBits(elems))| == 32 <==> exists c: byte :: c >= 248 && SomeCovers(elems, c)
  {
    var bits := FullBits(elems);
    hide FullBits;
    if |Trim(bits)| == 32 {
      TrimKeepsLast(bits);
      var j := SomeBit(bits[31], 8);
      var c: byte := 248 + j;
      assert InMap(bits, c);
    }
    if exists c: byte :: c >= 248 && SomeCovers(elems, c) {
      var c: byte :| c >= 248 && SomeCovers(elems, c);
      assert InMap(Trim(bits), c);
    }
  }

  lemma TrimKeepsLast(bits: seq<byte>)
    requires |bits| == 32 && |Trim(bits)| == 32
    ensures bits[31] != 0
  {
    assert Trim(bits) == if bits[31] == 0 then Trim(bits[..31]) else bits;
  }

  lemma {:induction false} SomeBit(b: nat, width: nat) returns (j: nat)
    requires 0 < b < TwoTo(width)
    ensures j < width && Bit(b, j)
  {
    if b % 2 == 1 {
      j := 0;
    } else {
      j := SomeBit(b / 2, width - 1);
      j := j + 1;
    }
  }

  // ----- Misread items are fooled pieces -----

  predicate FromItem(item: Item, p: Piece) { item.ops != [] && p == Rep(Collapse(item.ops), AtomOf(item.atom)) }

  predicate PlainChar(item: Item) { item.ops == [] && item.atom.Char? }

  /** Items `i` and `i + 1` are a repetition and a character that became pieces `p` and
      `p + 1`. */
  predicate Adjacent(items: seq<Item>, ps: seq<Piece>, i: nat, p: nat) {
    i + 1 < |items| && p + 1 < |ps| && FromItem(items[i], ps[p]) && PlainChar(items[i + 1]) &&
    ps[p + 1].Run? && ps[p + 1].bytes != [] && ps[p + 1].bytes[0] == items[i + 1].atom.c
  }

  predicate RepBeforeRun(ps: seq<Piece>, p: nat) {
    p + 1 < |ps| && ps[p].Rep? && ps[p + 1].Run? && ps[p + 1].bytes != []
  }

  predicate RepBeforeChar(items: seq<Item>, i: nat) {
    i + 1 < |items| && items[i].ops != [] && PlainChar(items[i + 1])
  }

  ghost predicate HasItem(items: seq<Item>, ps: seq<Piece>, p: nat) { exists i: nat :: Adjacent(items, ps, i, p) }

  ghost predicate HasPiece(items: seq<Item>, ps: seq<Piece>, i: nat) { exists p: nat :: Adjacent(items, ps, i, p) }

  /** Repetitions right before a run come from repetitions right before a character,
      and the other way round. */
  ghost predicate Neighbours(items: seq<Item>, ps: seq<Piece>) {
    (ps != [] <==> items != []) &&
    (forall p: nat :: RepBeforeRun(ps, p) ==> HasItem(items, ps, p)) &&
    (forall i: nat :: RepBeforeChar(items, i) ==> HasPiece(items, ps, i)) &&
    (ps != [] && ps[|ps| - 1].Rep? <==> items != [] && items[|items| - 1].ops != []) &&
    (ps != [] && ps[|ps| - 1].Rep? ==> FromItem(items[|items| - 1], ps[|ps| - 1]))
  }

  lemma {:induction false} PiecesNeighbours(items: seq<Item>)
    ensures Neighbours(items, Pieces(items))
    decreases |items|
  {
    if items != [] {
      var init, item := items[..|items| - 1], items[|items| - 1];
      PiecesNeighbours(init);
      PiecesPlain(init);
      assert init + [item] == items;
      AddNeighbour(init, Pieces(init), item);
    }
  }

  lemma AdjacentStays(init: seq<Item>, ps: seq<Piece>, item: Item, i: nat, p: nat)
    requires Adjacent(init, ps, i, p)
    ensures Adjacent(init + [item], AddItem(ps, item), i, p)
  {
    hide Collapse, AtomOf;
  }

  lemma AddNeighbour(init: seq<Item>, ps: seq<Piece>, item: Item)
    requires Neighbours(init, ps) && PlainPieces(ps)
    ensures Neighbours(init + [item], AddItem(ps, item))
  {
    var items, ps' := init + [item], AddItem(ps, item);
    hide Collapse, AtomOf;
    forall p: nat | RepBeforeRun(ps', p)
      ensures HasItem(items, ps', p)
    {
      if p + 1 < |ps| {
        assert PlainPiece(ps[p + 1]) && RepBeforeRun(ps, p);
        var i: nat :| Adjacent(init, ps, i, p);
        AdjacentStays(init, ps, item, i, p);
      } else {
        assert p == |ps| - 1 && ps'[p] == ps[p];
        assert items[|init|] == item && items[|init| - 1] == init[|init| - 1];
        assert Adjacent(items, ps', |init| - 1, p);
      }
    }
    forall i: nat | RepBeforeChar(items, i)
      ensures HasPiece(items, ps', i)
    {
      if i + 1 < |init| {
        assert RepBeforeChar(init, i);
        var p: nat :| Adjacent(init, ps, i, p);
        AdjacentStays(init, ps, item, i, p);
      } else {
        assert items[|init|] == item && items[|init| - 1] == init[|init| - 1];
        assert Adjacent(items, ps', i, |ps| - 1);
      }
    }
    assert items[|items| - 1] == item;
  }

  lemma AdjacentMisread(items: seq<Item>, ps: seq<Piece>, i: nat, p: nat)
    requires Adjacent(items, ps, i, p)
    ensures Fooled(ps, p) <==> Misread(items, i)
  {
    hide Collapse, FullBits, Trim, MatchAtom;
    var a, c := items[i].atom, items[i + 1].atom.c;
    if a.Bracket? {
      FullMapReaches(a.elems);
      AtomOfMatches(a, c);
    }
  }

  lemma MisreadFools(items: seq<Item>, i: nat) returns (p: nat)
    requires i < |items| && Misread(items, i)
    ensures p < |Pieces(items)| && Fooled(Pieces(items), p)
  {
    hide Pieces, Collapse;
    PiecesNeighbours(items);
    assert RepBeforeChar(items, i);
    assert HasPiece(items, Pieces(items), i);
    p :| Adjacent(items, Pieces(items), i, p);
    AdjacentMisread(items, Pieces(items), i, p);
  }

  lemma FooledMisread(items: seq<Item>, p: nat) returns (i: nat)
    requires p < |Pieces(items)| && Fooled(Pieces(items), p)
    ensures i < |items| && Misread(items, i)
  {
    hide Pieces, Collapse;
    PiecesNeighbours(items);
    assert RepBeforeRun(Pieces(items), p);
    assert HasItem(items, Pieces(items), p);
    i :| Adjacent(items, Pieces(items), i, p);
    AdjacentMisread(items, Pieces(items), i, p);
  }

  // ----- The live program is the program of the live alternatives -----

  function LiveEach(alts: seq<seq<Piece>>): (r: seq<seq<Piece>>)
    ensures |r| == |alts| && forall k :: 0 <= k < |alts| ==> r[k] == Live(alts[k])
  {
    seq(|alts|, k requires 0 <= k < |alts| => Live(alts[k]))
  }

  lemma LiveConcat(a: Program, b: Program)
    requires a == [] || b == [] || !a[|a| - 1].Rep? || !b[0].Run?
    ensures Live(a + b) == Live(a) + Live(b)
  {
    hide FullMap, MatchAtom;
    forall i | 0 <= i < |a + b| ensures Live(a + b)[i] == (Live(a) + Live(b))[i] {
      if i < |a| {
        assert Fooled(a + b, i) == Fooled(a, i);
      } else {
        assert Fooled(a + b, i) == Fooled(b, i - |a|);
      }
    }
  }

  lemma LiveInit(alts: seq<seq<Piece>>)
    requires alts != []
    ensures LiveEach(alts)[..|alts| - 1] == LiveEach(alts[..|alts| - 1])
  {
  }

  lemma {:induction false} LiveSize(alts: seq<seq<Piece>>)
    ensures ClosedSize(LiveEach(alts)) == ClosedSize(alts)
    decreases |alts|
  {
    if alts != [] {
      LiveInit(alts);
      LiveSize(alts[..|alts| - 1]);
    }
  }

  lemma LiveAlt(front: Program, fork: Piece, last: Program, past: Piece)
    requires fork.Fork? && past.Past?
    ensures Live(front + [fork] + last + [past]) == Live(front) + [fork] + Live(last) + [past]
  {
    hide Live;
    LiveConcat(front, [fork]);
    LiveConcat(front + [fork], last);
    LiveConcat(front + [fork] + last, [past]);
    assert Live([fork]) == [fork] && Live([past]) == [past] by { LiveJump(fork); LiveJump(past); }
  }

  lemma LiveJump(p: Piece)
    requires p.Fork? || p.Past?
    ensures Live([p]) == [p]
  {
  }

  lemma ClosedStep(alts: seq<seq<Piece>>, leave: nat)
    requires alts != []
    ensures var init, last := alts[..|alts| - 1], alts[|alts| - 1];
      var base := ClosedSize(init);
      ClosedProgram(alts, leave) ==
        ClosedProgram(init, base + 1 + |last|) + [Fork(base + |last| + 2)] + last + [Past(leave)]
  {
  }

  lemma {:induction false} LiveClosed(alts: seq<seq<Piece>>, leave: nat)
    ensures Live(ClosedProgram(alts, leave)) == ClosedProgram(LiveEach(alts), leave)
    decreases |alts|
  {
    hide Live, ClosedProgram, ClosedSize;
    if alts == [] {
      ClosedEnd(alts, leave);
      ClosedEnd(LiveEach(alts), leave);
      NoneLive();
    } else {
      var init, last := alts[..|alts| - 1], alts[|alts| - 1];
      var base := ClosedSize(init);
      ClosedStep(alts, leave);
      ClosedStep(LiveEach(alts), leave);
      LiveInit(alts);
      LiveSize(init);
      LiveClosed(init, base + 1 + |last|);
      LiveAlt(ClosedProgram(init, base + 1 + |last|), Fork(base + |last| + 2), last, Past(leave));
    }
  }

  lemma NoneLive()
    ensures Live([]) == []
  {
  }

  lemma ClosedEnd(alts: seq<seq<Piece>>, leave: nat)
    ensures alts == [] ==> ClosedProgram(alts, leave) == []
    ensures alts != [] ==>
      ClosedProgram(alts, leave) != [] && ClosedProgram(alts, leave)[|ClosedProgram(alts, leave)| - 1].Past?
  {
  }

  lemma LiveProgram(alts: seq<seq<Piece>>)
    requires alts != []
    ensures Live(ProgramOf(alts)) == ProgramOf(LiveEach(alts))
  {
    hide Live, ClosedProgram, ClosedSize;
    var init, last := alts[..|alts| - 1], alts[|alts| - 1];
    var leave := ClosedSize(init) + |last|;
    LiveInit(alts);
    LiveSize(init);
    LiveClosed(init, leave);
    ClosedEnd(init, leave);
    LiveConcat(ClosedProgram(init, leave), last);
  }

  // ----- What a live alternative matches -----

  lemma {:induction false} NeverCat(rs: seq<Re>, j: nat, w: seq<byte>)
    requires j < |rs| && rs[j] == Sym({})
    ensures !InCat(rs, w)
    decreases j
  {
    if InCat(rs, w) {
      var k: nat :| k <= |w| && InLang(rs[0], w[..k]) && InCat(rs[1..], w[k..]);
      if j == 0 { assert false; }
      NeverCat(rs[1..], j - 1, w[k..]);
    }
  }

  lemma {:induction false} FlatHas(ps: seq<Piece>, p: nat) returns (j: nat)
    requires p < |ps| && ps[p] == NEVER
    ensures j < |Flat(ps)| && Flat(ps)[j] == Sym({})
    decreases p
  {
    if p == 0 {
      assert AtomChars(Set(false, [])) == {};
      j := 0;
    } else {
      j := FlatHas(ps[1..], p - 1);
      j := j + |PieceRes(ps[0])|;
    }
  }

  lemma SafeLive(items: seq<Item>)
    requires SafeItems(items)
    ensures Live(Pieces(items)) == Pieces(items)
  {
    hide Pieces, Fooled, Misread;
    var ps := Pieces(items);
    forall p | 0 <= p < |ps| ensures !Fooled(ps, p) {
      if Fooled(ps, p) {
        var i := FooledMisread(items, p);
        assert false;
      }
    }
  }

  lemma UnsafeFools(items: seq<Item>) returns (p: nat)
    requires !SafeItems(items)
    ensures p < |Pieces(items)| && Live(Pieces(items))[p] == NEVER
  {
    hide Pieces, Fooled, Misread;
    var i :| 0 <= i < |items| && Misread(items, i);
    p := MisreadFools(items, i);
  }

  /** A live alternative keeps its words; another has none left. */
  lemma LiveFlat(items: seq<Item>, w: seq<byte>)
    ensures InCat(Flat(Live(Pieces(items))), w) <==> SafeItems(items) && InCat(ItemRes(items), w)
  {
    hide InCat, Pieces, SafeItems, ItemRes, Flat;
    var ps := Pieces(items);
    if SafeItems(items) {
      SafeLive(items);
      FlatPieces(items);
      CollapsedSameLanguage(items, w);
    } else {
      var p := UnsafeFools(items);
      var j := FlatHas(Live(ps), p);
      NeverCat(Flat(Live(ps)), j, w);
    }
  }

  lemma LivePlain(alts: seq<seq<Piece>>)
    requires PlainAlts(alts)
    ensures PlainAlts(LiveEach(alts))
  {
    var live := LiveEach(alts);
    forall k | 0 <= k < |live| ensures live[k] != [] && PlainPieces(live[k]) {
      assert PlainPieces(alts[k]);
      forall p | 0 <= p < |live[k]| ensures PlainPiece(live[k][p]) { assert PlainPiece(alts[k][p]); }
    }
  }

  /** What the matcher makes of a compiled pattern: it goes from one position to another
      exactly when the bytes between them are a word of a live alternative. */
  lemma LiveMeaning(pat: Pattern, text: seq<byte>, d: nat, e: nat)
    requires Modelled(pat) && d <= |text|
    ensures WellFormed(CompiledProgram(pat))
    ensures Ends(Live(CompiledProgram(pat)), text, 0, d, e) <==> d <= e <= |text| && Denotes(LiveAlts(pat), text[d..e])
  {
    hide InCat, Flat, Pieces, Ends, Live, SafeItems, ItemRes, ProgramOf;
    var alts := AltPieces(pat);
    var live := LiveEach(alts);
    CompiledWellFormed(pat);
    LivePlain(alts);
    LiveProgram(alts);
    assert live[..0] == [];
    ProgramWellFormed(live);
    StartMatches(live, text, 0, d, e);
    if d <= e <= |text| {
      var w := text[d..e];
      LiveDenotes(pat, w);
      SomeLive(pat, w);
    }
  }

  lemma SomeLive(pat: Pattern, w: seq<byte>)
    ensures SomeFrom(LiveEach(AltPieces(pat)), 0, w) <==> exists k: nat :: LiveWord(pat, k, w)
  {
    hide InCat, Flat, Pieces, Live, SafeItems, ItemRes;
    var live := LiveEach(AltPieces(pat));
    forall k: nat | k < |pat| ensures InCat(Flat(live[k]), w) <==> LiveWord(pat, k, w) { LiveFlat(pat[k], w); }
  }
}
