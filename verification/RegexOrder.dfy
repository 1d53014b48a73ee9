/** The order in which a pattern's matches are tried, read off the pattern itself, and
    that the compiled program is tried in that order. */
module RegexOrder {
  import opened Common
  import opened RegexLanguage
  import opened RegexProgram
  import opened RegexTrials
  import opened RegexSyntax
  import opened RegexMeaning
  import opened RegexLive

  // ----- The order of trial of a pattern -----

  predicate Takes(a: SrcAtom, text: seq<byte>, d: nat) { d < |text| && text[d] in Chars(a) }

  /** The set holds a byte of 248 or more, so that its bitmap fills 32 bytes. */
  ghost predicate ReachesTop(elems: seq<Elem>) { exists c: byte :: c >= 248 && SomeCovers(elems, c) }

  /** The first of `items`, a loop, drops its failure points: it ends the pattern, or is
      taken not to accept the character that follows it (regex.c:3981-4048). A set that
      reaches the top is misread as empty. */
  ghost predicate Forgets(items: seq<Item>, final: bool)
    requires items != []
  {
    if |items| == 1 then final
    else
      PlainChar(items[1]) &&
      match items[0].atom
      case Char(c, _) => c != items[1].atom.c
      case Dot => false
      case Bracket(negated, elems) =>
        if ReachesTop(elems) then !negated else SomeCovers(elems, items[1].atom.c) == negated
  }

  /** What is tried for an alternative at `d` with `n` failure points pending, in order: each
      item as often as it may first, then one time less and so on. A choice needs a failure
      point. `final` is whether it is the last alternative. */
  ghost function ItemTrials(items: seq<Item>, final: bool, text: seq<byte>, d: nat, n: nat): (r: seq<Trial>)
    ensures r != []
    decreases |items|, 0, 0
  {
    if items == [] then [Hit(d)]
    else
      var once := Takes(items[0].atom, text, d);
      if items[0].ops == [] then if once then ItemTrials(items[1..], final, text, d + 1, n) else [Miss]
      else
        match Collapse(items[0].ops)
        case StarOp => ManyTrials(items, final, text, d, n)
        case PlusOp =>
          if n >= CAPACITY then [Deep]
          else if !once then [Miss, Miss]
          else if Forgets(items, final) then ManyTrials(items, final, text, d + 1, n)
          else ManyTrials(items, final, text, d + 1, n + 1) + [Miss]
        case OptOp =>
          if n >= CAPACITY then [Deep]
          else
            (if once then ItemTrials(items[1..], final, text, d + 1, n + 1) else [Miss]) +
            ItemTrials(items[1..], final, text, d, n)
  }

  ghost function ManyTrials(items: seq<Item>, final: bool, text: seq<byte>, d: nat, n: nat): (r: seq<Trial>)
    requires items != []
    ensures r != []
    decreases |items| - 1, 1, |text| - d
  {
    if n >= CAPACITY then [Deep]
    else if !Takes(items[0].atom, text, d) then [Miss] + ItemTrials(items[1..], final, text, d, n)
    else if Forgets(items, final) then ManyTrials(items, final, text, d + 1, n)
    else ManyTrials(items, final, text, d + 1, n + 1) + ItemTrials(items[1..], final, text, d, n)
  }

  /** What is tried for the alternatives from `k` on: an earlier one before a later one, which
      waits as a failure point. */
  ghost function PatternTrials(pat: Pattern, k: nat, text: seq<byte>, d: nat): (r: seq<Trial>)
    requires k < |pat|
    ensures r != []
    decreases |pat| - k
  {
    if k + 1 == |pat| then ItemTrials(pat[k], true, text, d, 0)
    else ItemTrials(pat[k], false, text, d, 1) + PatternTrials(pat, k + 1, text, d)
  }

  // ----- Units: the pieces of an alternative taken character by character -----

  datatype Unit = Plain(atom: Atom) | Repeated(op: Op, atom: Atom)

  function PieceUnits(p: Piece): seq<Unit> {
    match p
    case Run(bytes) => seq(|bytes|, i requires 0 <= i < |bytes| => Plain(Byte(bytes[i])))
    case One(a) => [Plain(a)]
    case Rep(op, a) => [Repeated(op, a)]
    case Fork(_) => []
    case Past(_) => []
  }

  function Units(ps: seq<Piece>): seq<Unit> { if ps == [] then [] else PieceUnits(ps[0]) + Units(ps[1..]) }

  predicate UnitPops(us: seq<Unit>, final: bool)
    requires us != []
  {
    if |us| == 1 then final
    else
      us[1].Plain? && us[1].atom.Byte? &&
      match us[0].atom
      case Byte(b) => b != us[1].atom.c
      case Any => false
      case Set(negated, bits) => if |bits| == 32 then !negated else !MatchAtom(us[0].atom, us[1].atom.c)
  }

  ghost function UnitTrials(us: seq<Unit>, final: bool, text: seq<byte>, d: nat, n: nat): (r: seq<Trial>)
    decreases |us|, 0, 0
  {
    if us == [] then [Hit(d)]
    else
      var once := Accepts(us[0].atom, text, d);
      match us[0]
      case Plain(a) => if once then UnitTrials(us[1..], final, text, d + 1, n) else [Miss]
      case Repeated(op, a) =>
        (match op
         case StarOp => ManyUnits(us, final, text, d, n)
         case PlusOp =>
           if n >= CAPACITY then [Deep]
           else if !once then [Miss, Miss]
           else if UnitPops(us, final) then ManyUnits(us, final, text, d + 1, n)
           else ManyUnits(us, final, text, d + 1, n + 1) + [Miss]
         case OptOp =>
           if n >= CAPACITY then [Deep]
           else
             (if once then UnitTrials(us[1..], final, text, d + 1, n + 1) else [Miss]) +
             UnitTrials(us[1..], final, text, d, n))
  }

  ghost function ManyUnits(us: seq<Unit>, final: bool, text: seq<byte>, d: nat, n: nat): (r: seq<Trial>)
    requires us != []
    decreases |us| - 1, 1, |text| - d
  {
    if n >= CAPACITY then [Deep]
    else if !Accepts(us[0].atom, text, d) then [Miss] + UnitTrials(us[1..], final, text, d, n)
    else if UnitPops(us, final) then ManyUnits(us, final, text, d + 1, n)
    else ManyUnits(us, final, text, d + 1, n + 1) + UnitTrials(us[1..], final, text, d, n)
  }

  // ----- The units of an alternative are its items -----

  function ItemUnit(item: Item): Unit {
    if item.ops == [] then Plain(AtomOf(item.atom)) else Repeated(Collapse(item.ops), AtomOf(item.atom))
  }

  function ItemUnits(items: seq<Item>): seq<Unit> {
    seq(|items|, i requires 0 <= i < |items| => ItemUnit(items[i]))
  }

  lemma {:induction false} UnitsSnoc(ps: seq<Piece>, p: Piece)
    ensures Units(ps + [p]) == Units(ps) + PieceUnits(p)
    decreases |ps|
  {
    if ps == [] {
      assert [p][1..] == [] && ps + [p] == [p];
    } else {
      var head, rest := PieceUnits(ps[0]), ps[1..];
      UnitsSnoc(rest, p);
      assert (ps + [p])[1..] == rest + [p] && (ps + [p])[0] == ps[0];
      assert Units(ps + [p]) == head + (Units(rest) + PieceUnits(p)) == head + Units(rest) + PieceUnits(p);
    }
  }

  lemma AddItemUnits(ps: seq<Piece>, item: Item)
    ensures Units(AddItem(ps, item)) == Units(ps) + [ItemUnit(item)]
  {
    hide Collapse;
    if item.ops != [] {
      UnitsSnoc(ps, Rep(Collapse(item.ops), AtomOf(item.atom)));
    } else if !item.atom.Char? {
      UnitsSnoc(ps, One(AtomOf(item.atom)));
    } else {
      var c := item.atom.c;
      if OpenRun(ps) {
        var init, last := ps[..|ps| - 1], ps[|ps| - 1];
        assert ps == init + [last];
        UnitsSnoc(init, last);
        UnitsSnoc(init, Run(last.bytes + [c]));
        assert PieceUnits(Run(last.bytes + [c])) == PieceUnits(last) + [Plain(Byte(c))];
      } else {
        UnitsSnoc(ps, Run([c]));
        assert PieceUnits(Run([c])) == [Plain(Byte(c))];
      }
    }
  }

  lemma {:induction false} PiecesUnits(items: seq<Item>)
    ensures Units(Pieces(items)) == ItemUnits(items)
    decreases |items|
  {
    if items != [] {
      var init, item := items[..|items| - 1], items[|items| - 1];
      PiecesUnits(init);
      AddItemUnits(Pieces(init), item);
      assert ItemUnits(items) == ItemUnits(init) + [ItemUnit(item)];
    }
  }

  lemma UnitForgets(items: seq<Item>, final: bool)
    requires items != [] && items[0].ops != []
    ensures UnitPops(ItemUnits(items), final) <==> Forgets(items, final)
  {
    hide Collapse, FullBits, Trim;
    if |items| > 1 && PlainChar(items[1]) {
      AtomOfMatches(items[0].atom, items[1].atom.c);
      if items[0].atom.Bracket? { FullMapReaches(items[0].atom.elems); }
    }
  }

  lemma TakesAccepts(a: SrcAtom, text: seq<byte>, d: nat)
    ensures Accepts(AtomOf(a), text, d) <==> Takes(a, text, d)
  {
    if d < |text| { AtomOfMatches(a, text[d]); }
  }

  /** Trying the units of an alternative is trying its items. */
  lemma {:induction false} UnitsAreItems(items: seq<Item>, final: bool, text: seq<byte>, d: nat, n: nat)
    ensures UnitTrials(ItemUnits(items), final, text, d, n) == ItemTrials(items, final, text, d, n)
    decreases |items|, 0, 0
  {
    hide Collapse, AtomOf, Chars, UnitPops, Forgets, ManyTrials, ManyUnits, Takes, Accepts;
    if items != [] {
      var us, rest := ItemUnits(items), items[1..];
      assert us[1..] == ItemUnits(rest);
      TakesAccepts(items[0].atom, text, d);
      if items[0].ops == [] {
        UnitsAreItems(rest, final, text, d + 1, n);
      } else {
        match Collapse(items[0].ops)
        case StarOp => ManyAreMany(items, final, text, d, n);
        case PlusOp =>
          UnitForgets(items, final);
          ManyAreMany(items, final, text, d + 1, n);
          ManyAreMany(items, final, text, d + 1, n + 1);
        case OptOp =>
          UnitsAreItems(rest, final, text, d, n);
          UnitsAreItems(rest, final, text, d + 1, n + 1);
      }
    }
  }

  lemma {:induction false} ManyAreMany(items: seq<Item>, final: bool, text: seq<byte>, d: nat, n: nat)
    requires items != [] && items[0].ops != []
    ensures ManyUnits(ItemUnits(items), final, text, d, n) == ManyTrials(items, final, text, d, n)
    decreases |items| - 1, 1, |text| - d
  {
    hide Collapse, AtomOf, Chars, UnitPops, Forgets;
    assert ItemUnits(items)[1..] == ItemUnits(items[1..]);
    TakesAccepts(items[0].atom, text, d);
    UnitsAreItems(items[1..], final, text, d, n);
    UnitForgets(items, final);
    if Takes(items[0].atom, text, d) {
      ManyAreMany(items, final, text, d + 1, n);
      ManyAreMany(items, final, text, d + 1, n + 1);
    }
  }

  // ----- A straight stretch of a program is tried as its units -----

  /** What is tried from piece `j` is one match, right there. */
  ghost predicate HitsAt(prog: Program, text: seq<byte>, j: nat)
    requires WellFormed(prog) && j <= |prog|
  {
    forall d: nat, n: nat :: Trials(prog, Deciding(prog), text, j, d, n) == [Hit(d)]
  }

  lemma UnitsCons(prog: Program, i: nat, j: nat)
    requires i < j <= |prog|
    ensures Units(prog[i..j]) == PieceUnits(prog[i]) + Units(prog[i + 1..j])
  {
    assert prog[i..j][1..] == prog[i + 1..j];
  }

  /** A loop in a stretch is decided as its units are. */
  lemma PopsAsUnits(prog: Program, i: nat, j: nat)
    requires WellFormed(prog) && i < j <= |prog| && Straight(prog[i..j]) && Loops(prog, i)
    requires j == |prog| || prog[j].Past?
    ensures i in Deciding(prog) <==> UnitPops(Units(prog[i..j]), j == |prog|)
  {
    UnitsCons(prog, i, j);
    if i + 1 < j {
      UnitsCons(prog, i + 1, j);
      assert PieceOk(prog, i + 1) && prog[i + 1] == prog[i..j][1];
      NextUnit(prog[i + 1], Units(prog[i + 2..j]));
    } else {
      assert prog[i + 1..j] == [];
    }
  }

  lemma NextUnit(p: Piece, rest: seq<Unit>)
    requires Straight([p]) && (p.Run? ==> p.bytes != []) && (p.One? ==> !p.atom.Byte?)
    ensures var us := PieceUnits(p) + rest;
      us != [] && (p.Run? <==> us[0].Plain? && us[0].atom.Byte?) && (p.Run? ==> us[0] == Plain(Byte(p.bytes[0])))
  {
    assert [p][0] == p;
  }

  lemma PlainStep(c: byte, us: seq<Unit>, final: bool, text: seq<byte>, d: nat, n: nat)
    ensures UnitTrials([Plain(Byte(c))] + us, final, text, d, n) ==
            if d < |text| && text[d] == c then UnitTrials(us, final, text, d + 1, n) else [Miss]
  {
    assert ([Plain(Byte(c))] + us)[1..] == us;
  }

  lemma RunUnits(bytes: seq<byte>, rest: seq<Unit>)
    requires bytes != []
    ensures PieceUnits(Run(bytes)) + rest == [Plain(Byte(bytes[0]))] + (PieceUnits(Run(bytes[1..])) + rest)
  {
  }

  lemma {:induction false} RunTrials(bytes: seq<byte>, rest: seq<Unit>, final: bool, text: seq<byte>, d: nat, n: nat)
    requires d <= |text|
    ensures UnitTrials(PieceUnits(Run(bytes)) + rest, final, text, d, n) ==
            if d + |bytes| <= |text| && text[d..d + |bytes|] == bytes
            then UnitTrials(rest, final, text, d + |bytes|, n) else [Miss]
    decreases |bytes|
  {
    hide UnitTrials;
    if bytes == [] {
      assert PieceUnits(Run(bytes)) + rest == rest;
    } else {
      RunUnits(bytes, rest);
      PlainStep(bytes[0], PieceUnits(Run(bytes[1..])) + rest, final, text, d, n);
      if d < |text| {
        RunTrials(bytes[1..], rest, final, text, d + 1, n);
        SliceHead(bytes, text, d, |text|);
      }
    }
  }

  /** A stretch is tried from piece `i` at every position as its units are. */
  ghost predicate TriedAs(prog: Program, text: seq<byte>, i: nat, us: seq<Unit>, final: bool)
    requires WellFormed(prog) && i <= |prog|
  {
    forall d: nat, n: nat | d <= |text| ::
      Trials(prog, Deciding(prog), text, i, d, n) == UnitTrials(us, final, text, d, n)
  }

  lemma {:induction false} LoopTriedAs(prog: Program, text: seq<byte>, i: nat, us: seq<Unit>, final: bool, d: nat,
                                       n: nat)
    requires WellFormed(prog) && i < |prog| && Loops(prog, i) && d <= |text|
    requires us != [] && us[0].atom == prog[i].atom && TriedAs(prog, text, i + 1, us[1..], final)
    requires i in Deciding(prog) <==> UnitPops(us, final)
    ensures LoopTrials(prog, Deciding(prog), text, i, prog[i].atom, d, n) == ManyUnits(us, final, text, d, n)
    decreases |text| - d
  {
    hide UnitPops, Deciding, Trials, UnitTrials;
    if Accepts(prog[i].atom, text, d) {
      LoopTriedAs(prog, text, i, us, final, d + 1, n);
      LoopTriedAs(prog, text, i, us, final, d + 1, n + 1);
    }
  }

  lemma RepTriedAs(prog: Program, text: seq<byte>, i: nat, us: seq<Unit>, final: bool, d: nat, n: nat)
    requires WellFormed(prog) && i < |prog| && prog[i].Rep? && d <= |text|
    requires us != [] && us[0] == Repeated(prog[i].op, prog[i].atom) && TriedAs(prog, text, i + 1, us[1..], final)
    requires Loops(prog, i) ==> (i in Deciding(prog) <==> UnitPops(us, final))
    ensures Trials(prog, Deciding(prog), text, i, d, n) == UnitTrials(us, final, text, d, n)
  {
    hide UnitPops, Deciding, LoopTrials, ManyUnits;
    assert PieceOk(prog, i);
    if Loops(prog, i) {
      LoopTriedAs(prog, text, i, us, final, d, n);
      if Accepts(prog[i].atom, text, d) {
        LoopTriedAs(prog, text, i, us, final, d + 1, n);
        LoopTriedAs(prog, text, i, us, final, d + 1, n + 1);
      }
    }
  }

  lemma PieceTriedAs(prog: Program, text: seq<byte>, i: nat, rest: seq<Unit>, final: bool, d: nat, n: nat)
    requires WellFormed(prog) && i < |prog| && Straight([prog[i]]) && d <= |text|
    requires TriedAs(prog, text, i + 1, rest, final)
    requires Loops(prog, i) ==> (i in Deciding(prog) <==> UnitPops(PieceUnits(prog[i]) + rest, final))
    ensures Trials(prog, Deciding(prog), text, i, d, n) == UnitTrials(PieceUnits(prog[i]) + rest, final, text, d, n)
  {
    hide UnitPops, Deciding, LoopTrials, ManyUnits, UnitTrials;
    assert [prog[i]][0] == prog[i] && PieceOk(prog, i);
    var us := PieceUnits(prog[i]) + rest;
    match prog[i]
    case Run(bytes) => RunTrials(bytes, rest, final, text, d, n);
    case One(a) => OneStep(a, rest, final, text, d, n);
    case Rep(op, a) =>
      assert us[1..] == rest;
      RepTriedAs(prog, text, i, us, final, d, n);
  }

  lemma OneStep(a: Atom, us: seq<Unit>, final: bool, text: seq<byte>, d: nat, n: nat)
    ensures UnitTrials([Plain(a)] + us, final, text, d, n) ==
            if Accepts(a, text, d) then UnitTrials(us, final, text, d + 1, n) else [Miss]
  {
    assert ([Plain(a)] + us)[1..] == us;
  }

  lemma StraightTail(prog: Program, i: nat, j: nat)
    requires i < j <= |prog| && Straight(prog[i..j])
    ensures Straight(prog[i + 1..j]) && Straight([prog[i]])
  {
    assert prog[i..j][0] == prog[i];
    var tail := prog[i + 1..j];
    forall x | 0 <= x < |tail| ensures tail[x].Run? || tail[x].One? || tail[x].Rep? {
      assert tail[x] == prog[i..j][x + 1];
    }
  }

  /** A straight stretch from piece `i` up to the end of its alternative. */
  lemma {:induction false} StretchTriedAs(prog: Program, text: seq<byte>, i: nat, j: nat)
    requires WellFormed(prog) && i <= j <= |prog| && Straight(prog[i..j]) && HitsAt(prog, text, j)
    requires j == |prog| || prog[j].Past?
    ensures TriedAs(prog, text, i, Units(prog[i..j]), j == |prog|)
    decreases j - i
  {
    hide Trials, UnitTrials, UnitPops, Deciding, WellFormed;
    if i == j {
      NoUnits(text, j == |prog|);
      assert prog[i..j] == [];
    } else {
      StraightTail(prog, i, j);
      StretchTriedAs(prog, text, i + 1, j);
      UnitsCons(prog, i, j);
      if Loops(prog, i) { PopsAsUnits(prog, i, j); }
      forall d: nat, n: nat | d <= |text|
        ensures Trials(prog, Deciding(prog), text, i, d, n) == UnitTrials(Units(prog[i..j]), j == |prog|, text, d, n)
      {
        PieceTriedAs(prog, text, i, Units(prog[i + 1..j]), j == |prog|, d, n);
      }
    }
  }

  lemma NoUnits(text: seq<byte>, final: bool)
    ensures Units([]) == [] && forall d: nat, n: nat :: UnitTrials([], final, text, d, n) == [Hit(d)]
  {
  }

  // ----- The whole pattern -----

  lemma EndIsPast(alts: seq<seq<Piece>>, k: nat)
    requires k < |alts| && PlainAlts(alts)
    ensures EndOf(alts, k) <= |ProgramOf(alts)| && (EndOf(alts, k) == |ProgramOf(alts)| <==> k + 1 == |alts|)
    ensures k + 1 < |alts| ==> ProgramOf(alts)[EndOf(alts, k)] == Past(EndOf(alts, k + 1))
  {
    hide ProgramOf;
    ProgramLength(alts);
    if k + 1 < |alts| { ProgramLaid(alts, k); }
  }

  lemma {:induction false} EndHits(alts: seq<seq<Piece>>, text: seq<byte>, k: nat)
    requires k < |alts| && PlainAlts(alts) && WellFormed(ProgramOf(alts))
    ensures EndOf(alts, k) <= |ProgramOf(alts)| && HitsAt(ProgramOf(alts), text, EndOf(alts, k))
    decreases |alts| - k
  {
    hide ProgramOf, Deciding, EndOf, PlainAlts;
    EndIsPast(alts, k);
    if k + 1 < |alts| {
      EndHits(alts, text, k + 1);
      var prog, i, to := ProgramOf(alts), EndOf(alts, k), EndOf(alts, k + 1);
      assert PieceOk(prog, i);
      forall d: nat, n: nat ensures Trials(prog, Deciding(prog), text, i, d, n) == [Hit(d)] {
        assert Trials(prog, Deciding(prog), text, i, d, n) == Trials(prog, Deciding(prog), text, to, d, n);
      }
    }
  }

  lemma AltTriedAs(alts: seq<seq<Piece>>, text: seq<byte>, k: nat)
    requires k < |alts| && PlainAlts(alts) && WellFormed(ProgramOf(alts))
    ensures
      var first := EndOf(alts, k) - |alts[k]|;
      first <= |ProgramOf(alts)| && TriedAs(ProgramOf(alts), text, first, Units(alts[k]), k + 1 == |alts|)
  {
    hide ProgramOf, TriedAs, HitsAt, Units, WellFormed, Base, PlainAlts;
    EndHits(alts, text, k);
    EndIsPast(alts, k);
    AltPlace(alts, k);
    StretchTriedAs(ProgramOf(alts), text, EndOf(alts, k) - |alts[k]|, EndOf(alts, k));
  }

  lemma ForkTrials(prog: Program, pops: set<nat>, text: seq<byte>, i: nat, d: nat)
    requires WellFormed(prog) && i < |prog| && prog[i].Fork?
    ensures i < prog[i].to <= |prog|
    ensures Trials(prog, pops, text, i, d, 0) ==
            Trials(prog, pops, text, i + 1, d, 1) + Trials(prog, pops, text, prog[i].to, d, 0)
  {
    assert PieceOk(prog, i);
  }

  lemma {:induction false} StartTriedAs(pat: Pattern, text: seq<byte>, k: nat, d: nat)
    requires k < |pat| && d <= |text| && PlainAlts(AltPieces(pat)) && WellFormed(CompiledProgram(pat))
    ensures Base(AltPieces(pat), k) <= |CompiledProgram(pat)|
    ensures Trials(CompiledProgram(pat), Deciding(CompiledProgram(pat)), text, Base(AltPieces(pat), k), d, 0) ==
            PatternTrials(pat, k, text, d)
    decreases |pat| - k
  {
    hide ProgramOf, Trials, Units, WellFormed, PlainAlts, Base, ItemTrials, UnitTrials, Deciding, Pieces;
    var alts := AltPieces(pat);
    AltTriedAs(alts, text, k);
    AltStart(alts, k);
    PiecesUnits(pat[k]);
    if k + 1 < |pat| {
      UnitsAreItems(pat[k], false, text, d, 1);
      StartTriedAs(pat, text, k + 1, d);
      ForkTrials(CompiledProgram(pat), Deciding(CompiledProgram(pat)), text, Base(alts, k), d);
    } else {
      UnitsAreItems(pat[k], true, text, d, 0);
    }
  }

  /** The compiled program is tried in the order of the pattern: an earlier alternative
      before a later one, and each item as often as it may first. */
  lemma CompiledOrder(pat: Pattern, text: seq<byte>, d: nat)
    requires Modelled(pat) && d <= |text|
    ensures WellFormed(CompiledProgram(pat))
    ensures var prog := CompiledProgram(pat);
      Trials(prog, Deciding(prog), text, 0, d, 0) == PatternTrials(pat, 0, text, d)
  {
    hide ProgramOf, Trials, PatternTrials, WellFormed, PlainAlts, Deciding, Pieces;
    CompiledWellFormed(pat);
    assert AltPieces(pat)[..0] == [];
    StartTriedAs(pat, text, 0, d);
  }

  // ----- Two patterns -----

  function Letter(c: byte): Item { Item(Char(c, false), []) }

  /** `ab?` on `abc` tries `ab` before `a`, and settles on `ab`. */
  lemma OptionalTried()
    ensures PatternTrials([[Letter(97), Item(Char(98, false), [OptOp])]], 0, [97, 98, 99], 0) == [Hit(2), Hit(1)]
    ensures Settled([Hit(2), Hit(1)], 3) == 2
  {
    var items, text := [Letter(97), Item(Char(98, false), [OptOp])], [97, 98, 99];
    assert items[1..][1..] == [] && items[1..][0].ops[0] == OptOp;
    assert Collapse(items[1].ops) == OptOp;
    assert ItemTrials([], true, text, 2, 1) == [Hit(2)] && ItemTrials([], true, text, 1, 0) == [Hit(1)];
    assert ItemTrials(items[1..], true, text, 1, 0) == [Hit(2)] + [Hit(1)];
    SettledOne(2, 1, 3);
  }

  /** `a|ab` on `abc` settles on `a`, though `ab` matches too and is longer: it comes last. */
  lemma LongerLost()
    ensures PatternTrials([[Letter(97)], [Letter(97), Letter(98)]], 0, [97, 98, 99], 0) == [Hit(1), Hit(2)]
    ensures Settled([Hit(1), Hit(2)], 3) == 1
  {
    var pat, text := [[Letter(97)], [Letter(97), Letter(98)]], [97, 98, 99];
    assert pat[0][1..] == [] && pat[1][1..][1..] == [];
    assert ItemTrials([], false, text, 1, 1) == [Hit(1)] && ItemTrials([], true, text, 2, 0) == [Hit(2)];
    assert ItemTrials(pat[0], false, text, 0, 1) == [Hit(1)];
    assert ItemTrials(pat[1][1..], true, text, 1, 0) == [Hit(2)];
    assert PatternTrials(pat, 0, text, 0) == [Hit(1)] + [Hit(2)];
    SettledOne(1, 2, 3);
  }

  lemma SettledOne(e: nat, e': nat, textEnd: nat)
    requires e < textEnd && e' < textEnd
    ensures Settled([Hit(e), Hit(e')], textEnd) == e
  {
    assert [Hit(e), Hit(e')][..1] == [Hit(e)];
    assert [Hit(e)][..0] == [];
    assert Longest([]) == NONE && Longest([Hit(e)]) == e;
  }
}
