/** A compiled pattern matches exactly the words the pattern denotes. */
module RegexMeaning {
  import opened Common
  import opened RegexLanguage
  import opened RegexProgram
  import opened RegexSyntax

  // ----- Pieces as expressions -----

  function AtomChars(a: Atom): set<byte> { set c: byte | MatchAtom(a, c) }

  function PieceRes(p: Piece): seq<Re> {
    match p
    case Run(bytes) => seq(|bytes|, i requires 0 <= i < |bytes| => Sym({bytes[i]}))
    case One(a) => [Sym(AtomChars(a))]
    case Rep(op, a) => [ApplyOp(Sym(AtomChars(a)), op)]
    case Fork(_) => []
    case Past(_) => []
  }

  function Flat(ps: seq<Piece>): seq<Re> { if ps == [] then [] else PieceRes(ps[0]) + Flat(ps[1..]) }

  lemma {:induction false} FlatSnoc(ps: seq<Piece>, p: Piece)
    ensures Flat(ps + [p]) == Flat(ps) + PieceRes(p)
    decreases |ps|
  {
    if ps == [] {
      assert [p][1..] == [] && ps + [p] == [p];
    } else {
      var head, rest := PieceRes(ps[0]), ps[1..];
      FlatSnoc(rest, p);
      assert (ps + [p])[1..] == rest + [p] && (ps + [p])[0] == ps[0];
      assert Flat(ps + [p]) == head + (Flat(rest) + PieceRes(p)) == head + Flat(rest) + PieceRes(p);
    }
  }

  function CollapsedRe(item: Item): Re {
    if item.ops == [] then Sym(Chars(item.atom)) else ApplyOp(Sym(Chars(item.atom)), Collapse(item.ops))
  }

  function CollapsedRes(items: seq<Item>): (rs: seq<Re>)
    ensures |rs| == |items|
  {
    seq(|items|, i requires 0 <= i < |items| => CollapsedRe(items[i]))
  }

  lemma AtomOfChars(a: SrcAtom)
    ensures AtomChars(AtomOf(a)) == Chars(a)
  {
    forall c: byte ensures c in AtomChars(AtomOf(a)) <==> c in Chars(a) { AtomOfMatches(a, c); }
  }

  lemma AddItemFlat(ps: seq<Piece>, item: Item)
    ensures Flat(AddItem(ps, item)) == Flat(ps) + [CollapsedRe(item)]
  {
    AtomOfChars(item.atom);
    if item.ops != [] {
      FlatSnoc(ps, Rep(Collapse(item.ops), AtomOf(item.atom)));
    } else if !item.atom.Char? {
      FlatSnoc(ps, One(AtomOf(item.atom)));
    } else {
      var c := item.atom.c;
      assert Chars(item.atom) == {c};
      if OpenRun(ps) {
        var init, last := ps[..|ps| - 1], ps[|ps| - 1];
        assert ps == init + [last];
        FlatSnoc(init, last);
        FlatSnoc(init, Run(last.bytes + [c]));
        assert PieceRes(Run(last.bytes + [c])) == PieceRes(last) + [Sym({c})];
      } else {
        FlatSnoc(ps, Run([c]));
        assert PieceRes(Run([c])) == [Sym({c})];
      }
    }
  }

  /** Grouping characters into runs and collapsing operators changes nothing else. */
  lemma {:induction false} FlatPieces(items: seq<Item>)
    ensures Flat(Pieces(items)) == CollapsedRes(items)
    decreases |items|
  {
    if items != [] {
      var init, item := items[..|items| - 1], items[|items| - 1];
      FlatPieces(init);
      AddItemFlat(Pieces(init), item);
      assert CollapsedRes(items) == CollapsedRes(init) + [CollapsedRe(item)];
    }
  }

  lemma CollapsedSameLanguage(items: seq<Item>, w: seq<byte>)
    ensures InCat(CollapsedRes(items), w) <==> InCat(ItemRes(items), w)
  {
    var rs, ss := CollapsedRes(items), ItemRes(items);
    forall i | 0 <= i < |items| ensures Equivalent(rs[i], ss[i]) && Equivalent(ss[i], rs[i]) {
      if items[i].ops == [] {
        assert rs[i] == ss[i];
      } else {
        CollapseKeepsLanguage(Sym(Chars(items[i].atom)), items[i].ops);
      }
    }
    if InCat(rs, w) { CatCongruent(rs, ss, w); }
    if InCat(ss, w) { CatCongruent(ss, rs, w); }
  }

  // ----- A straight stretch of pieces -----

  predicate Straight(ps: seq<Piece>) { forall i :: 0 <= i < |ps| ==> ps[i].Run? || ps[i].One? || ps[i].Rep? }

  lemma CatIn(r: Re, rs: seq<Re>, w: seq<byte>, k: nat)
    requires k <= |w| && InLang(r, w[..k]) && InCat(rs, w[k..])
    ensures InCat([r] + rs, w)
  {
    assert ([r] + rs)[1..] == rs && ([r] + rs)[0] == r;
  }

  lemma CatOut(r: Re, rs: seq<Re>, w: seq<byte>) returns (k: nat)
    requires InCat([r] + rs, w)
    ensures k <= |w| && InLang(r, w[..k]) && InCat(rs, w[k..])
  {
    assert ([r] + rs)[1..] == rs && ([r] + rs)[0] == r;
    k :| k <= |w| && InLang(r, w[..k]) && InCat(rs, w[k..]);
  }

  /** Words that begin with one of `chars`. */
  lemma CatSym(chars: set<byte>, rs: seq<Re>, text: seq<byte>, d: nat, e: nat)
    requires d <= e <= |text|
    ensures InCat([Sym(chars)] + rs, text[d..e]) <==> d < e && text[d] in chars && InCat(rs, text[d + 1..e])
  {
    var w := text[d..e];
    if InCat([Sym(chars)] + rs, w) {
      var k := CatOut(Sym(chars), rs, w);
      assert |w[..k]| == 1;
    }
    if d < e {
      assert w[1..] == text[d + 1..e];
      if text[d] in chars && InCat(rs, text[d + 1..e]) { CatIn(Sym(chars), rs, w, 1); }
    }
  }

  lemma {:induction false} CatRun(bytes: seq<byte>, rs: seq<Re>, text: seq<byte>, d: nat, e: nat)
    requires d <= e <= |text|
    ensures InCat(PieceRes(Run(bytes)) + rs, text[d..e]) <==>
            d + |bytes| <= e && text[d..d + |bytes|] == bytes && InCat(rs, text[d + |bytes|..e])
    decreases |bytes|
  {
    hide InCat;
    if bytes == [] {
      assert PieceRes(Run(bytes)) + rs == rs;
    } else {
      var tail := bytes[1..];
      RunHead(bytes, rs);
      hide PieceRes;
      CatSym({bytes[0]}, PieceRes(Run(tail)) + rs, text, d, e);
      if d < e {
        CatRun(tail, rs, text, d + 1, e);
        SliceHead(bytes, text, d, e);
      }
    }
  }

  lemma RunHead(bytes: seq<byte>, rs: seq<Re>)
    requires bytes != []
    ensures PieceRes(Run(bytes)) + rs == [Sym({bytes[0]})] + (PieceRes(Run(bytes[1..])) + rs)
  {
  }

  lemma SliceHead(bytes: seq<byte>, text: seq<byte>, d: nat, e: nat)
    requires d < e <= |text| && bytes != []
    ensures d + |bytes| <= e ==>
              (text[d..d + |bytes|] == bytes <==> text[d] == bytes[0] && text[d + 1..d + |bytes|] == bytes[1..])
  {
    if d + |bytes| <= e {
      assert text[d..d + |bytes|] == [text[d]] + text[d + 1..d + |bytes|];
      assert bytes == [bytes[0]] + bytes[1..];
    }
  }

  /** Words of a starred symbol: none of it, or one byte and again. */
  lemma CatStar(chars: set<byte>, rs: seq<Re>, text: seq<byte>, d: nat, e: nat)
    requires d <= e <= |text|
    ensures InCat([Star(Sym(chars))] + rs, text[d..e]) <==>
            InCat(rs, text[d..e]) || (d < e && text[d] in chars && InCat([Star(Sym(chars))] + rs, text[d + 1..e]))
  {
    var s, w := Star(Sym(chars)), text[d..e];
    assert w[..0] == [] && w[0..] == w;
    if InCat([s] + rs, w) {
      var k := CatOut(s, rs, w);
      if k > 0 {
        StarIsPlus(Sym(chars), w[..k]);
        CatIn(PlusOf(Sym(chars)), rs, w, k);
        CatPlusOut(chars, rs, text, d, e);
      }
    }
    if InCat(rs, w) { CatIn(s, rs, w, 0); }
    if d < e && text[d] in chars && InCat([s] + rs, text[d + 1..e]) {
      CatPlusIn(chars, rs, text, d, e);
      var k := CatOut(PlusOf(Sym(chars)), rs, w);
      PlusIsStar(Sym(chars), w[..k]);
      CatIn(s, rs, w, k);
    }
  }

  lemma CatPlus(chars: set<byte>, rs: seq<Re>, text: seq<byte>, d: nat, e: nat)
    requires d <= e <= |text|
    ensures InCat([PlusOf(Sym(chars))] + rs, text[d..e]) <==>
            d < e && text[d] in chars && InCat([Star(Sym(chars))] + rs, text[d + 1..e])
  {
    if InCat([PlusOf(Sym(chars))] + rs, text[d..e]) { CatPlusOut(chars, rs, text, d, e); }
    if d < e && text[d] in chars && InCat([Star(Sym(chars))] + rs, text[d + 1..e]) { CatPlusIn(chars, rs, text, d, e); }
  }

  lemma SliceShift(text: seq<byte>, d: nat, e: nat, k: nat)
    requires d + 1 + k <= e <= |text|
    ensures text[d..e][..k + 1] == [text[d]] + text[d + 1..e][..k] && text[d..e][k + 1..] == text[d + 1..e][k..]
    ensures text[d..e][..k + 1][1..] == text[d + 1..e][..k]
  {
  }

  lemma PlusSymOut(chars: set<byte>, u: seq<byte>)
    requires InLang(PlusOf(Sym(chars)), u)
    ensures u != [] && u[0] in chars && InLang(Star(Sym(chars)), u[1..])
  {
    var j: nat :| j <= |u| && InLang(Sym(chars), u[..j]) && InLang(Star(Sym(chars)), u[j..]);
    assert |u[..j]| == 1;
  }

  lemma CatPlusOut(chars: set<byte>, rs: seq<Re>, text: seq<byte>, d: nat, e: nat)
    requires d <= e <= |text| && InCat([PlusOf(Sym(chars))] + rs, text[d..e])
    ensures d < e && text[d] in chars && InCat([Star(Sym(chars))] + rs, text[d + 1..e])
  {
    hide InLang, InCat;
    var w := text[d..e];
    var k := CatOut(PlusOf(Sym(chars)), rs, w);
    var u := w[..k];
    PlusSymOut(chars, u);
    var v := text[d + 1..e];
    SliceShift(text, d, e, k - 1);
    CatIn(Star(Sym(chars)), rs, v, k - 1);
  }

  lemma CatPlusIn(chars: set<byte>, rs: seq<Re>, text: seq<byte>, d: nat, e: nat)
    requires d < e <= |text| && text[d] in chars && InCat([Star(Sym(chars))] + rs, text[d + 1..e])
    ensures InCat([PlusOf(Sym(chars))] + rs, text[d..e])
  {
    var w, v := text[d..e], text[d + 1..e];
    var k := CatOut(Star(Sym(chars)), rs, v);
    assert InLang(Sym(chars), [text[d]]);
    hide InLang, InCat;
    PlusCons(Sym(chars), [text[d]], v[..k]);
    SliceShift(text, d, e, k);
    CatIn(PlusOf(Sym(chars)), rs, w, k + 1);
  }

  lemma CatOpt(chars: set<byte>, rs: seq<Re>, text: seq<byte>, d: nat, e: nat)
    requires d <= e <= |text|
    ensures InCat([OptOf(Sym(chars))] + rs, text[d..e]) <==>
            InCat(rs, text[d..e]) || (d < e && text[d] in chars && InCat(rs, text[d + 1..e]))
  {
    var w, r := text[d..e], Sym(chars);
    CatSym(chars, rs, text, d, e);
    assert w[..0] == [] && w[0..] == w;
    if InCat([OptOf(r)] + rs, w) {
      var k := CatOut(OptOf(r), rs, w);
      if InLang(r, w[..k]) {
        CatIn(r, rs, w, k);
      } else {
        assert InLang(Empty, w[..k]) && |w[..k]| == k;
      }
    }
    if InCat(rs, w) { CatIn(OptOf(r), rs, w, 0); }
    if InCat([r] + rs, w) {
      var k := CatOut(r, rs, w);
      CatIn(OptOf(r), rs, w, k);
    }
  }

  /** Piece `i` ends a match exactly where it is. */
  ghost predicate Finishes(prog: Program, text: seq<byte>, i: nat)
    requires WellFormed(prog) && i <= |prog|
  {
    forall d: nat, e: nat :: Ends(prog, text, i, d, e) <==> d == e
  }

  /** From piece `i` the words of `rs` remain to be matched. */
  ghost predicate Remains(prog: Program, text: seq<byte>, i: nat, rs: seq<Re>)
    requires WellFormed(prog) && i <= |prog|
  {
    forall d: nat, e: nat | d <= |text| :: Ends(prog, text, i, d, e) <==> d <= e <= |text| && InCat(rs, text[d..e])
  }

  lemma {:induction false} LoopRemains(prog: Program, text: seq<byte>, exit: nat, a: Atom, rs: seq<Re>, d: nat, e: nat)
    requires WellFormed(prog) && exit <= |prog| && Remains(prog, text, exit, rs) && d <= |text|
    ensures LoopEnds(prog, text, exit, a, d, e) <==>
            d <= e <= |text| && InCat([Star(Sym(AtomChars(a)))] + rs, text[d..e])
    decreases |text| - d
  {
    assert LoopEnds(prog, text, exit, a, d, e) <==>
           Ends(prog, text, exit, d, e) || (Accepts(a, text, d) && LoopEnds(prog, text, exit, a, d + 1, e));
    if d < |text| { LoopRemains(prog, text, exit, a, rs, d + 1, e); }
    if d <= e <= |text| { CatStar(AtomChars(a), rs, text, d, e); }
  }

  lemma RepRemains(prog: Program, text: seq<byte>, i: nat, rs: seq<Re>, d: nat, e: nat)
    requires WellFormed(prog) && i < |prog| && prog[i].Rep? && Remains(prog, text, i + 1, rs) && d <= e <= |text|
    ensures Ends(prog, text, i, d, e) <==> InCat(PieceRes(prog[i]) + rs, text[d..e])
  {
    hide InCat, LoopEnds;
    var Rep(op, a) := prog[i];
    if op == StarOp {
      LoopRemains(prog, text, i + 1, a, rs, d, e);
    } else if op == PlusOp {
      CatPlus(AtomChars(a), rs, text, d, e);
      if d < |text| { LoopRemains(prog, text, i + 1, a, rs, d + 1, e); }
    } else {
      CatOpt(AtomChars(a), rs, text, d, e);
    }
  }

  lemma PieceRemains(prog: Program, text: seq<byte>, i: nat, rs: seq<Re>, d: nat, e: nat)
    requires WellFormed(prog) && i < |prog| && Straight([prog[i]]) && Remains(prog, text, i + 1, rs) && d <= |text|
    ensures Ends(prog, text, i, d, e) <==> d <= e <= |text| && InCat(PieceRes(prog[i]) + rs, text[d..e])
  {
    hide InCat, LoopEnds;
    assert [prog[i]][0] == prog[i];
    if Ends(prog, text, i, d, e) { EndsInText(prog, text, i, d, e); }
    if d <= e <= |text| {
      match prog[i]
      case Run(bytes) => CatRun(bytes, rs, text, d, e);
      case One(a) => CatSym(AtomChars(a), rs, text, d, e);
      case Rep(op, a) => RepRemains(prog, text, i, rs, d, e);
    }
  }

  /** A straight stretch from piece `i` up to piece `j` matches its expressions in order. */
  lemma {:induction false} StretchRemains(prog: Program, text: seq<byte>, i: nat, j: nat)
    requires WellFormed(prog) && i <= j <= |prog| && Straight(prog[i..j]) && Finishes(prog, text, j)
    ensures Remains(prog, text, i, Flat(prog[i..j]))
    decreases j - i
  {
    if i == j {
      assert Flat(prog[i..j]) == [];
      forall d: nat, e: nat | d <= |text|
        ensures Ends(prog, text, i, d, e) <==> d <= e <= |text| && InCat([], text[d..e]) {}
    } else {
      var rest := prog[i + 1..j];
      assert prog[i..j][1..] == rest && prog[i..j][0] == prog[i];
      assert Straight(rest) by {
        forall x | 0 <= x < |rest| ensures rest[x].Run? || rest[x].One? || rest[x].Rep? {
          assert rest[x] == prog[i..j][x + 1];
        }
      }
      StretchRemains(prog, text, i + 1, j);
      forall d: nat, e: nat | d <= |text|
        ensures Ends(prog, text, i, d, e) <==> d <= e <= |text| && InCat(Flat(prog[i..j]), text[d..e])
      {
        PieceRemains(prog, text, i, Flat(rest), d, e);
      }
    }
  }

  // ----- Alternatives -----

  function Base(alts: seq<seq<Piece>>, k: nat): nat
    requires k <= |alts|
  {
    ClosedSize(alts[..k])
  }

  lemma BaseStep(alts: seq<seq<Piece>>, k: nat)
    requires k < |alts|
    ensures Base(alts, k + 1) == Base(alts, k) + |alts[k]| + 2
  {
    assert alts[..k + 1][..k] == alts[..k] && alts[..k + 1][k] == alts[k];
  }

  lemma {:induction false} ClosedLength(alts: seq<seq<Piece>>, leave: nat)
    ensures |ClosedProgram(alts, leave)| == ClosedSize(alts)
    decreases |alts|
  {
    if alts != [] {
      ClosedLength(alts[..|alts| - 1], ClosedSize(alts[..|alts| - 1]) + 1 + |alts[|alts| - 1]|);
    }
  }

  /** Where alternative `k` leaves to: the jump after the next one, or `leave` from the last. */
  function LeaveOf(alts: seq<seq<Piece>>, leave: nat, k: nat): nat
    requires k < |alts|
  {
    if k + 1 == |alts| then leave else Base(alts, k + 1) + 1 + |alts[k + 1]|
  }

  ghost predicate AltLaid(prog: Program, alts: seq<seq<Piece>>, k: nat, leave: nat)
    requires k < |alts|
  {
    var b, ps := Base(alts, k), alts[k];
    b + |ps| + 2 <= |prog| && prog[b] == Fork(b + |ps| + 2) && prog[b + 1..b + 1 + |ps|] == ps &&
      prog[b + 1 + |ps|] == Past(leave)
  }

  lemma AltLaidInPrefix(front: Program, prog: Program, init: seq<seq<Piece>>, alts: seq<seq<Piece>>, k: nat, leave: nat)
    requires front <= prog && init <= alts && k < |init| && AltLaid(front, init, k, leave)
    ensures AltLaid(prog, alts, k, leave)
  {
    assert init[..k] == alts[..k];
    var b, ps := Base(alts, k), alts[k];
    assert prog[b + 1..b + 1 + |ps|] == front[b + 1..b + 1 + |ps|];
  }

  lemma LeaveOfInit(alts: seq<seq<Piece>>, k: nat)
    requires k + 1 < |alts|
    ensures
      var init, last := alts[..|alts| - 1], alts[|alts| - 1];
      k < |init| && LeaveOf(init, ClosedSize(init) + 1 + |last|, k) == Base(alts, k + 1) + 1 + |alts[k + 1]|
  {
    var init := alts[..|alts| - 1];
    assert init[..k + 1] == alts[..k + 1];
    if k + 1 == |init| { assert alts[..k + 1] == init; }
  }

  lemma Reassociate(a: Program, b: Program, c: Program, d: Program)
    ensures a + b + c + d == a + (b + c + d)
  {
  }

  lemma {:induction false} ClosedLaid(alts: seq<seq<Piece>>, leave: nat, k: nat)
    requires k < |alts|
    ensures AltLaid(ClosedProgram(alts, leave), alts, k, LeaveOf(alts, leave, k))
    decreases |alts|
  {
    var init, last := alts[..|alts| - 1], alts[|alts| - 1];
    var base := ClosedSize(init);
    var front := ClosedProgram(init, base + 1 + |last|);
    var prog := ClosedProgram(alts, leave);
    ClosedLength(init, base + 1 + |last|);
    Reassociate(front, [Fork(base + |last| + 2)], last, [Past(leave)]);
    if k < |init| {
      ClosedLaid(init, base + 1 + |last|, k);
      LeaveOfInit(alts, k);
      AltLaidInPrefix(front, prog, init, alts, k, LeaveOf(alts, leave, k));
    } else {
      LastLaid(front, alts, leave);
    }
  }

  lemma LastLaid(front: Program, alts: seq<seq<Piece>>, leave: nat)
    requires alts != [] && |front| == ClosedSize(alts[..|alts| - 1])
    ensures var last := alts[|alts| - 1];
      AltLaid(front + ([Fork(|front| + |last| + 2)] + last + [Past(leave)]), alts, |alts| - 1, leave)
  {
  }

  lemma ProgramLength(alts: seq<seq<Piece>>)
    requires alts != []
    ensures |ProgramOf(alts)| == Base(alts, |alts| - 1) + |alts[|alts| - 1]|
    ensures ProgramOf(alts)[Base(alts, |alts| - 1)..] == alts[|alts| - 1]
  {
    ClosedLength(alts[..|alts| - 1], ClosedSize(alts[..|alts| - 1]) + |alts[|alts| - 1]|);
  }

  /** Every alternative but the last is laid between its fork and its jump; the
      jump leads to the jump of the next one, or to the end. */
  lemma ProgramLaid(alts: seq<seq<Piece>>, k: nat)
    requires k + 1 < |alts|
    ensures AltLaid(ProgramOf(alts), alts, k, Base(alts, k + 1) + (if k + 2 < |alts| then 1 else 0) + |alts[k + 1]|)
  {
    var init, last := alts[..|alts| - 1], alts[|alts| - 1];
    var leave := ClosedSize(init) + |last|;
    ClosedLaid(init, leave, k);
    assert init[..k + 1] == alts[..k + 1];
    if k + 2 == |alts| { assert alts[..k + 1] == init; }
    AltLaidInPrefix(ClosedProgram(init, leave), ProgramOf(alts), init, alts, k, LeaveOf(init, leave, k));
  }

  // ----- The whole pattern -----

  predicate PlainPiece(p: Piece) {
    match p
    case Run(bytes) => 1 <= |bytes| <= 255
    case One(a) => !a.Byte? && AtomOk(a)
    case Rep(_, a) => AtomOk(a)
    case Fork(_) => false
    case Past(_) => false
  }

  predicate PlainPieces(ps: seq<Piece>) { forall i :: 0 <= i < |ps| ==> PlainPiece(ps[i]) }

  predicate PlainAlts(alts: seq<seq<Piece>>) {
    forall k {:trigger PlainPieces(alts[k])} :: 0 <= k < |alts| ==> alts[k] != [] && PlainPieces(alts[k])
  }

  lemma PlainInit(alts: seq<seq<Piece>>)
    requires PlainAlts(alts) && alts != []
    ensures PlainAlts(alts[..|alts| - 1]) && PlainPieces(alts[|alts| - 1]) && alts[|alts| - 1] != []
  {
    var init := alts[..|alts| - 1];
    forall k | 0 <= k < |init| ensures init[k] != [] && PlainPieces(init[k]) { assert PlainPieces(alts[k]); }
    assert PlainPieces(alts[|alts| - 1]);
  }

  lemma AddItemPlain(ps: seq<Piece>, item: Item)
    requires PlainPieces(ps)
    ensures PlainPieces(AddItem(ps, item)) && AddItem(ps, item) != []
  {
    var last := AddItem(ps, item)[|AddItem(ps, item)| - 1];
    assert PlainPiece(last);
  }

  lemma {:induction false} PiecesPlain(items: seq<Item>)
    ensures PlainPieces(Pieces(items)) && (items != [] ==> Pieces(items) != [])
    decreases |items|
  {
    if items != [] {
      PiecesPlain(items[..|items| - 1]);
      AddItemPlain(Pieces(items[..|items| - 1]), items[|items| - 1]);
    }
  }

  predicate Fits(p: Piece, i: nat, bound: nat) {
    match p
    case Fork(to) => i < to <= bound
    case Past(to) => i + 1 < to <= bound
    case _ => PlainPiece(p)
  }

  lemma {:induction false} ClosedFits(alts: seq<seq<Piece>>, leave: nat, bound: nat, i: nat)
    requires PlainAlts(alts) && ClosedSize(alts) < leave <= bound && i < |ClosedProgram(alts, leave)|
    ensures Fits(ClosedProgram(alts, leave)[i], i, bound)
    decreases |alts|
  {
    var init, last := alts[..|alts| - 1], alts[|alts| - 1];
    var base := ClosedSize(init);
    PlainInit(alts);
    ClosedLength(init, base + 1 + |last|);
    if i < base {
      ClosedFits(init, base + 1 + |last|, bound, i);
    } else if base < i < base + 1 + |last| {
      assert PlainPieces(last) && ClosedProgram(alts, leave)[i] == last[i - base - 1];
    }
  }

  lemma ProgramWellFormed(alts: seq<seq<Piece>>)
    requires alts != [] && PlainAlts(alts)
    ensures WellFormed(ProgramOf(alts))
  {
    var init, last := alts[..|alts| - 1], alts[|alts| - 1];
    var prog, leave := ProgramOf(alts), ClosedSize(init) + |last|;
    PlainInit(alts);
    ClosedLength(init, leave);
    forall i | 0 <= i < |prog| ensures PieceOk(prog, i) {
      if i < ClosedSize(init) {
        ClosedFits(init, leave, |prog|, i);
      } else {
        assert PlainPieces(last) && prog[i] == last[i - ClosedSize(init)];
      }
    }
  }

  lemma StraightPlain(ps: seq<Piece>)
    requires PlainPieces(ps)
    ensures Straight(ps)
  {
    forall i | 0 <= i < |ps| ensures ps[i].Run? || ps[i].One? || ps[i].Rep? { assert PlainPiece(ps[i]); }
  }

  /** Where the pieces of alternative `k` end. */
  function EndOf(alts: seq<seq<Piece>>, k: nat): nat
    requires k < |alts|
  {
    Base(alts, k) + (if k + 1 < |alts| then 1 else 0) + |alts[k]|
  }

  lemma {:induction false} EndFinishes(alts: seq<seq<Piece>>, text: seq<byte>, k: nat)
    requires k < |alts| && PlainAlts(alts) && WellFormed(ProgramOf(alts))
    ensures EndOf(alts, k) <= |ProgramOf(alts)| && Finishes(ProgramOf(alts), text, EndOf(alts, k))
    decreases |alts| - k
  {
    ProgramLength(alts);
    if k + 1 < |alts| {
      ProgramLaid(alts, k);
      EndFinishes(alts, text, k + 1);
      var prog, i := ProgramOf(alts), EndOf(alts, k);
      assert prog[i] == Past(EndOf(alts, k + 1)) && PieceOk(prog, i);
      forall d: nat, e: nat ensures Ends(prog, text, i, d, e) <==> d == e {
        assert Ends(prog, text, i, d, e) == Ends(prog, text, EndOf(alts, k + 1), d, e);
      }
    }
  }

  lemma AltPlace(alts: seq<seq<Piece>>, k: nat)
    requires k < |alts| && PlainAlts(alts)
    ensures EndOf(alts, k) <= |ProgramOf(alts)| &&
      ProgramOf(alts)[EndOf(alts, k) - |alts[k]|..EndOf(alts, k)] == alts[k]
    ensures Straight(alts[k])
  {
    hide ProgramOf;
    ProgramLength(alts);
    if k + 1 < |alts| { ProgramLaid(alts, k); }
    assert PlainPieces(alts[k]);
    StraightPlain(alts[k]);
  }

  lemma AltRemains(alts: seq<seq<Piece>>, text: seq<byte>, k: nat)
    requires k < |alts| && PlainAlts(alts) && WellFormed(ProgramOf(alts))
    ensures
      var first := EndOf(alts, k) - |alts[k]|;
      first <= |ProgramOf(alts)| && Remains(ProgramOf(alts), text, first, Flat(alts[k]))
  {
    hide ProgramOf, Remains, Finishes, Flat, WellFormed, Base;
    var end := EndOf(alts, k);
    EndFinishes(alts, text, k);
    AltPlace(alts, k);
    StretchRemains(ProgramOf(alts), text, end - |alts[k]|, end);
  }

  /** From the start of alternative `k`, some alternative from `k` on is matched. */
  ghost predicate SomeFrom(alts: seq<seq<Piece>>, k: nat, w: seq<byte>) {
    exists j :: k <= j < |alts| && InCat(Flat(alts[j]), w)
  }

  lemma ForkEnds(prog: Program, text: seq<byte>, i: nat, d: nat, e: nat)
    requires WellFormed(prog) && i < |prog| && prog[i].Fork?
    ensures i < prog[i].to <= |prog|
    ensures Ends(prog, text, i, d, e) <==> Ends(prog, text, i + 1, d, e) || Ends(prog, text, prog[i].to, d, e)
  {
    assert PieceOk(prog, i);
  }

  lemma AltStart(alts: seq<seq<Piece>>, k: nat)
    requires k < |alts| && PlainAlts(alts)
    ensures Base(alts, k) <= |ProgramOf(alts)|
    ensures k + 1 < |alts| ==>
      Base(alts, k) < |ProgramOf(alts)| && ProgramOf(alts)[Base(alts, k)] == Fork(Base(alts, k + 1))
  {
    hide ProgramOf;
    ProgramLength(alts);
    if k + 1 < |alts| {
      ProgramLaid(alts, k);
      BaseStep(alts, k);
    }
  }

  lemma {:induction false} StartMatches(alts: seq<seq<Piece>>, text: seq<byte>, k: nat, d: nat, e: nat)
    requires k < |alts| && PlainAlts(alts) && WellFormed(ProgramOf(alts)) && d <= |text|
    ensures Base(alts, k) <= |ProgramOf(alts)|
    ensures Ends(ProgramOf(alts), text, Base(alts, k), d, e) <==> d <= e <= |text| && SomeFrom(alts, k, text[d..e])
    decreases |alts| - k
  {
    hide ProgramOf, Ends, InCat, Flat, WellFormed, PlainAlts, Base;
    AltRemains(alts, text, k);
    AltStart(alts, k);
    if k + 1 < |alts| {
      StartMatches(alts, text, k + 1, d, e);
      ForkEnds(ProgramOf(alts), text, Base(alts, k), d, e);
      if d <= e <= |text| { SomeFromSplit(alts, k, text[d..e]); }
    } else if d <= e <= |text| {
      assert SomeFrom(alts, k, text[d..e]) <==> InCat(Flat(alts[k]), text[d..e]);
    }
  }

  lemma SomeFromSplit(alts: seq<seq<Piece>>, k: nat, w: seq<byte>)
    requires k < |alts|
    ensures SomeFrom(alts, k, w) <==> InCat(Flat(alts[k]), w) || SomeFrom(alts, k + 1, w)
  {
    hide InCat, Flat;
  }

  function CompiledProgram(pat: Pattern): Program
    requires pat != []
  {
    ProgramOf(AltPieces(pat))
  }

  lemma CompiledWellFormed(pat: Pattern)
    requires Modelled(pat)
    ensures PlainAlts(AltPieces(pat)) && WellFormed(CompiledProgram(pat))
  {
    var alts := AltPieces(pat);
    forall k | 0 <= k < |alts| ensures alts[k] != [] && PlainPieces(alts[k]) {
      assert ItemsModelled(pat[k]);
      PiecesPlain(pat[k]);
    }
    ProgramWellFormed(alts);
  }

  /** The program of a pattern goes from one position to another exactly when the
      bytes between them are a word of the pattern. */
  lemma CompiledMeaning(pat: Pattern, text: seq<byte>, d: nat, e: nat)
    requires Modelled(pat) && d <= |text|
    ensures WellFormed(CompiledProgram(pat))
    ensures Ends(CompiledProgram(pat), text, 0, d, e) <==> d <= e <= |text| && Denotes(pat, text[d..e])
  {
    var alts := AltPieces(pat);
    CompiledWellFormed(pat);
    assert alts[..0] == [];
    StartMatches(alts, text, 0, d, e);
    if d <= e <= |text| {
      var w := text[d..e];
      forall k | 0 <= k < |pat| ensures InCat(Flat(alts[k]), w) <==> InCat(ItemRes(pat[k]), w) {
        FlatPieces(pat[k]);
        CollapsedSameLanguage(pat[k], w);
      }
    }
  }
}
