/** The modelled patterns, their text in POSIX extended syntax, the language they
    denote, and the program and byte code they compile to.

    A pattern is an alternation of nonempty sequences of items. An item is a
    character, `.` or a bracket set, followed by any run of `*`, `+` and `?`. */
module RegexSyntax {
  import opened Common
  import opened RegexLanguage
  import opened RegexProgram

  datatype Elem = Single(c: byte) | Range(lo: byte, hi: byte)

  datatype SrcAtom = Char(c: byte, escaped: bool) | Dot | Bracket(negated: bool, elems: seq<Elem>)

  datatype Item = Item(atom: SrcAtom, ops: seq<Op>)

  type Pattern = seq<seq<Item>>

  // ----- Which patterns are modelled -----

  const NUL: byte := 0
  const DOLLAR: byte := 36
  const LPAREN: byte := 40
  const RPAREN: byte := 41
  const STAR: byte := 42
  const PLUS: byte := 43
  const HYPHEN: byte := 45
  const DOT: byte := 46
  const QUESTION: byte := 63
  const LBRACKET: byte := 91
  const BACKSLASH: byte := 92
  const RBRACKET: byte := 93
  const CARET: byte := 94
  const LBRACE: byte := 123
  const BAR: byte := 124

  /** Characters with a meaning of their own in POSIX extended syntax. */
  predicate Special(c: byte) {
    c == NUL || c == DOLLAR || c == LPAREN || c == RPAREN || c == STAR || c == PLUS || c == DOT || c == QUESTION ||
    c == LBRACKET || c == BACKSLASH || c == CARET || c == LBRACE || c == BAR
  }

  /** Characters that stand for an operator after a backslash: the word, buffer
      and back-reference operators (regex.c:1924-1976). */
  predicate EscapeOperator(c: byte) {
    c == 119 || c == 87 || c == 60 || c == 62 || c == 98 || c == 66 || c == 96 || c == 39 || 49 <= c <= 57
  }

  /** An element of a bracket set. `]` and `-` may only open the set, `^` may not
      open a set that is not negated, and `[` is left to character classes. */
  predicate ElemOk(e: Elem, first: bool, negated: bool) {
    var c := if e.Single? then e.c else e.lo;
    c != NUL && c != LBRACKET && (c == RBRACKET || c == HYPHEN ==> first) && (c == CARET && first ==> negated) &&
    (e.Range? ==> e.lo <= e.hi && e.hi != RBRACKET && e.hi != NUL)
  }

  predicate AtomModelled(a: SrcAtom) {
    match a
    case Char(c, escaped) => c != NUL && if escaped then !EscapeOperator(c) else !Special(c)
    case Dot => true
    case Bracket(negated, elems) => elems != [] && forall i :: 0 <= i < |elems| ==> ElemOk(elems[i], i == 0, negated)
  }

  predicate ItemsModelled(items: seq<Item>) {
    items != [] && forall i :: 0 <= i < |items| ==> AtomModelled(items[i].atom)
  }

  predicate Modelled(pat: Pattern) { pat != [] && forall k :: 0 <= k < |pat| ==> ItemsModelled(pat[k]) }

  // ----- Text -----

  function ElemText(e: Elem): (t: seq<byte>)
    ensures t != []
  {
    match e
    case Single(c) => [c]
    case Range(lo, hi) => [lo, HYPHEN, hi]
  }

  function ElemsText(es: seq<Elem>): seq<byte> { if es == [] then [] else ElemText(es[0]) + ElemsText(es[1..]) }

  function AtomText(a: SrcAtom): (t: seq<byte>)
    ensures t != []
  {
    match a
    case Char(c, escaped) => if escaped then [BACKSLASH, c] else [c]
    case Dot => [DOT]
    case Bracket(negated, elems) => [LBRACKET] + (if negated then [CARET] else []) + ElemsText(elems) + [RBRACKET]
  }

  function OpChar(op: Op): byte { match op case StarOp => STAR case PlusOp => PLUS case OptOp => QUESTION }

  function OpsText(ops: seq<Op>): (t: seq<byte>)
    ensures |t| == |ops| && forall i :: 0 <= i < |t| ==> t[i] == OpChar(ops[i])
  {
    seq(|ops|, i requires 0 <= i < |ops| => OpChar(ops[i]))
  }

  function ItemsText(items: seq<Item>): seq<byte> {
    if items == [] then [] else AtomText(items[0].atom) + OpsText(items[0].ops) + ItemsText(items[1..])
  }

  /** The text of the alternatives from `k` on, each preceded by a bar. */
  function TailText(pat: Pattern, k: nat): seq<byte>
    requires k <= |pat|
    decreases |pat| - k
  {
    if k == |pat| then [] else [BAR] + ItemsText(pat[k]) + TailText(pat, k + 1)
  }

  function PatternText(pat: Pattern): seq<byte>
    requires pat != []
  {
    ItemsText(pat[0]) + TailText(pat, 1)
  }

  // ----- Meaning -----

  predicate Covers(e: Elem, c: byte) { match e case Single(x) => c == x case Range(lo, hi) => lo <= c <= hi }

  predicate SomeCovers(es: seq<Elem>, c: byte) { exists i :: 0 <= i < |es| && Covers(es[i], c) }

  predicate AtomCovers(a: SrcAtom, c: byte) {
    match a
    case Char(x, _) => c == x
    case Dot => c != NUL
    case Bracket(negated, elems) => SomeCovers(elems, c) != negated
  }

  function Chars(a: SrcAtom): set<byte> { set c: byte | AtomCovers(a, c) }

  function ItemRe(item: Item): Re { ApplyOps(Sym(Chars(item.atom)), item.ops) }

  function ItemRes(items: seq<Item>): (rs: seq<Re>)
    ensures |rs| == |items|
  {
    seq(|items|, i requires 0 <= i < |items| => ItemRe(items[i]))
  }

  /** `w` is in the language of the pattern. */
  ghost predicate Denotes(pat: Pattern, w: seq<byte>) { exists k :: 0 <= k < |pat| && InCat(ItemRes(pat[k]), w) }

  // ----- Bitmaps -----

  /** `b | (1 << i)`. */
  function SetBit(b: nat, i: nat): nat {
    if i == 0 then (if b % 2 == 1 then b else b + 1) else 2 * SetBit(b / 2, i - 1) + b % 2
  }

  lemma {:induction false} SetBitFacts(b: nat, i: nat, j: nat)
    ensures Bit(SetBit(b, i), j) == (i == j || Bit(b, j))
    decreases i
  {
    if i > 0 && j > 0 {
      SetBitFacts(b / 2, i - 1, j - 1);
      assert SetBit(b, i) / 2 == SetBit(b / 2, i - 1);
    } else if i == 0 && j > 0 {
      assert SetBit(b, 0) / 2 == b / 2;
    }
  }

  lemma {:induction false} SetBitBound(b: nat, i: nat, width: nat)
    requires i < width && b < TwoTo(width)
    ensures SetBit(b, i) < TwoTo(width)
    decreases i
  {
    if i > 0 { SetBitBound(b / 2, i - 1, width - 1); }
  }

  function TwoTo(n: nat): nat { if n == 0 then 1 else 2 * TwoTo(n - 1) }

  /** SET_LIST_BIT on a full bitmap (regex.c:1011-1013). */
  function SetListBit(map32: seq<byte>, c: byte): (r: seq<byte>)
    requires |map32| == 32
    ensures |r| == 32
    ensures forall x: byte :: InMap(r, x) == (x == c || InMap(map32, x))
  {
    assert TwoTo(8) == 256;
    SetBitBound(map32[c / 8], c % 8, 8);
    var r := map32[c / 8 := SetBit(map32[c / 8], c % 8)];
    assert forall x: byte :: InMap(r, x) == (x == c || InMap(map32, x)) by {
      forall x: byte ensures InMap(r, x) == (x == c || InMap(map32, x)) {
        if x / 8 == c / 8 { SetBitFacts(map32[c / 8], c % 8, x % 8); }
      }
    }
    r
  }

  /** The bits of `lo` up to but not including `hi`, in rising order. */
  function SetRange(map32: seq<byte>, lo: int, hi: int): (r: seq<byte>)
    requires |map32| == 32 && 0 <= lo && hi <= 256
    ensures |r| == 32
    ensures forall x: byte :: InMap(r, x) == (lo <= x < hi || InMap(map32, x))
    decreases hi
  {
    if lo >= hi then map32 else SetListBit(SetRange(map32, lo, hi - 1), hi - 1)
  }

  function SetElem(map32: seq<byte>, e: Elem): (r: seq<byte>)
    requires |map32| == 32
    ensures |r| == 32
    ensures forall x: byte :: InMap(r, x) == (Covers(e, x) || InMap(map32, x))
  {
    match e
    case Single(c) => SetListBit(map32, c)
    case Range(lo, hi) => SetRange(map32, lo, hi + 1)
  }

  function Blank(): (r: seq<byte>)
    ensures |r| == 32
    ensures forall x: byte :: !InMap(r, x)
  {
    var r := seq(32, _ => 0);
    assert forall x: byte :: !InMap(r, x) by {
      forall x: byte ensures !InMap(r, x) { ZeroHasNoBit(x % 8); }
    }
    r
  }

  lemma {:induction false} ZeroHasNoBit(i: nat)
    ensures !Bit(0, i)
  {
    if i > 0 { ZeroHasNoBit(i - 1); }
  }

  function FullBits(es: seq<Elem>): (r: seq<byte>)
    ensures |r| == 32
    ensures forall x: byte :: InMap(r, x) == SomeCovers(es, x)
  {
    if es == [] then Blank()
    else
      var init, e := es[..|es| - 1], es[|es| - 1];
      var r := SetElem(FullBits(init), e);
      assert forall x: byte :: SomeCovers(es, x) == (SomeCovers(init, x) || Covers(e, x)) by {
        forall x: byte ensures SomeCovers(es, x) == (SomeCovers(init, x) || Covers(e, x)) {
          if SomeCovers(init, x) { var i :| 0 <= i < |init| && Covers(init[i], x); assert Covers(es[i], x); }
        }
      }
      r
  }

  /** Trailing zero bytes are dropped from the map (regex.c:1520-1523). */
  function Trim(bits: seq<byte>): (r: seq<byte>)
    ensures |r| <= |bits| && r == bits[..|r|]
    ensures forall x: byte :: InMap(r, x) == InMap(bits, x)
  {
    if bits != [] && bits[|bits| - 1] == 0 then
      var r := Trim(bits[..|bits| - 1]);
      assert forall x: byte :: InMap(bits[..|bits| - 1], x) == InMap(bits, x) by {
        forall x: byte ensures InMap(bits[..|bits| - 1], x) == InMap(bits, x) { ZeroHasNoBit(x % 8); }
      }
      r
    else bits
  }

  // ----- The program of a pattern -----

  function AtomOf(a: SrcAtom): (r: Atom)
    ensures AtomOk(r)
  {
    match a
    case Char(c, _) => Byte(c)
    case Dot => Any
    case Bracket(negated, elems) => Set(negated, Trim(FullBits(elems)))
  }

  /** A compiled atom accepts what the source atom stands for. */
  lemma AtomOfMatches(a: SrcAtom, c: byte)
    ensures MatchAtom(AtomOf(a), c) <==> c in Chars(a)
  {
  }

  predicate OpenRun(ps: seq<Piece>) { ps != [] && ps[|ps| - 1].Run? && |ps[|ps| - 1].bytes| < 255 }

  /** The pieces after one more item. A character without operator joins the run
      before it if there is one with room; an operator gets a piece of its own. */
  function AddItem(ps: seq<Piece>, item: Item): seq<Piece> {
    if item.ops != [] then ps + [Rep(Collapse(item.ops), AtomOf(item.atom))]
    else if !item.atom.Char? then ps + [One(AtomOf(item.atom))]
    else if OpenRun(ps) then ps[..|ps| - 1] + [Run(ps[|ps| - 1].bytes + [item.atom.c])]
    else ps + [Run([item.atom.c])]
  }

  function Pieces(items: seq<Item>): seq<Piece> {
    if items == [] then [] else AddItem(Pieces(items[..|items| - 1]), items[|items| - 1])
  }

  /** The closed alternatives, the last of them leaving to piece `leave`. */
  function ClosedProgram(alts: seq<seq<Piece>>, leave: nat): Program
    decreases |alts|
  {
    if alts == [] then []
    else
      var last := alts[|alts| - 1];
      var base := ClosedSize(alts[..|alts| - 1]);
      ClosedProgram(alts[..|alts| - 1], base + 1 + |last|) + [Fork(base + |last| + 2)] + last + [Past(leave)]
  }

  function ClosedSize(alts: seq<seq<Piece>>): nat {
    if alts == [] then 0 else ClosedSize(alts[..|alts| - 1]) + |alts[|alts| - 1]| + 2
  }

  function ProgramOf(alts: seq<seq<Piece>>): Program
    requires alts != []
  {
    var init, last := alts[..|alts| - 1], alts[|alts| - 1];
    ClosedProgram(init, ClosedSize(init) + |last|) + last
  }

  function AltPieces(pat: Pattern): (alts: seq<seq<Piece>>)
    ensures |alts| == |pat|
  {
    seq(|pat|, k requires 0 <= k < |pat| => Pieces(pat[k]))
  }
}
