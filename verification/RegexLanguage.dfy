/** Regular expressions over bytes and the language each denotes.

    The definition is the textbook one. It is the reference against which the
    compiler and the matcher of gnu_regex/regex.c are judged; nothing in it
    comes from their code. */
module RegexLanguage {
  import opened Common

  /** What one position of a pattern accepts: one byte, any byte but NUL (`.`
      with RE_DOT_NOT_NULL and RE_DOT_NEWLINE), or a bracket set given by its
      bitmap (low bit first; bytes past the end of the map are not in it). */
  datatype Atom = Byte(c: byte) | Any | Set(negated: bool, bits: seq<byte>)

  /** Bit `i` of `b`: `b & (1 << i)`. */
  predicate Bit(b: nat, i: nat) {
    if i == 0 then b % 2 == 1 else Bit(b / 2, i - 1)
  }

  predicate InMap(bits: seq<byte>, c: byte) {
    c / 8 < |bits| && Bit(bits[c / 8], c % 8)
  }

  predicate MatchAtom(a: Atom, c: byte) {
    match a
    case Byte(b) => c == b
    case Any => c != 0
    case Set(negated, bits) => InMap(bits, c) != negated
  }

  datatype Re = Empty | Sym(chars: set<byte>) | Cat(left: Re, right: Re) | Or(left: Re, right: Re) | Star(body: Re)

  function PlusOf(r: Re): Re { Cat(r, Star(r)) }
  function OptOf(r: Re): Re { Or(r, Empty) }

  /** `w` is in the language of `r`. A starred word is empty or splits into a
      nonempty word of the body and a starred word. */
  ghost predicate InLang(r: Re, w: seq<byte>)
    decreases r, |w|
  {
    match r
    case Empty => w == []
    case Sym(chars) => |w| == 1 && w[0] in chars
    case Cat(x, y) => exists k: nat :: k <= |w| && InLang(x, w[..k]) && InLang(y, w[k..])
    case Or(x, y) => InLang(x, w) || InLang(y, w)
    case Star(x) => w == [] || exists k: nat :: 0 < k <= |w| && InLang(x, w[..k]) && InLang(r, w[k..])
  }

  ghost predicate Equivalent(r: Re, s: Re) {
    forall w: seq<byte> :: InLang(r, w) == InLang(s, w)
  }

  // ----- Repetition operators -----

  datatype Op = StarOp | PlusOp | OptOp

  function ApplyOp(r: Re, op: Op): Re {
    match op
    case StarOp => Star(r)
    case PlusOp => PlusOf(r)
    case OptOp => OptOf(r)
  }

  /** The operators of a run applied one after another, leftmost first. */
  function ApplyOps(r: Re, ops: seq<Op>): Re
  {
    if ops == [] then r else ApplyOp(ApplyOps(r, ops[..|ops| - 1]), ops[|ops| - 1])
  }

  /** zero_times_ok after the run: some operator is not `+` (regex.c:1241). */
  predicate ZeroOk(ops: seq<Op>) { exists i :: 0 <= i < |ops| && ops[i] != PlusOp }

  /** many_times_ok after the run: some operator is not `?` (regex.c:1242). */
  predicate ManyOk(ops: seq<Op>) { exists i :: 0 <= i < |ops| && ops[i] != OptOp }

  /** The single operator that the two flags stand for. */
  function Collapse(ops: seq<Op>): Op {
    if !ZeroOk(ops) then PlusOp else if ManyOk(ops) then StarOp else OptOp
  }

  // Star absorbs concatenation: a word of the body followed by a starred word
  // is a starred word, whichever of the two is empty.
  lemma StarCons(r: Re, u: seq<byte>, v: seq<byte>)
    requires InLang(r, u) && InLang(Star(r), v)
    ensures InLang(Star(r), u + v)
  {
    var w := u + v;
    if u == [] {
      assert w == v;
    } else {
      assert w[..|u|] == u && w[|u|..] == v;
    }
  }

  lemma StarSingle(r: Re, u: seq<byte>)
    requires InLang(r, u)
    ensures InLang(Star(r), u)
  {
    StarCons(r, u, []);
    assert u + [] == u;
  }

  lemma SplitFirst(u: seq<byte>, v: seq<byte>, k: nat)
    requires k <= |u|
    ensures u + v == u[..k] + (u[k..] + v)
  {
  }

  lemma {:induction false} StarAppend(r: Re, u: seq<byte>, v: seq<byte>)
    requires InLang(Star(r), u) && InLang(Star(r), v)
    ensures InLang(Star(r), u + v)
    decreases |u|
  {
    if u == [] {
      assert u + v == v;
    } else {
      var k: nat :| 0 < k <= |u| && InLang(r, u[..k]) && InLang(Star(r), u[k..]);
      hide InLang;
      StarAppend(r, u[k..], v);
      StarCons(r, u[..k], u[k..] + v);
      SplitFirst(u, v, k);
    }
  }

  lemma StarEmpty(r: Re)
    ensures InLang(Star(r), [])
  {
  }

  lemma StarSplit(s: Re, w: seq<byte>) returns (k: nat)
    requires InLang(Star(s), w) && w != []
    ensures 0 < k <= |w| && InLang(s, w[..k]) && InLang(Star(s), w[k..])
  {
    k :| 0 < k <= |w| && InLang(s, w[..k]) && InLang(Star(s), w[k..]);
  }

  /** If every word of `s` is a starred word of `r`, so is every starred word of `s`. */
  lemma {:induction false} StarFlatten(r: Re, s: Re, w: seq<byte>)
    requires forall x: seq<byte> :: InLang(s, x) ==> InLang(Star(r), x)
    requires InLang(Star(s), w)
    ensures InLang(Star(r), w)
    decreases |w|
  {
    hide InLang;
    if w == [] {
      StarEmpty(r);
    } else {
      var k := StarSplit(s, w);
      StarFlatten(r, s, w[k..]);
      StarAppend(r, w[..k], w[k..]);
      assert w == w[..k] + w[k..];
    }
  }

  lemma PlusCons(r: Re, u: seq<byte>, v: seq<byte>)
    requires InLang(r, u) && InLang(Star(r), v)
    ensures InLang(PlusOf(r), u + v)
  {
    var w := u + v;
    assert w[..|u|] == u && w[|u|..] == v;
  }

  lemma PlusSingle(r: Re, u: seq<byte>)
    requires InLang(r, u)
    ensures InLang(PlusOf(r), u)
  {
    PlusCons(r, u, []);
    assert u + [] == u;
  }

  lemma PlusIsStar(r: Re, w: seq<byte>)
    requires InLang(PlusOf(r), w)
    ensures InLang(Star(r), w)
  {
    var k: nat :| k <= |w| && InLang(r, w[..k]) && InLang(Star(r), w[k..]);
    StarCons(r, w[..k], w[k..]);
    assert w == w[..k] + w[k..];
  }

  // A starred word is empty or a word of the plus.
  lemma StarIsPlus(r: Re, w: seq<byte>)
    requires InLang(Star(r), w) && w != []
    ensures InLang(PlusOf(r), w)
  {
    var k: nat :| 0 < k <= |w| && InLang(r, w[..k]) && InLang(Star(r), w[k..]);
  }

  /** Every word of `ApplyOp(r, op)` is a starred word of `r`. */
  lemma OpWithinStar(r: Re, op: Op, w: seq<byte>)
    requires InLang(ApplyOp(r, op), w)
    ensures InLang(Star(r), w)
  {
    match op
    case StarOp =>
    case PlusOp => PlusIsStar(r, w);
    case OptOp => if InLang(r, w) { StarSingle(r, w); }
  }

  // Two operators in a row equal one: the flags of the pair decide which.
  lemma OpTwice(r: Re, first: Op, second: Op, w: seq<byte>)
    ensures InLang(ApplyOp(ApplyOp(r, first), second), w) <==>
            InLang(ApplyOp(r, Collapse([first, second])), w)
  {
    var s := ApplyOp(r, first);
    var ops := [first, second];
    assert ZeroOk(ops) <==> first != PlusOp || second != PlusOp by {
      assert ops[0] == first && ops[1] == second;
    }
    assert ManyOk(ops) <==> first != OptOp || second != OptOp by {
      assert ops[0] == first && ops[1] == second;
    }
    forall x: seq<byte> | InLang(s, x) ensures InLang(Star(r), x) { OpWithinStar(r, first, x); }
    if InLang(ApplyOp(s, second), w) {
      OpWithinStar(s, second, w);
      StarFlatten(r, s, w);
      OpTwiceForward(r, first, second, w);
    }
    if InLang(ApplyOp(r, Collapse(ops)), w) {
      OpTwiceBackward(r, first, second, w);
    }
  }

  lemma OpTwiceForward(r: Re, first: Op, second: Op, w: seq<byte>)
    requires InLang(ApplyOp(ApplyOp(r, first), second), w)
    requires InLang(Star(r), w)
    ensures first == PlusOp && second == PlusOp ==> InLang(PlusOf(r), w)
    ensures first == OptOp && second == OptOp ==> InLang(OptOf(r), w)
  {
    if first == PlusOp && second == PlusOp {
      if w == [] {
        var s := PlusOf(r);
        var k: nat :| k <= |w| && InLang(s, w[..k]) && InLang(Star(s), w[k..]);
        assert w[..k] == w;
      } else {
        StarIsPlus(r, w);
      }
    }
  }

  lemma OpTwiceBackward(r: Re, first: Op, second: Op, w: seq<byte>)
    requires InLang(ApplyOp(r, if first == PlusOp && second == PlusOp then PlusOp
                               else if first == OptOp && second == OptOp then OptOp else StarOp), w)
    ensures InLang(ApplyOp(ApplyOp(r, first), second), w)
  {
    var s := ApplyOp(r, first);
    match first {
      case StarOp =>
        if second == StarOp {
          StarSingle(s, w);
        } else if second == PlusOp {
          PlusSingle(s, w);
        }
      case PlusOp =>
        if second == PlusOp {
          PlusSingle(s, w);
        } else if w != [] {
          StarIsPlus(r, w);
          if second == StarOp { StarSingle(s, w); }
        }
      case OptOp =>
        if second != OptOp {
          StarMonotone(r, s, w);
          if second == PlusOp {
            if w == [] { PlusSingle(s, w); } else { StarIsPlus(s, w); }
          }
        }
    }
  }

  lemma {:induction false} StarMonotone(r: Re, s: Re, w: seq<byte>)
    requires forall x: seq<byte> :: InLang(r, x) ==> InLang(s, x)
    requires InLang(Star(r), w)
    ensures InLang(Star(s), w)
    decreases |w|
  {
    if w != [] {
      var k: nat :| 0 < k <= |w| && InLang(r, w[..k]) && InLang(Star(r), w[k..]);
      StarMonotone(r, s, w[k..]);
    }
  }

  lemma ApplyOpMonotone(r: Re, s: Re, op: Op, w: seq<byte>)
    requires forall x: seq<byte> :: InLang(r, x) ==> InLang(s, x)
    requires InLang(ApplyOp(r, op), w)
    ensures InLang(ApplyOp(s, op), w)
  {
    match op
    case StarOp => StarMonotone(r, s, w);
    case PlusOp =>
      var k: nat :| k <= |w| && InLang(r, w[..k]) && InLang(Star(r), w[k..]);
      StarMonotone(r, s, w[k..]);
    case OptOp =>
  }

  lemma ApplyOpCongruent(r: Re, s: Re, op: Op, w: seq<byte>)
    requires Equivalent(r, s)
    ensures InLang(ApplyOp(r, op), w) == InLang(ApplyOp(s, op), w)
  {
    if InLang(ApplyOp(r, op), w) { ApplyOpMonotone(r, s, op, w); }
    if InLang(ApplyOp(s, op), w) { ApplyOpMonotone(s, r, op, w); }
  }

  lemma CollapseSnoc(ops: seq<Op>, op: Op)
    requires ops != []
    ensures Collapse(ops + [op]) == Collapse([Collapse(ops), op])
  {
    var all := ops + [op];
    var two := [Collapse(ops), op];
    assert all[|ops|] == op && two[0] == Collapse(ops) && two[1] == op;
    assert ZeroOk(all) <==> ZeroOk(ops) || op != PlusOp by {
      if ZeroOk(ops) { var i :| 0 <= i < |ops| && ops[i] != PlusOp; assert all[i] != PlusOp; }
    }
    assert ManyOk(all) <==> ManyOk(ops) || op != OptOp by {
      if ManyOk(ops) { var i :| 0 <= i < |ops| && ops[i] != OptOp; assert all[i] != OptOp; }
    }
    assert ops[0] == ops[0];
    assert ZeroOk(ops) || ManyOk(ops);
  }

  /** Collapsing a nonempty run of `*`, `+`, `?` into the two flags keeps the
      language, whatever the operand is. */
  lemma {:induction false} CollapseKeepsLanguage(r: Re, ops: seq<Op>)
    requires ops != []
    ensures Equivalent(ApplyOps(r, ops), ApplyOp(r, Collapse(ops)))
    decreases |ops|
  {
    var init, op := ops[..|ops| - 1], ops[|ops| - 1];
    assert ops == init + [op];
    if init == [] {
      assert ops == [op] && ops[0] == op;
      assert ApplyOps(r, []) == r;
    } else {
      CollapseKeepsLanguage(r, init);
      CollapseSnoc(init, op);
      forall w: seq<byte> ensures InLang(ApplyOps(r, ops), w) == InLang(ApplyOp(r, Collapse(ops)), w) {
        ApplyOpCongruent(ApplyOps(r, init), ApplyOp(r, Collapse(init)), op, w);
        OpTwice(r, Collapse(init), op, w);
      }
    }
  }

  // ----- Sequences -----

  /** `w` splits into one word per expression, in order. */
  ghost predicate InCat(rs: seq<Re>, w: seq<byte>)
    decreases |rs|
  {
    if rs == [] then w == []
    else exists k: nat :: k <= |w| && InLang(rs[0], w[..k]) && InCat(rs[1..], w[k..])
  }

  lemma {:induction false} CatCongruent(rs: seq<Re>, ss: seq<Re>, w: seq<byte>)
    requires |rs| == |ss| && forall i :: 0 <= i < |rs| ==> Equivalent(rs[i], ss[i])
    requires InCat(rs, w)
    ensures InCat(ss, w)
    decreases |rs|
  {
    if rs != [] {
      var k: nat :| k <= |w| && InLang(rs[0], w[..k]) && InCat(rs[1..], w[k..]);
      assert Equivalent(rs[0], ss[0]);
      CatCongruent(rs[1..], ss[1..], w[k..]);
    }
  }
}
