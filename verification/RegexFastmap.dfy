/** re_compile_fastmap (gnu_regex/regex.c:2531-2801): which bytes can start a
    match, found by walking every path of the code up to its first byte. */
module RegexFastmap {
  import opened Common
  import opened RegexLanguage
  import opened RegexProgram
  import opened RegexCode
  import opened RegexMachine
  import opened RegexBuffer
  import opened RegexMatch

  // ----- First bytes and emptiness of a program -----

  /** What the fastmap records for an atom: `.` is recorded for every byte. */
  predicate Records(a: Atom, c: byte) { a.Any? || MatchAtom(a, c) }

  predicate First(prog: Program, i: nat, c: byte)
    requires WellFormed(prog) && i <= |prog|
    decreases |prog| - i
  {
    if i == |prog| then false
    else
      assert PieceOk(prog, i);
      match prog[i]
      case Run(bytes) => bytes[0] == c
      case One(a) => Records(a, c)
      case Rep(op, a) => Records(a, c) || (op != PlusOp && First(prog, i + 1, c))
      case Fork(to) => First(prog, i + 1, c) || First(prog, to, c)
      case Past(to) => First(prog, to, c)
  }

  predicate Nullable(prog: Program, i: nat)
    requires WellFormed(prog) && i <= |prog|
    decreases |prog| - i
  {
    if i == |prog| then true
    else
      assert PieceOk(prog, i);
      match prog[i]
      case Run(_) => false
      case One(_) => false
      case Rep(op, _) => op != PlusOp && Nullable(prog, i + 1)
      case Fork(to) => Nullable(prog, i + 1) || Nullable(prog, to)
      case Past(to) => Nullable(prog, to)
  }

  /** A match starts with a first byte, or the program matches the empty string. */
  lemma {:induction false} MatchStartsWithFirst(prog: Program, text: seq<byte>, i: nat, d: nat, e: nat)
    requires WellFormed(prog) && i <= |prog| && Ends(prog, text, i, d, e)
    ensures Nullable(prog, i) || (d < |text| && First(prog, i, text[d]))
    decreases |prog| - i
  {
    if i < |prog| {
      assert PieceOk(prog, i);
      match prog[i]
      case Run(bytes) => assert text[d..d + |bytes|][0] == text[d];
      case One(_) =>
      case Rep(op, a) =>
        if op == StarOp && !Accepts(a, text, d) {
          assert Ends(prog, text, i + 1, d, e);
          MatchStartsWithFirst(prog, text, i + 1, d, e);
        } else if op == OptOp && Ends(prog, text, i + 1, d, e) {
          MatchStartsWithFirst(prog, text, i + 1, d, e);
        }
      case Fork(to) =>
        if Ends(prog, text, i + 1, d, e) {
          MatchStartsWithFirst(prog, text, i + 1, d, e);
        } else {
          MatchStartsWithFirst(prog, text, to, d, e);
        }
      case Past(to) => MatchStartsWithFirst(prog, text, to, d, e);
    }
  }

  /** Nullable is exact: it says whether the empty match succeeds anywhere. */
  lemma {:induction false} NullableIsEmptyMatch(prog: Program, text: seq<byte>, i: nat, d: nat)
    requires WellFormed(prog) && i <= |prog| && d <= |text|
    ensures Nullable(prog, i) <==> Ends(prog, text, i, d, d)
    decreases |prog| - i
  {
    if i < |prog| {
      assert PieceOk(prog, i);
      match prog[i]
      case Run(bytes) => if Ends(prog, text, i, d, d) { EndsInText(prog, text, i + 1, d + |bytes|, d); }
      case One(_) => if Ends(prog, text, i, d, d) { EndsInText(prog, text, i + 1, d + 1, d); }
      case Rep(op, a) =>
        NullableIsEmptyMatch(prog, text, i + 1, d);
        if Accepts(a, text, d) {
          if LoopEnds(prog, text, i + 1, a, d + 1, d) { LoopEndsInText(prog, text, i + 1, a, d + 1, d); }
        }
        assert LoopEnds(prog, text, i + 1, a, d, d) <==>
               Ends(prog, text, i + 1, d, d) || (Accepts(a, text, d) && LoopEnds(prog, text, i + 1, a, d + 1, d));
      case Fork(to) =>
        NullableIsEmptyMatch(prog, text, i + 1, d);
        NullableIsEmptyMatch(prog, text, to, d);
      case Past(to) => NullableIsEmptyMatch(prog, text, to, d);
    }
  }

  // ----- Walking the code -----

  /** A place of the walk: at a piece, at the body of a repeated piece, or at the
      end of a path that consumed a byte. */
  datatype Place = AtPiece(i: nat) | AtBody(i: nat) | Consumed

  predicate PlaceOk(prog: Program, q: Place) {
    match q
    case AtPiece(i) => i <= |prog|
    case AtBody(i) => i < |prog| && prog[i].Rep?
    case Consumed => true
  }

  function PlaceAddr(prog: Program, q: Place): nat
    requires PlaceOk(prog, q)
  {
    match q
    case AtPiece(i) => Addr(prog, i)
    case AtBody(i) => Addr(prog, i) + BodyOffset(prog[i].op)
    case Consumed => Addr(prog, |prog|)
  }

  predicate PlaceFirst(prog: Program, q: Place, c: byte)
    requires WellFormed(prog) && PlaceOk(prog, q)
  {
    match q
    case AtPiece(i) => First(prog, i, c)
    case AtBody(i) => Records(prog[i].atom, c)
    case Consumed => false
  }

  predicate PlaceNull(prog: Program, q: Place)
    requires WellFormed(prog) && PlaceOk(prog, q)
  {
    q.AtPiece? && Nullable(prog, q.i)
  }

  /** How many steps the walk can take from a place. */
  function WalkCost(prog: Program, i: nat): (c: nat)
    requires WellFormed(prog) && i <= |prog|
    ensures c > 0
    decreases |prog| - i
  {
    if i == |prog| then 1
    else
      assert PieceOk(prog, i);
      match prog[i]
      case Run(_) => 2
      case One(_) => 2
      case Rep(_, _) => 4 + WalkCost(prog, i + 1)
      case Fork(to) => 1 + WalkCost(prog, i + 1) + WalkCost(prog, to)
      case Past(to) => 1 + WalkCost(prog, to)
  }

  function PlaceCost(prog: Program, q: Place): nat
    requires WellFormed(prog) && PlaceOk(prog, q)
  {
    match q
    case AtPiece(i) => WalkCost(prog, i)
    case AtBody(i) => 2
    case Consumed => 0
  }

  // The stack holds pieces still to be walked. Each was pushed from an earlier
  // piece than the one above it, so it lies beyond its own depth.
  predicate StackOfPieces(prog: Program, stack: seq<nat>) { forall j :: 0 <= j < |stack| ==> j < stack[j] < |prog| }

  predicate StackFirst(prog: Program, stack: seq<nat>, c: byte)
    requires WellFormed(prog) && StackOfPieces(prog, stack)
  {
    exists j :: 0 <= j < |stack| && First(prog, stack[j], c)
  }

  predicate StackNull(prog: Program, stack: seq<nat>)
    requires WellFormed(prog) && StackOfPieces(prog, stack)
  {
    exists j :: 0 <= j < |stack| && Nullable(prog, stack[j])
  }

  function WalkStackCost(prog: Program, stack: seq<nat>): nat
    requires WellFormed(prog) && StackOfPieces(prog, stack)
  {
    if stack == [] then 0 else WalkStackCost(prog, stack[..|stack| - 1]) + WalkCost(prog, stack[|stack| - 1])
  }

  ghost predicate Marked(map256: seq<bool>, prog: Program, q: Place, stack: seq<nat>)
    requires WellFormed(prog) && PlaceOk(prog, q) && StackOfPieces(prog, stack) && |map256| == 256
  {
    forall c: byte :: First(prog, 0, c) <==> map256[c] || PlaceFirst(prog, q, c) || StackFirst(prog, stack, c)
  }

  /** Every first byte is marked already or still ahead, and so is every way to match nothing. */
  ghost predicate Walking(prog: Program, map256: seq<bool>, canBeNull: bool, q: Place, stack: seq<nat>) {
    WellFormed(prog) && PlaceOk(prog, q) && StackOfPieces(prog, stack) && |map256| == 256 &&
    Marked(map256, prog, q, stack) &&
    (Nullable(prog, 0) <==> canBeNull || PlaceNull(prog, q) || StackNull(prog, stack)) &&
    (match q case AtPiece(i) => |stack| <= i case AtBody(i) => |stack| <= i + 1 case Consumed => true)
  }

  lemma StackPushFacts(prog: Program, stack: seq<nat>, i: nat)
    requires WellFormed(prog) && StackOfPieces(prog, stack) && |stack| < i < |prog|
    ensures StackOfPieces(prog, stack + [i])
    ensures forall c: byte :: StackFirst(prog, stack + [i], c) <==> StackFirst(prog, stack, c) || First(prog, i, c)
    ensures StackNull(prog, stack + [i]) <==> StackNull(prog, stack) || Nullable(prog, i)
    ensures WalkStackCost(prog, stack + [i]) == WalkStackCost(prog, stack) + WalkCost(prog, i)
  {
    hide First, Nullable, WalkCost;
    var all := stack + [i];
    assert all[..|stack|] == stack && all[|stack|] == i;
    forall c: byte ensures StackFirst(prog, all, c) <==> StackFirst(prog, stack, c) || First(prog, i, c) {
      if StackFirst(prog, stack, c) {
        var j :| 0 <= j < |stack| && First(prog, stack[j], c);
        assert First(prog, all[j], c);
      }
      if First(prog, i, c) { assert First(prog, all[|stack|], c); }
    }
    if StackNull(prog, stack) { var j :| 0 <= j < |stack| && Nullable(prog, stack[j]); assert Nullable(prog, all[j]); }
    if Nullable(prog, i) { assert Nullable(prog, all[|stack|]); }
  }

  // ----- What each step of the walk keeps -----

  lemma WalkStarts(prog: Program, map256: seq<bool>)
    requires WellFormed(prog) && |map256| == 256 && forall c: byte :: !map256[c]
    ensures Walking(prog, map256, false, AtPiece(0), [])
  {
  }

  /** A step that consumes a byte marks what the place records. */
  lemma WalkMarks(prog: Program, map256: seq<bool>, canBeNull: bool, q: Place, stack: seq<nat>, map': seq<bool>)
    requires Walking(prog, map256, canBeNull, q, stack) && !PlaceNull(prog, q)
    requires |map'| == 256 && forall c: byte :: map'[c] <==> map256[c] || PlaceFirst(prog, q, c)
    ensures Walking(prog, map', canBeNull, Consumed, stack)
  {
    hide First, Nullable;
  }

  /** A step to another place with the same first bytes and emptiness. */
  lemma WalkMoves(prog: Program, map256: seq<bool>, canBeNull: bool, q: Place, stack: seq<nat>, q': Place)
    requires Walking(prog, map256, canBeNull, q, stack) && q.AtPiece? && PlaceOk(prog, q') && !q'.Consumed? &&
      q'.i >= q.i
    requires forall c: byte :: PlaceFirst(prog, q, c) <==> PlaceFirst(prog, q', c)
    requires PlaceNull(prog, q) <==> PlaceNull(prog, q')
    ensures Walking(prog, map256, canBeNull, q', stack)
  {
    hide First, Nullable;
  }

  /** A step that leaves piece `to` for later. */
  lemma WalkPushes(prog: Program, map256: seq<bool>, canBeNull: bool, q: Place, stack: seq<nat>, q': Place, to: nat)
    requires Walking(prog, map256, canBeNull, q, stack) && q.AtPiece? && PlaceOk(prog, q') && q.i < to <= |prog|
    requires q' == AtPiece(q.i + 1) || q' == AtBody(q.i)
    requires forall c: byte :: PlaceFirst(prog, q, c) <==> PlaceFirst(prog, q', c) || First(prog, to, c)
    requires PlaceNull(prog, q) <==> PlaceNull(prog, q') || Nullable(prog, to)
    ensures to < |prog| ==> Walking(prog, map256, canBeNull, q', stack + [to])
    ensures to == |prog| ==> Walking(prog, map256, true, q', stack)
  {
    if to < |prog| {
      hide First, Nullable;
      StackPushFacts(prog, stack, to);
    } else {
      assert forall c: byte :: !First(prog, to, c);
      assert Nullable(prog, to);
      hide First, Nullable;
    }
  }

  /** At the end of a path the last piece pushed is taken up. */
  lemma WalkPops(prog: Program, map256: seq<bool>, canBeNull: bool, q: Place, stack: seq<nat>)
    requires Walking(prog, map256, canBeNull, q, stack) && stack != [] && (q.Consumed? || q == AtPiece(|prog|))
    ensures Walking(prog, map256, canBeNull || !q.Consumed?, AtPiece(stack[|stack| - 1]), stack[..|stack| - 1])
    ensures WalkStackCost(prog, stack) == WalkStackCost(prog, stack[..|stack| - 1]) + WalkCost(prog, stack[|stack| - 1])
  {
    var init, top := stack[..|stack| - 1], stack[|stack| - 1];
    assert stack == init + [top];
    assert StackOfPieces(prog, init) by {
      forall j | 0 <= j < |init| ensures j < init[j] < |prog| { assert init[j] == stack[j]; }
    }
    StackPushFacts(prog, init, top);
    EndPlace(prog, q);
    hide First, Nullable;
  }

  lemma EndPlace(prog: Program, q: Place)
    requires WellFormed(prog) && (q.Consumed? || q == AtPiece(|prog|))
    ensures PlaceOk(prog, q) && (forall c: byte :: !PlaceFirst(prog, q, c)) && (PlaceNull(prog, q) <==> !q.Consumed?)
  {
  }

  lemma WalkFinishes(prog: Program, map256: seq<bool>, canBeNull: bool, q: Place)
    requires Walking(prog, map256, canBeNull, q, []) && (q.Consumed? || q == AtPiece(|prog|))
    ensures (canBeNull || !q.Consumed?) <==> Nullable(prog, 0)
    ensures forall c: byte :: map256[c] <==> First(prog, 0, c)
  {
    EndPlace(prog, q);
    hide First, Nullable;
  }

  // ----- The walk in the buffer -----

  /** The loops that mark a bracket set whose length byte is at `p` (regex.c:2605-2620). */
  method MarkSet(fastmap: array<bool>, buf: array<byte>, used: nat, p: nat, negated: bool, ghost bits: seq<byte>)
    requires fastmap.Length == 256 && p + 1 + |bits| <= used <= buf.Length && |bits| <= 32
    requires buf[p] == |bits| && buf[p + 1..p + 1 + |bits|] == bits
    modifies fastmap
    ensures forall c: byte :: fastmap[c] <==> old(fastmap[c]) || MatchAtom(Set(negated, bits), c)
  {
    var length: int := buf[p];
    var j := length * 8;
    if negated {
      while j < 256
        invariant length * 8 <= j <= 256
        invariant forall c: byte :: fastmap[c] <==> old(fastmap[c]) || length * 8 <= c < j
      {
        fastmap[j] := true;
        j := j + 1;
      }
    }
    j := length * 8 - 1;
    while j >= 0
      invariant -1 <= j < length * 8
      invariant forall c: byte :: fastmap[c] <==>
                  old(fastmap[c]) || (negated && c >= length * 8) || (j < c < length * 8 && InMap(bits, c) != negated)
    {
      assert bits[j / 8] == buf[p + 1..p + 1 + |bits|][j / 8] == buf[p + 1 + j / 8];
      if Bit(buf[p + 1 + j / 8], j % 8) != negated {
        fastmap[j] := true;
      }
      j := j - 1;
    }
  }

  /** The cases that match a byte (regex.c:2597-2652): what the opcode at `p` accepts is marked. */
  method MarkOp(fastmap: array<bool>, buf: array<byte>, used: nat, p: nat, ghost a: Atom)
    requires fastmap.Length == 256 && used <= buf.Length && AtomOk(a)
    requires (p + 2 < used && buf[p] == EXACTN && a == Byte(buf[p + 2])) || (!a.Byte? && AtomAt(buf[..used], p, a))
    modifies fastmap
    ensures forall c: byte :: fastmap[c] <==> old(fastmap[c]) || Records(a, c)
  {
    if buf[p] == EXACTN {
      fastmap[buf[p + 2]] := true;
    } else if buf[p] == ANYCHAR {
      var j := 0;
      while j < 256
        invariant 0 <= j <= 256 && forall c: byte :: fastmap[c] <==> old(fastmap[c]) || c < j
      {
        fastmap[j] := true;
        j := j + 1;
      }
    } else {
      assert buf[p + 2..p + 2 + |a.bits|] == buf[..used][p + 2..p + 2 + |a.bits|];
      MarkSet(fastmap, buf, used, p + 1, buf[p] == CHARSET_NOT, a.bits);
    }
  }

  /** The atom that the walk meets at a place where a byte is consumed. */
  function AtomHere(prog: Program, q: Place): Atom
    requires WellFormed(prog) && PlaceOk(prog, q) && TakesByte(prog, q)
  {
    if q.AtBody? then prog[q.i].atom
    else if prog[q.i].Run? then
      assert PieceOk(prog, q.i);
      Byte(prog[q.i].bytes[0])
    else prog[q.i].atom
  }

  predicate TakesByte(prog: Program, q: Place) {
    PlaceOk(prog, q) && (q.AtBody? || (q.AtPiece? && q.i < |prog| && (prog[q.i].Run? || prog[q.i].One?)))
  }

  lemma TakesByteFacts(prog: Program, code: seq<byte>, q: Place)
    requires WellFormed(prog) && Holds(code, prog) && TakesByte(prog, q)
    ensures var a, p := AtomHere(prog, q), PlaceAddr(prog, q);
      AtomOk(a) && p < |code| && !IsJump(code[p]) && (code[p] == ANYCHAR <==> a.Any?) &&
      ((p + 2 < |code| && code[p] == EXACTN && a == Byte(code[p + 2])) || (!a.Byte? && AtomAt(code, p, a)))
    ensures !PlaceNull(prog, q) && forall c: byte :: PlaceFirst(prog, q, c) <==> Records(AtomHere(prog, q), c)
  {
    var p := PlaceAddr(prog, q);
    assert PieceAt(code, prog, q.i, Addr(prog, q.i)) && PieceOk(prog, q.i);
    if q.AtPiece? && prog[q.i].Run? {
      assert code[p + 2] == code[p + 2..p + 2 + |prog[q.i].bytes|][0];
    }
  }

  /** PUSH_PATTERN_OP with num_regs 0, so that the limit is re_max_failures slots (regex.c:2317-2322). */
  method HasRoom(size: nat, avail: nat) returns (ok: bool, size': nat)
    requires 0 < size && avail <= size
    ensures ok ==> avail < size'
    ensures !ok ==> avail > MAX_FAILURES
  {
    ok, size' := true, size;
    if avail == size {
      if size > MAX_FAILURES {
        ok := false;
      } else {
        size' := 2 * size;
      }
    }
  }

  /** The cases that match the empty string (regex.c:2683-2754): where a jump at a
      place goes on, and the piece it leaves for later, 0 if none. */
  ghost function JumpOn(prog: Program, q: Place): (Place, nat)
    requires WellFormed(prog) && PlaceOk(prog, q) && q.AtPiece? && q.i < |prog| && !TakesByte(prog, q)
  {
    assert PieceOk(prog, q.i);
    match prog[q.i]
    case Rep(op, _) => (AtBody(q.i), if op == PlusOp then 0 else q.i + 1)
    case Fork(to) => (AtPiece(q.i + 1), to)
    case Past(to) => (AtPiece(to), 0)
  }

  /** The jump opcode at a place of the walk, and where it leads. */
  predicate JumpLeads(prog: Program, code: seq<byte>, q: Place, q': Place, to: nat)
    requires PlaceOk(prog, q) && PlaceOk(prog, q') && q.AtPiece?
  {
    var p := PlaceAddr(prog, q);
    p + 2 < |code| && |code| == Addr(prog, |prog|) && to <= |prog| && !q'.Consumed? &&
    if to == 0 then
      (code[p] == DUMMY_FAILURE_JUMP || code[p] == JUMP_PAST_ALT) && Num(code, p + 1) > 0 &&
      PlaceAddr(prog, q') == p + 3 + Num(code, p + 1)
    else
      code[p] == ON_FAILURE_JUMP && PlaceAddr(prog, q') == p + 3 && Addr(prog, to) == p + 3 + Num(code, p + 1) &&
        q.i < to
  }

  lemma RepLeads(prog: Program, code: seq<byte>, i: nat)
    requires WellFormed(prog) && Holds(code, prog) && i < |prog| && prog[i].Rep?
    ensures JumpLeads(prog, code, AtPiece(i), AtBody(i), if prog[i].op == PlusOp then 0 else i + 1)
  {
    assert PieceAt(code, prog, i, Addr(prog, i));
    assert Addr(prog, i + 1) == Addr(prog, i) + PieceSize(prog[i]);
  }

  lemma ForkLeads(prog: Program, code: seq<byte>, i: nat)
    requires WellFormed(prog) && Holds(code, prog) && i < |prog| && (prog[i].Fork? || prog[i].Past?)
    ensures i + (if prog[i].Fork? then 0 else 1) < prog[i].to <= |prog|
    ensures prog[i].Fork? ==> JumpLeads(prog, code, AtPiece(i), AtPiece(i + 1), prog[i].to)
    ensures prog[i].Past? ==> JumpLeads(prog, code, AtPiece(i), AtPiece(prog[i].to), 0)
  {
    assert PieceAt(code, prog, i, Addr(prog, i)) && PieceOk(prog, i);
    if prog[i].Past? { AddrMonotone(prog, i + 1, prog[i].to); }
  }

  lemma JumpFacts(prog: Program, code: seq<byte>, q: Place)
    requires WellFormed(prog) && Holds(code, prog) && PlaceOk(prog, q) && q.AtPiece? && q.i < |prog| &&
      !TakesByte(prog, q)
    ensures var (q', to) := JumpOn(prog, q); PlaceOk(prog, q') && JumpLeads(prog, code, q, q', to)
  {
    hide JumpLeads, Holds, WellFormed;
    if prog[q.i].Rep? { RepLeads(prog, code, q.i); } else { ForkLeads(prog, code, q.i); }
  }

  lemma JumpKeeps(prog: Program, map256: seq<bool>, canBeNull: bool, q: Place, stack: seq<nat>)
    requires Walking(prog, map256, canBeNull, q, stack) && q.AtPiece? && q.i < |prog| && !TakesByte(prog, q)
    ensures var (q', to) := JumpOn(prog, q);
      PlaceOk(prog, q') &&
      if to == 0 then Walking(prog, map256, canBeNull, q', stack) && PlaceCost(prog, q') < PlaceCost(prog, q)
      else q.i < to <= |prog| && PlaceCost(prog, q') + WalkCost(prog, to) < PlaceCost(prog, q) &&
           (to < |prog| ==> Walking(prog, map256, canBeNull, q', stack + [to])) &&
           (to == |prog| ==> Walking(prog, map256, true, q', stack))
  {
    var (q', to) := JumpOn(prog, q);
    assert PieceOk(prog, q.i);
    if to == 0 {
      WalkMoves(prog, map256, canBeNull, q, stack, q');
    } else {
      WalkPushes(prog, map256, canBeNull, q, stack, q', to);
    }
  }

  /** Whether an address is inside the code says whether its piece is. */
  lemma AddrInside(prog: Program, i: nat)
    requires i <= |prog|
    ensures Addr(prog, i) < Addr(prog, |prog|) <==> i < |prog|
  {
    if i < |prog| { AddrMonotone(prog, i, |prog|); }
  }

  ghost predicate Stacked(prog: Program, places: seq<int>, stack: seq<nat>) {
    |places| == |stack| && StackOfPieces(prog, stack) && forall j :: 0 <= j < |stack| ==>
      places[j] == Addr(prog, stack[j])
  }

  ghost function WalkMeasure(prog: Program, q: Place, stack: seq<nat>): nat
    requires WellFormed(prog) && PlaceOk(prog, q) && StackOfPieces(prog, stack)
  {
    PlaceCost(prog, q) + WalkStackCost(prog, stack)
  }

  /** The jumps of the walk; -2 when the stack cannot grow (regex.c:2696-2754). */
  method WalkJump(bufp: PatternBuffer, p: nat, places: seq<int>, size: nat,
                  ghost prog: Program, ghost q: Place, ghost stack: seq<nat>)
    returns (ok: bool, p': int, places': seq<int>, size': nat, ghost q': Place, ghost stack': seq<nat>)
    requires bufp.Valid() && WellFormed(prog) && Holds(bufp.Code(), prog) && p < bufp.used
    requires PlaceOk(prog, q) && p == PlaceAddr(prog, q) && q.AtPiece? && q.i < |prog| && !TakesByte(prog, q)
    requires Stacked(prog, places, stack) && |places| <= size && size > 0
    requires Walking(prog, bufp.fastmap[..], bufp.canBeNull, q, stack)
    modifies bufp`canBeNull
    ensures !ok ==> |prog| > MAX_FAILURES
    ensures ok ==> PlaceOk(prog, q') && !q'.Consumed? && p' == PlaceAddr(prog, q')
    ensures ok ==> Stacked(prog, places', stack') && |places'| <= size' && size' > 0
    ensures ok ==> Walking(prog, bufp.fastmap[..], bufp.canBeNull, q', stack')
    ensures ok ==> WalkMeasure(prog, q', stack') < WalkMeasure(prog, q, stack)
  {
    hide First, Nullable, Holds, TakesByte, JumpOn, WalkCost, PlaceCost, PlaceAddr, Addr;
    ok, p', places', size', q', stack' := true, p, places, size, JumpOn(prog, q).0, stack;
    ghost var to := JumpOn(prog, q).1;
    JumpFacts(prog, bufp.Code(), q);
    JumpKeeps(prog, bufp.fastmap[..], bufp.canBeNull, q, stack);
    var j := ExtractNumber(bufp.buffer, bufp.used, p + 1);
    if bufp.buffer[p] == ON_FAILURE_JUMP {
      p' := p + 3;
      AddrInside(prog, to);
      if p + 3 + j < bufp.used {
        ok, size' := HasRoom(size, |places|);
        if ok {
          StackPushFacts(prog, stack, to);
          places', stack' := places + [p + 3 + j], stack + [to];
        }
      } else {
        bufp.canBeNull := true;
      }
    } else {
      p' := p + 3 + j;
    }
  }

  /** One path piece further: the switch of the walk (regex.c:2581-2794). */
  method WalkStep(bufp: PatternBuffer, p: nat, places: seq<int>, size: nat,
                  ghost prog: Program, ghost q: Place, ghost stack: seq<nat>)
    returns (r: int, consumed: bool, p': int, places': seq<int>, size': nat, ghost q': Place, ghost stack': seq<nat>)
    requires bufp.Valid() && WellFormed(prog) && Holds(bufp.Code(), prog) && p < bufp.used
    requires PlaceOk(prog, q) && p == PlaceAddr(prog, q) && Stacked(prog, places, stack) && |places| <= size && size > 0
    requires Walking(prog, bufp.fastmap[..], bufp.canBeNull, q, stack)
    modifies bufp`canBeNull, bufp.fastmap
    ensures r == 0 || (r == 1 && bufp.canBeNull && Nullable(prog, 0)) || (r == INTERNAL_ERROR && |prog| > MAX_FAILURES)
    ensures r == 0 ==> PlaceOk(prog, q') && p' == PlaceAddr(prog, q') && consumed == q'.Consumed?
    ensures r == 0 ==> Stacked(prog, places', stack') && |places'| <= size'
    ensures r == 0 ==> size' > 0 && Walking(prog, bufp.fastmap[..], bufp.canBeNull, q', stack')
    ensures r == 0 ==> WalkMeasure(prog, q', stack') < WalkMeasure(prog, q, stack)
  {
    hide First, Nullable, TakesByte, WalkCost, PlaceCost, Addr, AtomHere;
    r, consumed, p', places', size', q', stack' := 0, false, p, places, size, q, stack;
    InsideIsPiece(prog, bufp.Code(), q);
    if IsJump(bufp.buffer[p]) {
      var ok;
      ok, p', places', size', q', stack' := WalkJump(bufp, p, places, size, prog, q, stack);
      if !ok {
        r := INTERNAL_ERROR;
      }
    } else {
      TakesByteFacts(prog, bufp.Code(), q);
      ghost var before := bufp.fastmap[..];
      MarkOp(bufp.fastmap, bufp.buffer, bufp.used, p, AtomHere(prog, q));
      if bufp.buffer[p] == ANYCHAR && bufp.canBeNull {
        NullFound(prog, before, q, stack);
        r := 1;
        return;
      }
      WalkMarks(prog, before, bufp.canBeNull, q, stack, bufp.fastmap[..]);
      consumed, p', q' := true, bufp.used, Consumed;
      ByteCosts(prog, q);
    }
  }

  lemma NullFound(prog: Program, map256: seq<bool>, q: Place, stack: seq<nat>)
    requires Walking(prog, map256, true, q, stack)
    ensures Nullable(prog, 0)
  {
  }

  lemma ByteCosts(prog: Program, q: Place)
    requires WellFormed(prog) && TakesByte(prog, q)
    ensures PlaceCost(prog, Consumed) < PlaceCost(prog, q)
  {
  }

  lemma InsideIsPiece(prog: Program, code: seq<byte>, q: Place)
    requires WellFormed(prog) && Holds(code, prog) && PlaceOk(prog, q) && PlaceAddr(prog, q) < |code|
    ensures !q.Consumed? && q.i < |prog|
    ensures IsJump(code[PlaceAddr(prog, q)]) <==> !TakesByte(prog, q)
    ensures !TakesByte(prog, q) ==> q.AtPiece? && PlaceAddr(prog, q) + 2 < |code|
  {
    if TakesByte(prog, q) {
      TakesByteFacts(prog, code, q);
    } else if q.AtPiece? && q.i < |prog| {
      JumpFacts(prog, code, q);
    }
  }

  lemma PlaceInside(prog: Program, q: Place)
    requires PlaceOk(prog, q)
    ensures PlaceAddr(prog, q) <= Addr(prog, |prog|)
    ensures PlaceAddr(prog, q) == Addr(prog, |prog|) <==> q.Consumed? || q == AtPiece(|prog|)
  {
    if !q.Consumed? && q.i < |prog| { AddrMonotone(prog, q.i, |prog|); }
  }

  lemma HeldLength(code: seq<byte>, prog: Program)
    requires Holds(code, prog)
    ensures |code| == Addr(prog, |prog|)
  {
  }

  /** re_compile_fastmap. can_be_null says exactly whether the empty string matches;
      if it does not, the fastmap holds exactly the first bytes. There is no
      internal error for programs of up to 2000 pieces. */
  method ReCompileFastmap(bufp: PatternBuffer, ghost prog: Program) returns (r: int)
    requires bufp.Valid() && WellFormed(prog) && Holds(bufp.Code(), prog)
    modifies bufp`canBeNull, bufp`fastmapAccurate, bufp.fastmap
    ensures r == 0 || (r == INTERNAL_ERROR && |prog| > MAX_FAILURES)
    ensures r == 0 ==> bufp.fastmapAccurate && (bufp.canBeNull <==> Nullable(prog, 0))
    ensures r == 0 && !bufp.canBeNull ==> forall c: byte :: bufp.fastmap[c] <==> First(prog, 0, c)
  {
    hide First, Nullable, WalkCost, Holds;
    ghost var code := bufp.Code();
    HeldLength(code, prog);
    var used, fastmap := bufp.used, bufp.fastmap;
    forall c | 0 <= c < 256 { fastmap[c] := false; }
    bufp.fastmapAccurate, bufp.canBeNull := true, false;
    var p: int, places: seq<int>, size: nat := 0, [], INIT_FAILURE_ALLOC;
    ghost var q, stack := AtPiece(0), [];
    WalkStarts(prog, fastmap[..]);
    var pathCanBeNull := true;
    while p != used || places != []
      invariant PlaceOk(prog, q) && 0 <= p <= used && p == PlaceAddr(prog, q) && pathCanBeNull == !q.Consumed?
      invariant bufp.Code() == code && Stacked(prog, places, stack) && |places| <= size && size > 0
      invariant Walking(prog, fastmap[..], bufp.canBeNull, q, stack) && bufp.fastmapAccurate
      decreases WalkMeasure(prog, q, stack)
    {
      if p == used {
        PlaceInside(prog, q);
        WalkPops(prog, fastmap[..], bufp.canBeNull, q, stack);
        bufp.canBeNull := bufp.canBeNull || pathCanBeNull;
        p, places := places[|places| - 1], places[..|places| - 1];
        q, stack := AtPiece(stack[|stack| - 1]), stack[..|stack| - 1];
        AddrInside(prog, q.i);
      }
      var step, consumed;
      step, consumed, p, places, size, q, stack := WalkStep(bufp, p, places, size, prog, q, stack);
      if step != 0 {
        return if step == 1 then 0 else INTERNAL_ERROR;
      }
      PlaceInside(prog, q);
      pathCanBeNull := !consumed;
    }
    PlaceInside(prog, q);
    WalkFinishes(prog, fastmap[..], bufp.canBeNull, q);
    bufp.canBeNull := bufp.canBeNull || pathCanBeNull;
    return 0;
  }
}
