/** regex_compile (gnu_regex/regex.c:1061-2056) on the modelled patterns: one pass
    over the pattern text that appends byte code, opens room for jumps before code
    already written, and fills in the jumps between alternatives later. */
module RegexCompile {
  import opened Common
  import opened RegexLanguage
  import opened RegexProgram
  import opened RegexCode
  import opened RegexSyntax
  import opened RegexMeaning
  import opened RegexLayout
  import opened RegexBuffer
  import opened RegexBracket

  datatype Error = REG_NOERROR | REG_ESIZE

  const NONE := -1

  // ----- Where the compiler is in the pattern -----

  /** The code of an atom before any operator is applied to it. */
  function Raw(a: SrcAtom): Piece { if a.Char? then Run([a.c]) else One(AtomOf(a)) }

  /** `mid`: item `i` of alternative `k` has been written without its operators. */
  datatype Spot = Spot(k: nat, i: nat, mid: bool)

  predicate SpotOk(pat: Pattern, s: Spot) {
    s.k < |pat| && s.i <= |pat[s.k]| && (s.mid ==> s.i < |pat[s.k]| && pat[s.k][s.i].ops != [])
  }

  function RestText(pat: Pattern, s: Spot): seq<byte>
    requires SpotOk(pat, s)
  {
    if s.mid then OpsText(pat[s.k][s.i].ops) + (ItemsText(pat[s.k][s.i + 1..]) + TailText(pat, s.k + 1))
    else ItemsText(pat[s.k][s.i..]) + TailText(pat, s.k + 1)
  }

  /** The pieces of the open alternative so far. */
  function OpenPieces(pat: Pattern, s: Spot): seq<Piece>
    requires SpotOk(pat, s)
  {
    Pieces(pat[s.k][..s.i]) + if s.mid then [Raw(pat[s.k][s.i].atom)] else []
  }

  lemma PiecesStep(items: seq<Item>, i: nat)
    requires i < |items|
    ensures Pieces(items[..i + 1]) == AddItem(Pieces(items[..i]), items[i])
  {
    assert items[..i + 1][..i] == items[..i] && items[..i + 1][i] == items[i];
  }

  lemma OpenPlain(pat: Pattern, s: Spot)
    requires SpotOk(pat, s)
    ensures PlainPieces(Pieces(pat[s.k][..s.i])) && PlainPieces(OpenPieces(pat, s))
  {
    PiecesPlain(pat[s.k][..s.i]);
  }

  lemma ItemsTextStep(items: seq<Item>, i: nat)
    requires i < |items|
    ensures ItemsText(items[i..]) == AtomText(items[i].atom) + OpsText(items[i].ops) + ItemsText(items[i + 1..])
  {
    assert items[i..][1..] == items[i + 1..] && items[i..][0] == items[i];
  }

  /** The text at an item: its atom, then what the spot after the atom expects. */
  lemma RestAtItem(pat: Pattern, k: nat, i: nat)
    requires k < |pat| && i < |pat[k]|
    ensures
      var after := if pat[k][i].ops == [] then Spot(k, i + 1, false) else Spot(k, i, true);
      RestText(pat, Spot(k, i, false)) == AtomText(pat[k][i].atom) + RestText(pat, after)
  {
    hide AtomText, OpsText, ItemsText, TailText;
    var item := pat[k][i];
    ItemsTextStep(pat[k], i);
    Regroup(AtomText(item.atom), OpsText(item.ops), ItemsText(pat[k][i + 1..]), TailText(pat, k + 1));
  }

  lemma Regroup(a: seq<byte>, b: seq<byte>, c: seq<byte>, d: seq<byte>)
    ensures a + b + c + d == a + (b + (c + d))
    ensures b == [] ==> b + (c + d) == c + d
  {
  }

  lemma RestAtBar(pat: Pattern, k: nat)
    requires k < |pat|
    ensures k + 1 < |pat| ==> RestText(pat, Spot(k, |pat[k]|, false)) == [BAR] + RestText(pat, Spot(k + 1, 0, false))
    ensures k + 1 == |pat| ==> RestText(pat, Spot(k, |pat[k]|, false)) == []
  {
    hide ItemsText, TailText, RestText;
    RestAtEnd(pat, k);
    if k + 1 < |pat| { TailStep(pat, k + 1); }
  }

  lemma RestAtEnd(pat: Pattern, k: nat)
    requires k < |pat|
    ensures RestText(pat, Spot(k, |pat[k]|, false)) == TailText(pat, k + 1)
    ensures k + 1 == |pat| ==> TailText(pat, k + 1) == []
  {
    NoItems(pat[k][|pat[k]|..]);
    hide ItemsText, OpsText;
    EmptyFirst(ItemsText(pat[k][|pat[k]|..]), TailText(pat, k + 1));
  }

  lemma NoItems(items: seq<Item>)
    requires items == []
    ensures ItemsText(items) == []
  {
  }

  lemma EmptyFirst(a: seq<byte>, b: seq<byte>)
    requires a == []
    ensures a + b == b
  {
  }

  lemma TailStep(pat: Pattern, k: nat)
    requires k < |pat|
    ensures TailText(pat, k) == [BAR] + RestText(pat, Spot(k, 0, false))
  {
    hide ItemsText, OpsText;
    assert pat[k][0..] == pat[k];
    Assoc([BAR], ItemsText(pat[k]), TailText(pat, k + 1));
  }

  lemma Assoc(a: seq<byte>, b: seq<byte>, c: seq<byte>)
    ensures a + b + c == a + (b + c)
  {
  }

  predicate IsOpChar(c: byte) { c == STAR || c == PLUS || c == QUESTION }

  /** What opens an item: no operator, bar, `^` or `{`. */
  lemma AtomOpens(a: SrcAtom)
    requires AtomModelled(a)
    ensures var c := AtomText(a)[0]; !IsOpChar(c) && c != BAR && c != CARET && c != LBRACE
  {
  }

  lemma NextChar(pat: Pattern, s: Spot)
    requires Modelled(pat) && SpotOk(pat, s)
    ensures RestText(pat, s) != [] ==>
      var c := RestText(pat, s)[0]; (IsOpChar(c) <==> s.mid) && c != CARET && c != LBRACE
    ensures s.mid ==> RestText(pat, s) != []
  {
    if s.mid {
      assert RestText(pat, s)[0] == OpsText(pat[s.k][s.i].ops)[0];
    } else if s.i < |pat[s.k]| {
      RestAtItem(pat, s.k, s.i);
      assert ItemsModelled(pat[s.k]);
      AtomOpens(pat[s.k][s.i].atom);
    } else {
      RestAtBar(pat, s.k);
    }
  }

  // ----- Repetition -----

  /** The loop that collapses a run of operators into two flags (regex.c:1239-1274);
      `p` is at the first operator. */
  method ReadOps(pattern: seq<byte>, p: nat, ghost ops: seq<Op>, ghost rest: seq<byte>)
    returns (p': nat, zeroTimesOk: bool, manyTimesOk: bool)
    requires p <= |pattern| && ops != [] && pattern[p..] == OpsText(ops) + rest
    requires rest != [] ==> !IsOpChar(rest[0])
    ensures p' == p + |ops| <= |pattern| && pattern[p'..] == rest
    ensures zeroTimesOk == ZeroOk(ops) && manyTimesOk == ManyOk(ops)
  {
    ghost var text := OpsText(ops);
    forall j | 0 <= j < |ops| ensures pattern[p + j] == OpChar(ops[j]) { assert pattern[p..][j] == text[j]; }
    assert pattern[p + |ops|..] == pattern[p..][|ops|..] == rest;
    p', zeroTimesOk, manyTimesOk := p, false, false;
    var c := pattern[p'];
    while true
      invariant p <= p' < p + |ops| && c == pattern[p']
      invariant zeroTimesOk == ZeroOk(ops[..p' - p]) && manyTimesOk == ManyOk(ops[..p' - p])
      decreases |ops| - (p' - p)
    {
      FlagsStep(ops, p' - p);
      zeroTimesOk := zeroTimesOk || c != PLUS;
      manyTimesOk := manyTimesOk || c != QUESTION;
      p' := p' + 1;
      if p' == p + |ops| {
        assert ops[..|ops|] == ops;
        assert p' < |pattern| ==> pattern[p'] == rest[0];
      }
      if p' == |pattern| {
        break;
      }
      c := pattern[p'];
      if !IsOpChar(c) {
        break;
      }
    }
  }

  lemma FlagsStep(ops: seq<Op>, j: nat)
    requires j < |ops|
    ensures ZeroOk(ops[..j + 1]) <==> ZeroOk(ops[..j]) || ops[j] != PlusOp
    ensures ManyOk(ops[..j + 1]) <==> ManyOk(ops[..j]) || ops[j] != OptOp
  {
    var a, b := ops[..j], ops[..j + 1];
    assert b[j] == ops[j];
    if ZeroOk(a) { var x :| 0 <= x < |a| && a[x] != PlusOp; assert b[x] != PlusOp; }
    if ManyOk(a) { var x :| 0 <= x < |a| && a[x] != OptOp; assert b[x] != OptOp; }
    if ZeroOk(b) { var x :| 0 <= x < |b| && b[x] != PlusOp; assert x < j ==> a[x] != PlusOp; }
    if ManyOk(b) { var x :| 0 <= x < |b| && b[x] != OptOp; assert x < j ==> a[x] != OptOp; }
  }

  /** The jumps around a repeated atom (regex.c:1283-1339): back to the start at the
      end, out of the loop at the start, and over that for a `+`. */
  method EmitRepeat(bufp: PatternBuffer, b: nat, laststart: nat, zeroTimesOk: bool, manyTimesOk: bool,
                    ghost front: seq<byte>, ghost a: Atom)
    returns (ok: bool, b': nat)
    requires AtomOk(a) && b <= bufp.buffer.Length && 0 < bufp.buffer.Length <= MAX_BUF_SIZE
    requires bufp.Written(b) == front + AtomCode(a) && |front| == laststart && (zeroTimesOk || manyTimesOk)
    modifies bufp`buffer, bufp.buffer
    ensures bufp.buffer == old(bufp.buffer) || fresh(bufp.buffer)
    ensures 0 < bufp.buffer.Length <= MAX_BUF_SIZE && (!ok ==> b + 9 > MAX_BUF_SIZE)
    ensures ok ==> b' <= bufp.buffer.Length
    ensures ok ==> bufp.Written(b') ==
                   front + RepCode(if !zeroTimesOk then PlusOp else if manyTimesOk then StarOp else OptOp, a)
  {
    hide AtomCode, JumpCode, RepCode, LoopCode;
    b' := b;
    ghost var code := AtomCode(a);
    if manyTimesOk {
      ok := bufp.AppendJump(b', MAYBE_POP_JUMP, (laststart - 3) - b' - 3);
      if !ok { return; }
      Assoc(front, code, JumpCode(MAYBE_POP_JUMP, -6 - AtomSize(a)));
      code := code + JumpCode(MAYBE_POP_JUMP, -6 - AtomSize(a));
      b' := b' + 3;
    }
    ok := bufp.InsertJump(b', ON_FAILURE_JUMP, laststart, (b' + 3) - laststart - 3);
    if !ok { return; }
    AfterInsert(front, code, JumpCode(ON_FAILURE_JUMP, b' - laststart));
    code := JumpCode(ON_FAILURE_JUMP, b' - laststart) + code;
    b' := b' + 3;
    if !zeroTimesOk {
      ok := bufp.InsertJump(b', DUMMY_FAILURE_JUMP, laststart, 3);
      if !ok { return; }
      AfterInsert(front, code, JumpCode(DUMMY_FAILURE_JUMP, 3));
      code := JumpCode(DUMMY_FAILURE_JUMP, 3) + code;
      b' := b' + 3;
    }
    RepCodeParts(a);
  }

  lemma AfterInsert(front: seq<byte>, code: seq<byte>, jump: seq<byte>)
    ensures (front + code)[..|front|] + jump + (front + code)[|front|..] == front + (jump + code)
  {
  }

  lemma RepCodeParts(a: Atom)
    requires AtomOk(a)
    ensures var n, code := AtomSize(a), AtomCode(a);
      var loop := JumpCode(ON_FAILURE_JUMP, n + 3) + (code + JumpCode(MAYBE_POP_JUMP, -6 - n));
      RepCode(OptOp, a) == JumpCode(ON_FAILURE_JUMP, n) + code && RepCode(StarOp, a) == loop &&
      RepCode(PlusOp, a) == JumpCode(DUMMY_FAILURE_JUMP, 3) + loop
  {
    hide AtomCode, JumpCode;
    Assoc(JumpCode(ON_FAILURE_JUMP, AtomSize(a) + 3), AtomCode(a), JumpCode(MAYBE_POP_JUMP, -6 - AtomSize(a)));
  }

  // ----- Characters -----

  /** BUF_PUSH_2 (exactn, 0). */
  method StartExactn(bufp: PatternBuffer, b: nat) returns (ok: bool)
    requires b <= bufp.buffer.Length && 0 < bufp.buffer.Length <= MAX_BUF_SIZE
    modifies bufp`buffer, bufp.buffer
    ensures bufp.buffer == old(bufp.buffer) || fresh(bufp.buffer)
    ensures 0 < bufp.buffer.Length <= MAX_BUF_SIZE && (!ok ==> b + 2 > MAX_BUF_SIZE)
    ensures ok ==> b + 2 <= bufp.buffer.Length && bufp.Written(b + 2) == old(bufp.Written(b)) + [EXACTN, 0]
  {
    ok := bufp.GetBufferSpace(b, 2);
    if ok {
      bufp.buffer[b], bufp.buffer[b + 1] := EXACTN, 0;
    }
  }

  /** BUF_PUSH (c), with the count of the exactn raised by one. */
  method ExtendExactn(bufp: PatternBuffer, b: nat, c: byte, pending: nat) returns (ok: bool)
    requires pending < b <= bufp.buffer.Length && 0 < bufp.buffer.Length <= MAX_BUF_SIZE && bufp.buffer[pending] < 255
    modifies bufp`buffer, bufp.buffer
    ensures bufp.buffer == old(bufp.buffer) || fresh(bufp.buffer)
    ensures 0 < bufp.buffer.Length <= MAX_BUF_SIZE && (!ok ==> b + 1 > MAX_BUF_SIZE)
    ensures ok ==> b + 1 <= bufp.buffer.Length
    ensures ok ==> bufp.Written(b + 1) == old(bufp.Written(b))[pending := old(bufp.buffer[pending]) + 1] + [c]
  {
    ghost var before := bufp.buffer[..b];
    ok := bufp.Push(b, c);
    if ok {
      assert bufp.buffer[..b + 1] == before + [c];
      assert bufp.buffer[pending] == bufp.buffer[..b + 1][pending] == before[pending];
      bufp.buffer[pending] := bufp.buffer[pending] + 1;
      assert bufp.buffer[..b + 1] == (before + [c])[pending := before[pending] + 1];
    }
  }

  /** The normal_char case (regex.c:1999-2029): the character joins the exactn being
      built, or starts a new one. */
  method EmitChar(bufp: PatternBuffer, b: nat, c: byte, pending: int, next: byte)
    returns (ok: bool, b': nat, pending': int, started: bool)
    requires b <= bufp.buffer.Length && 0 < bufp.buffer.Length <= MAX_BUF_SIZE
    requires pending == NONE || 0 <= pending < b
    modifies bufp`buffer, bufp.buffer
    ensures bufp.buffer == old(bufp.buffer) || fresh(bufp.buffer)
    ensures 0 < bufp.buffer.Length <= MAX_BUF_SIZE && (!ok ==> b + 3 > MAX_BUF_SIZE)
    ensures started <==> StartsNew(old(bufp.Written(b)), pending, next)
    ensures ok ==> b' <= bufp.buffer.Length && bufp.Written(b') == AfterChar(old(bufp.Written(b)), c, pending, next)
    ensures ok ==> pending' == if started then b + 1 else pending
  {
    pending', b' := pending, b;
    var count: int := if pending == NONE then 0 else bufp.buffer[pending];
    started := pending == NONE || pending + count + 1 != b || count == 255 || IsOpChar(next) || next == CARET ||
      next == LBRACE;
    ghost var before := bufp.Written(b);
    if started {
      ok := StartExactn(bufp, b);
      if !ok { return; }
      b', pending' := b + 2, b + 1;
      assert bufp.buffer[b + 1] == bufp.Written(b + 2)[b + 1] == 0;
    }
    ok := ExtendExactn(bufp, b', c, pending');
    if started { assert (before + [EXACTN, 0])[b + 1 := 1] + [c] == before + [EXACTN, 1, c]; }
    b' := b' + 1;
  }

  /** Whether a character starts a new exactn rather than joining the pending one. */
  predicate StartsNew(code: seq<byte>, pending: int, next: byte)
    requires pending == NONE || 0 <= pending < |code|
  {
    pending == NONE || pending + code[pending] + 1 != |code| || code[pending] == 255 ||
    IsOpChar(next) || next == CARET || next == LBRACE
  }

  function AfterChar(code: seq<byte>, c: byte, pending: int, next: byte): seq<byte>
    requires pending == NONE || 0 <= pending < |code|
  {
    if StartsNew(code, pending, next) then code + [EXACTN, 1, c] else code[pending := code[pending] + 1] + [c]
  }

  // ----- The state of the compiler between two turns of its loop -----

  lemma PlainPrefix(alts: seq<seq<Piece>>, k: nat)
    requires PlainAlts(alts) && k <= |alts|
    ensures PlainAlts(alts[..k])
  {
    forall j | 0 <= j < k ensures alts[..k][j] != [] && PlainPieces(alts[..k][j]) { assert PlainPieces(alts[j]); }
  }

  /** The closed alternatives up to the room left for the jump after the last one. */
  function ClosedOpen(alts: seq<seq<Piece>>): seq<byte>
    requires PlainAlts(alts) && alts != []
  {
    PlainInit(alts);
    var body := PiecesCode(alts[|alts| - 1]);
    ClosedCode(alts[..|alts| - 1], 3 + |body|) + (JumpCode(ON_FAILURE_JUMP, |body| + 3) + body)
  }

  lemma ClosedOpenFilled(alts: seq<seq<Piece>>, leave: int)
    requires PlainAlts(alts) && alts != []
    ensures ClosedOpen(alts) + JumpCode(JUMP_PAST_ALT, leave) == ClosedCode(alts, leave)
  {
    PlainInit(alts);
    hide PiecesCode, JumpCode;
    var last := alts[|alts| - 1];
    Assoc(ClosedCode(alts[..|alts| - 1], 3 + |PiecesCode(last)|),
      JumpCode(ON_FAILURE_JUMP, |PiecesCode(last)| + 3) + PiecesCode(last),
          JumpCode(JUMP_PAST_ALT, leave));
  }

  ghost predicate FrontOk(front: seq<byte>, alts: seq<seq<Piece>>, k: nat, fixup: int) {
    PlainAlts(alts) && k <= |alts| && PlainAlts(alts[..k]) &&
    if k == 0 then front == [] && fixup == NONE
    else fixup >= 0 && |front| == fixup + 3 && front[..fixup] == ClosedOpen(alts[..k])
  }

  /** pending_exact points at the count of the last piece if that is a run, and at
      one that can no longer grow otherwise. */
  predicate PendingOk(code: seq<byte>, pending: int, ps: seq<Piece>) {
    (pending == NONE || 0 <= pending < |code|) &&
    if ps != [] && ps[|ps| - 1].Run? then pending == |code| - |ps[|ps| - 1].bytes| - 1
    else pending == NONE || pending + code[pending] + 1 < |code|
  }

  ghost predicate Compiling(pat: Pattern, s: Spot, code: seq<byte>, begalt: nat, laststart: int, pending: int,
                            fixup: int) {
    SpotOk(pat, s) && PlainPieces(Pieces(pat[s.k][..s.i])) && PlainPieces(OpenPieces(pat, s)) &&
    begalt <= |code| && FrontOk(code[..begalt], AltPieces(pat), s.k, fixup) &&
    code[begalt..] == PiecesCode(OpenPieces(pat, s)) && PendingOk(code, pending, OpenPieces(pat, s)) &&
    (s.mid ==> laststart == begalt + |PiecesCode(Pieces(pat[s.k][..s.i]))|)
  }

  lemma CompilingStarts(pat: Pattern)
    requires Modelled(pat)
    ensures Compiling(pat, Spot(0, 0, false), [], 0, NONE, NONE, NONE)
  {
    assert pat[0][..0] == [];
    CompiledWellFormed(pat);
    PlainPrefix(AltPieces(pat), 0);
  }

  lemma PiecesCodeSnoc(ps: seq<Piece>, p: Piece)
    requires PlainPieces(ps) && PlainPiece(p)
    ensures PlainPieces(ps + [p]) && PiecesCode(ps + [p]) == PiecesCode(ps) + PieceCode(p)
  {
    hide PieceCode;
    assert (ps + [p])[..|ps|] == ps && (ps + [p])[|ps|] == p;
  }

  lemma RawCode(a: SrcAtom)
    ensures PlainPiece(Raw(a)) && PieceCode(Raw(a)) == AtomCode(AtomOf(a))
    ensures !a.Char? ==> |AtomCode(AtomOf(a))| > 0
  {
  }

  /** Appending to the open alternative leaves the closed ones alone. */
  lemma FrontKept(code: seq<byte>, more: seq<byte>, begalt: nat)
    requires begalt <= |code|
    ensures (code + more)[..begalt] == code[..begalt] && (code + more)[begalt..] == code[begalt..] + more
  {
  }

  /** The spot after the atom of item `i`. */
  function AfterAtom(pat: Pattern, k: nat, i: nat): Spot
    requires k < |pat| && i < |pat[k]|
  {
    if pat[k][i].ops == [] then Spot(k, i + 1, false) else Spot(k, i, true)
  }

  predicate JoinsRun(pat: Pattern, s: Spot)
    requires SpotOk(pat, s) && s.i < |pat[s.k]|
  {
    pat[s.k][s.i].ops == [] && pat[s.k][s.i].atom.Char? && OpenRun(OpenPieces(pat, s))
  }

  lemma PiecesAfterAtom(pat: Pattern, s: Spot)
    requires SpotOk(pat, s) && !s.mid && s.i < |pat[s.k]|
    ensures !JoinsRun(pat, s) ==>
      OpenPieces(pat, AfterAtom(pat, s.k, s.i)) == OpenPieces(pat, s) + [Raw(pat[s.k][s.i].atom)]
    ensures JoinsRun(pat, s) ==>
      var ps := OpenPieces(pat, s);
      OpenPieces(pat, AfterAtom(pat, s.k, s.i)) == ps[..|ps| - 1] + [Run(ps[|ps| - 1].bytes + [pat[s.k][s.i].atom.c])]
  {
    hide Pieces;
    var items, ps := pat[s.k], Pieces(pat[s.k][..s.i]);
    PiecesStep(items, s.i);
    assert ps + [] == ps && OpenPieces(pat, s) == ps;
    if items[s.i].ops == [] { assert OpenPieces(pat, Spot(s.k, s.i + 1, false)) == AddItem(ps, items[s.i]); }
  }

  /** An atom written on its own is the next piece. */
  lemma AppendAtomKeeps(pat: Pattern, s: Spot, code: seq<byte>, begalt: nat, laststart: int, pending: int, fixup: int,
                        pending': int)
    requires Compiling(pat, s, code, begalt, laststart, pending, fixup) && !s.mid && s.i < |pat[s.k]| &&
      !JoinsRun(pat, s)
    requires pending' == if pat[s.k][s.i].atom.Char? then |code| + 1 else pending
    ensures Compiling(pat, AfterAtom(pat, s.k, s.i), code + AtomCode(AtomOf(pat[s.k][s.i].atom)), begalt, |code|,
      pending', fixup)
  {
    hide AtomCode, PiecesCode, FrontOk, Pieces, PieceCode;
    var a := pat[s.k][s.i].atom;
    var ps := OpenPieces(pat, s);
    PiecesAfterAtom(pat, s);
    RawCode(a);
    PiecesCodeSnoc(ps, Raw(a));
    OpenPlain(pat, AfterAtom(pat, s.k, s.i));
    FrontKept(code, AtomCode(AtomOf(a)), begalt);
    if ps != [] && ps[|ps| - 1].Run? { LastRun(code, begalt, ps); }
    PendingAfterAppend(code, AtomCode(AtomOf(a)), pending, ps, a);
    if pat[s.k][s.i].ops != [] { assert ps == Pieces(pat[s.k][..s.i]); }
  }

  lemma PendingAfterAppend(code: seq<byte>, more: seq<byte>, pending: int, ps: seq<Piece>, a: SrcAtom)
    requires PendingOk(code, pending, ps) && more == AtomCode(AtomOf(a)) && |more| > 0
    requires ps != [] && ps[|ps| - 1].Run? ==> pending >= 0 && code[pending] == |ps[|ps| - 1].bytes|
    ensures PendingOk(code + more, if a.Char? then |code| + 1 else pending, ps + [Raw(a)])
  {
    assert (ps + [Raw(a)])[|ps|] == Raw(a);
    if !a.Char? && pending != NONE { assert (code + more)[pending] == code[pending]; }
  }

  /** The bytes of a run that ends the code. */
  lemma LastRun(code: seq<byte>, begalt: nat, ps: seq<Piece>)
    requires begalt <= |code| && PlainPieces(ps) && ps != [] && ps[|ps| - 1].Run? && code[begalt..] == PiecesCode(ps)
    ensures var n := |ps[|ps| - 1].bytes|;
      1 <= n <= 255 && begalt <= |code| - n - 2 && code[|code| - n - 1] == n &&
      code[begalt..] == PiecesCode(ps[..|ps| - 1]) + [EXACTN, n] + ps[|ps| - 1].bytes
  {
    var init, last := ps[..|ps| - 1], ps[|ps| - 1];
    assert PlainPiece(last) && last.Run?;
    var n, front := |last.bytes|, PiecesCode(init);
    assert code[begalt..] == front + ([EXACTN, n] + last.bytes);
    hide PiecesCode;
    Assoc(front, [EXACTN, n], last.bytes);
    assert code[begalt..][|front| + 1] == n;
  }

  /** A character that joins the run before it makes that run one longer. */
  lemma JoinRunKeeps(pat: Pattern, s: Spot, code: seq<byte>, begalt: nat, laststart: int, pending: int, fixup: int)
    requires Compiling(pat, s, code, begalt, laststart, pending, fixup) && !s.mid && s.i < |pat[s.k]| &&
      JoinsRun(pat, s)
    ensures 0 <= pending < |code| && code[pending] < 255 && pending + code[pending] + 1 == |code|
    ensures Compiling(pat, AfterAtom(pat, s.k, s.i), code[pending := code[pending] + 1] + [pat[s.k][s.i].atom.c],
                      begalt, laststart, pending, fixup)
  {
    hide PiecesCode, FrontOk, Pieces;
    var ps, c := OpenPieces(pat, s), pat[s.k][s.i].atom.c;
    var init, bytes := ps[..|ps| - 1], ps[|ps| - 1].bytes;
    LastRun(code, begalt, ps);
    PiecesAfterAtom(pat, s);
    OpenPlain(pat, AfterAtom(pat, s.k, s.i));
    PiecesCodeSnoc(init, Run(bytes + [c]));
    RaiseCount(code, begalt, PiecesCode(init), bytes, c);
  }

  lemma RaiseCount(code: seq<byte>, begalt: nat, front: seq<byte>, bytes: seq<byte>, c: byte)
    requires begalt <= |code| && |bytes| < 255 && code[begalt..] == front + [EXACTN, |bytes|] + bytes
    ensures var pending := |code| - |bytes| - 1;
      begalt <= pending < |code| && var code' := code[pending := |bytes| + 1] + [c];
      code'[..begalt] == code[..begalt] && code'[begalt..] == front + ([EXACTN, |bytes| + 1] + (bytes + [c]))
  {
    var pending := |code| - |bytes| - 1;
    var code' := code[pending := |bytes| + 1] + [c];
    var at := |front| + 1;
    assert code'[begalt..] == code[begalt..][at := |bytes| + 1] + [c];
  }

  // ----- Operators -----

  /** Applying the collapsed operators to the atom just written completes the item. */
  lemma RepeatKeeps(pat: Pattern, s: Spot, code: seq<byte>, begalt: nat, laststart: int, pending: int, fixup: int,
                    code': seq<byte>)
    requires Compiling(pat, s, code, begalt, laststart, pending, fixup) && s.mid
    requires begalt <= laststart <= |code| &&
      code' == code[..laststart] + RepCode(Collapse(pat[s.k][s.i].ops), AtomOf(pat[s.k][s.i].atom))
    ensures Compiling(pat, Spot(s.k, s.i + 1, false), code', begalt, laststart, NONE, fixup)
  {
    hide PiecesCode, FrontOk, Pieces, RepCode;
    var item := pat[s.k][s.i];
    var ps, rep := Pieces(pat[s.k][..s.i]), Rep(Collapse(item.ops), AtomOf(item.atom));
    PiecesStep(pat[s.k], s.i);
    OpenPlain(pat, Spot(s.k, s.i + 1, false));
    PiecesCodeSnoc(ps, rep);
    MidCode(pat, s, code, begalt, laststart, pending, fixup);
    assert code[..laststart][..begalt] == code[..begalt] && code[..laststart][begalt..] == PiecesCode(ps);
    FrontKept(code[..laststart], RepCode(rep.op, rep.atom), begalt);
    assert OpenPieces(pat, Spot(s.k, s.i + 1, false)) == ps + [rep];
  }

  /** Between an atom and its operators the code ends with the atom, which starts at laststart. */
  lemma MidCode(pat: Pattern, s: Spot, code: seq<byte>, begalt: nat, laststart: int, pending: int, fixup: int)
    requires Compiling(pat, s, code, begalt, laststart, pending, fixup) && s.mid
    ensures begalt <= laststart <= |code| && code[laststart..] == AtomCode(AtomOf(pat[s.k][s.i].atom))
    ensures code[begalt..laststart] == PiecesCode(Pieces(pat[s.k][..s.i]))
  {
    hide PiecesCode, FrontOk, Pieces, PieceCode, AtomCode;
    var ps, a := Pieces(pat[s.k][..s.i]), pat[s.k][s.i].atom;
    RawCode(a);
    PiecesCodeSnoc(ps, Raw(a));
    SplitTail(code, begalt, PiecesCode(ps), AtomCode(AtomOf(a)));
  }

  lemma SplitTail(code: seq<byte>, begalt: nat, left: seq<byte>, right: seq<byte>)
    requires begalt <= |code| && code[begalt..] == left + right
    ensures code[begalt..begalt + |left|] == left && code[begalt + |left|..] == right
  {
    assert code[begalt..begalt + |left|] == code[begalt..][..|left|] &&
      code[begalt + |left|..] == code[begalt..][|left|..];
  }

  // ----- Alternatives -----

  /** The alternative just ended goes behind a fork, the jump before it learns where
      this one's jump is, and a new alternative opens. */
  lemma BarKeeps(pat: Pattern, k: nat, code: seq<byte>, begalt: nat, laststart: int, pending: int, fixup: int,
                 code': seq<byte>)
    requires Modelled(pat) && k + 1 < |pat| &&
      Compiling(pat, Spot(k, |pat[k]|, false), code, begalt, laststart, pending, fixup)
    requires var body := code[begalt..];
      |code'| == |code| + 6 &&
      code'[..|code| + 3] == (if k == 0 then [] else code[..fixup] + JumpCode(JUMP_PAST_ALT, 3 + |body|)) +
                             (JumpCode(ON_FAILURE_JUMP, |body| + 3) + body)
    ensures Compiling(pat, Spot(k + 1, 0, false), code', |code'|, NONE, NONE, |code| + 3)
  {
    hide PiecesCode, JumpCode, Pieces, ClosedCode;
    var alts, body := AltPieces(pat), code[begalt..];
    CompiledWellFormed(pat);
    PlainPrefix(alts, k + 1);
    PlainPrefix(alts, k);
    assert pat[k][..|pat[k]|] == pat[k] && OpenPieces(pat, Spot(k, |pat[k]|, false)) == alts[k];
    assert alts[..k + 1][..k] == alts[..k] && alts[..k + 1][k] == alts[k];
    if k > 0 {
      ClosedOpenFilled(alts[..k], 3 + |body|);
      assert code[..begalt][..fixup] == code[..fixup];
    }
    ClosedNothing(3 + |body|);
    assert code'[..|code| + 3] == ClosedOpen(alts[..k + 1]);
    assert code'[..|code'|] == code' && code'[|code'|..] == [];
    var t := Spot(k + 1, 0, false);
    NoPieces();
    assert pat[k + 1][..0] == [] && OpenPieces(pat, t) == [];
    assert FrontOk(code'[..|code'|], alts, k + 1, |code| + 3);
  }

  lemma NoPieces()
    ensures Pieces([]) == [] && PiecesCode([]) == []
  {
  }

  lemma ClosedNothing(leave: int)
    ensures PlainAlts([]) && ClosedCode([], leave) == []
  {
  }

  // ----- The code never outgrows its final size -----

  lemma AddItemGrows(ps: seq<Piece>, item: Item)
    requires PlainPieces(ps)
    ensures PlainPieces(AddItem(ps, item)) && |PiecesCode(AddItem(ps, item))| > |PiecesCode(ps)|
    ensures item.ops != [] ==> |PiecesCode(AddItem(ps, item))| >= |PiecesCode(ps)| + |PieceCode(Raw(item.atom))|
  {
    AddItemPlain(ps, item);
    hide PiecesCode;
    RawCode(item.atom);
    if item.ops != [] {
      PiecesCodeSnoc(ps, Rep(Collapse(item.ops), AtomOf(item.atom)));
    } else if !item.atom.Char? {
      PiecesCodeSnoc(ps, One(AtomOf(item.atom)));
    } else if OpenRun(ps) {
      var init, last := ps[..|ps| - 1], ps[|ps| - 1];
      assert PlainPiece(last) && ps == init + [last];
      PiecesCodeSnoc(init, last);
      PiecesCodeSnoc(init, Run(last.bytes + [item.atom.c]));
    } else {
      PiecesCodeSnoc(ps, Run([item.atom.c]));
    }
  }

  lemma {:induction false} PiecesGrow(items: seq<Item>, i: nat, j: nat)
    requires i <= j <= |items|
    ensures PlainPieces(Pieces(items[..i])) && PlainPieces(Pieces(items[..j]))
    ensures |PiecesCode(Pieces(items[..i]))| <= |PiecesCode(Pieces(items[..j]))|
    decreases j
  {
    hide PiecesCode, PlainPieces, Pieces, AddItem, PieceCode, Raw;
    PiecesPlain(items[..i]);
    PiecesPlain(items[..j]);
    if i < j {
      PiecesGrow(items, i, j - 1);
      PiecesStep(items, j - 1);
      AddItemGrows(Pieces(items[..j - 1]), items[j - 1]);
    }
  }

  lemma {:induction false} CodeBaseGrows(alts: seq<seq<Piece>>, k: nat)
    requires PlainAlts(alts) && k < |alts| && PlainPieces(alts[k])
    ensures CodeBase(alts, k) + |PiecesCode(alts[k])| <= |AltsCode(alts)|
    decreases |alts| - k
  {
    hide PiecesCode, AltsCode, PlainAlts, PlainPieces;
    if k + 1 < |alts| {
      PlainAt(alts, k + 1);
      CodeBaseGrows(alts, k + 1);
      assert CodeBase(alts, k + 1) == CodeBase(alts, k) + |PiecesCode(alts[k])| + 6;
    } else {
      LastCoded(alts);
    }
  }

  lemma FrontLength(front: seq<byte>, alts: seq<seq<Piece>>, k: nat, fixup: int)
    requires FrontOk(front, alts, k, fixup)
    ensures |front| == CodeBase(alts, k)
  {
    hide PiecesCode, JumpCode;
    if k > 0 {
      ClosedOpenFilled(alts[..k], 0);
      ClosedCodeLength(alts[..k], 0);
      CodeBasePrefix(alts, alts[..k], k);
    }
  }

  lemma OpenPiecesFit(pat: Pattern, s: Spot)
    requires SpotOk(pat, s)
    ensures PlainPieces(OpenPieces(pat, s)) && PlainPieces(Pieces(pat[s.k]))
    ensures |PiecesCode(OpenPieces(pat, s))| <= |PiecesCode(Pieces(pat[s.k]))|
  {
    hide PiecesCode, Pieces, PieceCode, AddItem, Raw, PlainPieces;
    var items := pat[s.k];
    OpenPlain(pat, s);
    assert items[..|items|] == items;
    PiecesGrow(items, if s.mid then s.i + 1 else s.i, |items|);
    if s.mid {
      PiecesStep(items, s.i);
      AddItemGrows(Pieces(items[..s.i]), items[s.i]);
      RawCode(items[s.i].atom);
      PiecesCodeSnoc(Pieces(items[..s.i]), Raw(items[s.i].atom));
    } else {
      assert OpenPieces(pat, s) == Pieces(items[..s.i]);
    }
  }

  lemma CompilingFits(pat: Pattern, s: Spot, code: seq<byte>, begalt: nat, laststart: int, pending: int, fixup: int)
    requires Modelled(pat) && Compiling(pat, s, code, begalt, laststart, pending, fixup)
    ensures |code| <= |PatternCode(pat)|
  {
    hide PiecesCode, Pieces, AltsCode, CodeBase, FrontOk, PendingOk;
    CompiledWellFormed(pat);
    var alts := AltPieces(pat);
    PlainAt(alts, s.k);
    FrontLength(code[..begalt], alts, s.k, fixup);
    OpenPiecesFit(pat, s);
    CodeBaseGrows(alts, s.k);
  }

  // ----- The end of the pattern -----

  /** With the last jump filled in, the buffer is the code of the pattern. */
  lemma FinishGives(pat: Pattern, k: nat, code: seq<byte>, begalt: nat, laststart: int, pending: int, fixup: int)
    requires Modelled(pat) && k + 1 == |pat| &&
      Compiling(pat, Spot(k, |pat[k]|, false), code, begalt, laststart, pending, fixup)
    ensures k == 0 ==> fixup == NONE && code == PatternCode(pat)
    ensures k > 0 ==> 0 <= fixup && fixup + 3 == begalt <= |code|
    ensures k > 0 ==>
      PatternCode(pat) == code[..fixup] + JumpCode(JUMP_PAST_ALT, |code| - fixup - 3) + code[fixup + 3..]
  {
    hide PiecesCode, JumpCode, Pieces, ClosedCode;
    var alts, body := AltPieces(pat), code[begalt..];
    CompiledWellFormed(pat);
    assert pat[k][..|pat[k]|] == pat[k] && OpenPieces(pat, Spot(k, |pat[k]|, false)) == alts[k];
    assert alts[..|alts| - 1] == alts[..k] && alts[|alts| - 1] == alts[k];
    ClosedNothing(|body|);
    if k > 0 {
      ClosedOpenFilled(alts[..k], |body|);
      assert code[..begalt][..fixup] == code[..fixup];
    } else {
      assert code == body;
    }
  }

  // ----- The loop over the pattern -----

  /** A `*`, `+` or `?` (regex.c:1211-1341). */
  method TurnOps(bufp: PatternBuffer, b: nat, pattern: seq<byte>, p: nat, begalt: nat, laststart: int,
                 ghost pending: int, ghost fixup: int, ghost pat: Pattern, ghost s: Spot)
    returns (ok: bool, b': nat, p': nat)
    requires b <= bufp.buffer.Length && 0 < bufp.buffer.Length <= MAX_BUF_SIZE
    requires Modelled(pat) && Compiling(pat, s, bufp.Written(b), begalt, laststart, pending, fixup)
    requires p <= |pattern| && pattern[p..] == RestText(pat, s) && s.mid
    modifies bufp`buffer, bufp.buffer
    ensures bufp.buffer == old(bufp.buffer) || fresh(bufp.buffer)
    ensures 0 < bufp.buffer.Length <= MAX_BUF_SIZE
    ensures !ok ==> |PatternCode(pat)| + 34 > MAX_BUF_SIZE
    ensures ok ==>
      p < p' <= |pattern| && pattern[p'..] == RestText(pat, Spot(s.k, s.i + 1, false)) && b' <= bufp.buffer.Length
    ensures ok ==> Compiling(pat, Spot(s.k, s.i + 1, false), bufp.Written(b'), begalt, laststart, NONE, fixup)
  {
    hide PatternCode, PiecesCode, AtomCode, RepCode, FrontOk, PendingOk;
    ghost var code := bufp.Written(b);
    ghost var item := pat[s.k][s.i];
    ghost var after := Spot(s.k, s.i + 1, false);
    CompilingFits(pat, s, code, begalt, laststart, pending, fixup);
    MidCode(pat, s, code, begalt, laststart, pending, fixup);
    NextChar(pat, after);
    var zeroTimesOk, manyTimesOk;
    p', zeroTimesOk, manyTimesOk := ReadOps(pattern, p, item.ops, RestText(pat, after));
    assert code == code[..laststart] + code[laststart..];
    SomeFlag(item.ops);
    ok, b' := EmitRepeat(bufp, b, laststart, zeroTimesOk, manyTimesOk, code[..laststart], AtomOf(item.atom));
    if ok {
      RepeatKeeps(pat, s, code, begalt, laststart, pending, fixup, bufp.Written(b'));
    }
  }

  lemma SomeFlag(ops: seq<Op>)
    requires ops != []
    ensures ZeroOk(ops) || ManyOk(ops)
  {
    assert ops[0] != PlusOp || ops[0] != OptOp;
  }

  /** A character, after an optional backslash (regex.c:1986-2029). */
  method TurnChar(bufp: PatternBuffer, b: nat, c: byte, next: byte, pending: int, laststart: int,
                  ghost begalt: nat, ghost fixup: int, ghost pat: Pattern, ghost s: Spot)
    returns (ok: bool, b': nat, laststart': int, pending': int)
    requires b <= bufp.buffer.Length && 0 < bufp.buffer.Length <= MAX_BUF_SIZE
    requires Modelled(pat) && Compiling(pat, s, bufp.Written(b), begalt, laststart, pending, fixup)
    requires !s.mid && s.i < |pat[s.k]| && pat[s.k][s.i].atom.Char? && pat[s.k][s.i].atom.c == c
    requires (IsOpChar(next) <==> pat[s.k][s.i].ops != []) && next != CARET && next != LBRACE
    modifies bufp`buffer, bufp.buffer
    ensures bufp.buffer == old(bufp.buffer) || fresh(bufp.buffer)
    ensures 0 < bufp.buffer.Length <= MAX_BUF_SIZE
    ensures !ok ==> |PatternCode(pat)| + 34 > MAX_BUF_SIZE
    ensures ok ==> b' <= bufp.buffer.Length
    ensures ok ==> Compiling(pat, AfterAtom(pat, s.k, s.i), bufp.Written(b'), begalt, laststart', pending', fixup)
  {
    hide PatternCode, PiecesCode, FrontOk, Pieces;
    ghost var code := bufp.Written(b);
    CompilingFits(pat, s, code, begalt, laststart, pending, fixup);
    StartsNewExactly(pat, s, code, begalt, laststart, pending, fixup, next);
    var started;
    ok, b', pending', started := EmitChar(bufp, b, c, pending, next);
    laststart' := if started then b else laststart;
    if ok {
      if started {
        AppendAtomKeeps(pat, s, code, begalt, laststart, pending, fixup, pending');
      } else {
        JoinRunKeeps(pat, s, code, begalt, laststart, pending, fixup);
      }
    }
  }

  lemma StartsNewExactly(pat: Pattern, s: Spot, code: seq<byte>, begalt: nat, laststart: int, pending: int,
                         fixup: int, next: byte)
    requires Compiling(pat, s, code, begalt, laststart, pending, fixup)
    requires !s.mid && s.i < |pat[s.k]| && pat[s.k][s.i].atom.Char?
    requires (IsOpChar(next) <==> pat[s.k][s.i].ops != []) && next != CARET && next != LBRACE
    ensures StartsNew(code, pending, next) <==> !JoinsRun(pat, s)
  {
    hide PiecesCode, FrontOk, Pieces;
    var ps := OpenPieces(pat, s);
    if ps != [] && ps[|ps| - 1].Run? { LastRun(code, begalt, ps); }
  }

  /** A `.` or a bracket set: the atom is pushed at laststart (regex.c:1344-1526). */
  method TurnSet(bufp: PatternBuffer, b: nat, pattern: seq<byte>, p: nat, pending: int, ghost laststart: int,
                 ghost begalt: nat, ghost fixup: int, ghost pat: Pattern, ghost s: Spot)
    returns (ok: bool, b': nat, p': nat)
    requires b <= bufp.buffer.Length && 0 < bufp.buffer.Length <= MAX_BUF_SIZE
    requires Modelled(pat) && Compiling(pat, s, bufp.Written(b), begalt, laststart, pending, fixup)
    requires !s.mid && s.i < |pat[s.k]| && !pat[s.k][s.i].atom.Char?
    requires p < |pattern| && pattern[p..] == AtomText(pat[s.k][s.i].atom) + RestText(pat, AfterAtom(pat, s.k, s.i))
    modifies bufp`buffer, bufp.buffer
    ensures bufp.buffer == old(bufp.buffer) || fresh(bufp.buffer)
    ensures 0 < bufp.buffer.Length <= MAX_BUF_SIZE
    ensures !ok ==> |PatternCode(pat)| + 34 > MAX_BUF_SIZE
    ensures ok ==>
      p < p' <= |pattern| && pattern[p'..] == RestText(pat, AfterAtom(pat, s.k, s.i)) && b' <= bufp.buffer.Length
    ensures ok ==> Compiling(pat, AfterAtom(pat, s.k, s.i), bufp.Written(b'), begalt, b, pending, fixup)
  {
    hide PatternCode, PiecesCode, FrontOk, Pieces, PendingOk, RestText;
    ghost var code := bufp.Written(b);
    ghost var a := pat[s.k][s.i].atom;
    ghost var rest := RestText(pat, AfterAtom(pat, s.k, s.i));
    CompilingFits(pat, s, code, begalt, laststart, pending, fixup);
    AppendAtomKeeps(pat, s, code, begalt, laststart, pending, fixup, pending);
    SetOpens(pattern, p, a, rest);
    if pattern[p] == DOT {
      ok := bufp.Push(b, ANYCHAR);
      b', p' := b + 1, p + 1;
    } else {
      assert ItemsModelled(pat[s.k]);
      ok, b', p' := CompileBracket(bufp, b, pattern, p + 1, a.negated, a.elems, rest);
    }
  }

  lemma SetOpens(pattern: seq<byte>, p: nat, a: SrcAtom, rest: seq<byte>)
    requires p < |pattern| && !a.Char? && pattern[p..] == AtomText(a) + rest
    ensures pattern[p] == DOT <==> a.Dot?
    ensures a.Dot? ==> pattern[p + 1..] == rest && AtomCode(AtomOf(a)) == [ANYCHAR]
    ensures a.Bracket? ==> pattern[p] == LBRACKET
    ensures a.Bracket? ==> pattern[p + 1..] == (if a.negated then [CARET] else []) + BracketRest(a.elems, 0, rest)
  {
    hide ElemsText;
    assert pattern[p] == pattern[p..][0] && pattern[p + 1..] == pattern[p..][1..];
    if a.Bracket? {
      assert a.elems[0..] == a.elems;
      AfterOpening(if a.negated then [CARET] else [], ElemsText(a.elems), rest);
    }
  }

  lemma AfterOpening(mark: seq<byte>, inner: seq<byte>, rest: seq<byte>)
    ensures ([LBRACKET] + mark + inner + [RBRACKET] + rest)[1..] == mark + (inner + [RBRACKET] + rest)
  {
  }

  /** The jumps that a `|` puts around the alternative before it (regex.c:1698-1727). */
  method EmitBar(bufp: PatternBuffer, b: nat, begalt: nat, fixup: int) returns (ok: bool)
    requires begalt <= b <= bufp.buffer.Length && 0 < bufp.buffer.Length <= MAX_BUF_SIZE
    requires fixup == NONE || 0 <= fixup == begalt - 3
    modifies bufp`buffer, bufp.buffer
    ensures bufp.buffer == old(bufp.buffer) || fresh(bufp.buffer)
    ensures 0 < bufp.buffer.Length <= MAX_BUF_SIZE && (!ok ==> b + 6 > MAX_BUF_SIZE)
    ensures ok ==> b + 6 <= bufp.buffer.Length
    ensures ok ==> bufp.Written(b + 6)[..b + 3] == BarCode(old(bufp.Written(b)), begalt, fixup)
  {
    hide JumpCode;
    ghost var code := bufp.Written(b);
    ok := bufp.InsertJump(b, ON_FAILURE_JUMP, begalt, (b + 6) - begalt - 3);
    if !ok { return; }
    ghost var fork := JumpCode(ON_FAILURE_JUMP, |code[begalt..]| + 3) + code[begalt..];
    Assoc(code[..begalt], JumpCode(ON_FAILURE_JUMP, |code[begalt..]| + 3), code[begalt..]);
    if fixup != NONE {
      bufp.FillJump(b + 3, JUMP_PAST_ALT, fixup, (b + 3) - fixup - 3);
      FillHole(code[..begalt], fork, fixup, JumpCode(JUMP_PAST_ALT, b - fixup));
      assert code[..begalt][..fixup] == code[..fixup];
    }
    ghost var filled := bufp.Written(b + 3);
    ok := bufp.GetBufferSpace(b + 3, 3);
    if ok { assert bufp.Written(b + 6)[..b + 3] == bufp.Written(b + 3) == filled; }
  }

  function BarCode(code: seq<byte>, begalt: nat, fixup: int): seq<byte>
    requires begalt <= |code| && (fixup == NONE || 0 <= fixup == begalt - 3)
  {
    var body := code[begalt..];
    (if fixup == NONE then code[..begalt] else code[..fixup] + JumpCode(JUMP_PAST_ALT, |code| - fixup)) +
    (JumpCode(ON_FAILURE_JUMP, |body| + 3) + body)
  }

  /** A `|` (regex.c:1692-1731). */
  method TurnBar(bufp: PatternBuffer, b: nat, begalt: nat, fixup: int,
                 ghost laststart: int, ghost pending: int, ghost pat: Pattern, ghost k: nat)
    returns (ok: bool, b': nat)
    requires b <= bufp.buffer.Length && 0 < bufp.buffer.Length <= MAX_BUF_SIZE
    requires Modelled(pat) && k + 1 < |pat|
    requires Compiling(pat, Spot(k, |pat[k]|, false), bufp.Written(b), begalt, laststart, pending, fixup)
    modifies bufp`buffer, bufp.buffer
    ensures bufp.buffer == old(bufp.buffer) || fresh(bufp.buffer)
    ensures 0 < bufp.buffer.Length <= MAX_BUF_SIZE
    ensures !ok ==> |PatternCode(pat)| + 34 > MAX_BUF_SIZE
    ensures ok ==> b' == b + 6 <= bufp.buffer.Length
    ensures ok ==> Compiling(pat, Spot(k + 1, 0, false), bufp.Written(b'), b', NONE, NONE, b + 3)
  {
    hide PatternCode, PiecesCode, Pieces, PendingOk, JumpCode, ClosedOpen;
    b' := b + 6;
    ghost var code := bufp.Written(b);
    CompilingFits(pat, Spot(k, |pat[k]|, false), code, begalt, laststart, pending, fixup);
    ok := EmitBar(bufp, b, begalt, fixup);
    if ok {
      BarKeeps(pat, k, code, begalt, laststart, pending, fixup, bufp.Written(b'));
    }
  }

  lemma FillHole(front: seq<byte>, tail: seq<byte>, fixup: nat, jump: seq<byte>)
    requires fixup + 3 == |front| && |jump| == 3
    ensures (front + tail)[..fixup] + jump + (front + tail)[fixup + 3..] == front[..fixup] + jump + tail
  {
  }

  /** What the character at an item is, and what follows its atom. */
  predicate CharAtItem(pattern: seq<byte>, p: nat, pat: Pattern, s: Spot)
    requires SpotOk(pat, s) && s.i < |pat[s.k]|
  {
    var a, rest := pat[s.k][s.i].atom, RestText(pat, AfterAtom(pat, s.k, s.i));
    p < |pattern| && pattern[p..] == AtomText(a) + rest && pattern[p] != BAR &&
    (a.Char? <==> pattern[p] != DOT && pattern[p] != LBRACKET) &&
    (a.Char? ==>
       (pattern[p] == BACKSLASH <==> a.escaped) &&
       var q := if a.escaped then p + 2 else p + 1;
       q <= |pattern| && pattern[q - 1] == a.c && pattern[q..] == rest)
  }

  lemma ItemOpens(pattern: seq<byte>, p: nat, pat: Pattern, s: Spot)
    requires Modelled(pat) && SpotOk(pat, s) && !s.mid && s.i < |pat[s.k]|
    requires p <= |pattern| && pattern[p..] == RestText(pat, s)
    ensures CharAtItem(pattern, p, pat, s)
  {
    hide RestText;
    var a, rest := pat[s.k][s.i].atom, RestText(pat, AfterAtom(pat, s.k, s.i));
    RestAtItem(pat, s.k, s.i);
    assert ItemsModelled(pat[s.k]) && AtomModelled(a);
    AtomOpens(a);
    assert pattern[p] == pattern[p..][0] == AtomText(a)[0];
    if a.Char? {
      var q := if a.escaped then p + 2 else p + 1;
      assert pattern[q - 1] == pattern[p..][q - 1 - p] && pattern[q..] == pattern[p..][q - p..];
    }
  }

  lemma AfterCharNext(pattern: seq<byte>, q: nat, pat: Pattern, s: Spot)
    requires Modelled(pat) && SpotOk(pat, s) && q <= |pattern| && pattern[q..] == RestText(pat, s)
    ensures var next := Peek(pattern, q); (IsOpChar(next) <==> s.mid) && next != CARET && next != LBRACE
  {
    hide RestText;
    NextChar(pat, s);
    if q < |pattern| { assert pattern[q] == pattern[q..][0]; }
  }

  lemma BarOpens(pattern: seq<byte>, p: nat, pat: Pattern, k: nat)
    requires Modelled(pat) && k < |pat| && p < |pattern| && pattern[p..] == RestText(pat, Spot(k, |pat[k]|, false))
    ensures k + 1 < |pat| && pattern[p] == BAR && pattern[p + 1..] == RestText(pat, Spot(k + 1, 0, false))
  {
    hide RestText;
    RestAtBar(pat, k);
    assert pattern[p] == pattern[p..][0] && pattern[p + 1..] == pattern[p..][1..];
  }

  /** The pointers of regex_compile: into the pattern, to the end of the code, to the
      start of the alternative, to the last expression, to the pending count, and to
      the room left after the alternative before. */
  datatype Cursor = Cursor(p: nat, b: nat, begalt: nat, laststart: int, pending: int, fixup: int)

  ghost predicate InStep(bufp: PatternBuffer, pattern: seq<byte>, cur: Cursor, pat: Pattern, s: Spot)
    reads bufp, bufp.buffer
  {
    cur.b <= bufp.buffer.Length && 0 < bufp.buffer.Length <= MAX_BUF_SIZE &&
    cur.p <= |pattern| && SpotOk(pat, s) && pattern[cur.p..] == RestText(pat, s) &&
    Compiling(pat, s, bufp.Written(cur.b), cur.begalt, cur.laststart, cur.pending, cur.fixup)
  }

  /** One turn of the loop: the switch on the next character of the pattern. */
  method Turn(bufp: PatternBuffer, pattern: seq<byte>, cur: Cursor, ghost pat: Pattern, ghost s: Spot)
    returns (ok: bool, cur': Cursor, ghost s': Spot)
    requires Modelled(pat) && InStep(bufp, pattern, cur, pat, s) && cur.p < |pattern|
    modifies bufp`buffer, bufp.buffer
    ensures bufp.buffer == old(bufp.buffer) || fresh(bufp.buffer)
    ensures !ok ==> |PatternCode(pat)| + 34 > MAX_BUF_SIZE
    ensures ok ==> cur.p < cur'.p && InStep(bufp, pattern, cur', pat, s')
  {
    hide PatternCode, Compiling, RestText;
    var Cursor(p, b, begalt, laststart, pending, fixup) := cur;
    var c := pattern[p];
    TurnOpens(pattern, p, pat, s);
    if IsOpChar(c) {
      ok, b, p := TurnOps(bufp, b, pattern, p, begalt, laststart, pending, fixup, pat, s);
      cur', s' := Cursor(p, b, begalt, laststart, NONE, fixup), Spot(s.k, s.i + 1, false);
    } else if c == DOT || c == LBRACKET {
      ok, b, p := TurnSet(bufp, b, pattern, p, pending, laststart, begalt, fixup, pat, s);
      cur', s' := Cursor(p, b, begalt, cur.b, pending, fixup), AfterAtom(pat, s.k, s.i);
    } else if c == BAR {
      ok, b := TurnBar(bufp, b, begalt, fixup, laststart, pending, pat, s.k);
      cur', s' := Cursor(p + 1, b, b, NONE, NONE, cur.b + 3), Spot(s.k + 1, 0, false);
    } else {
      p := if c == BACKSLASH then p + 2 else p + 1;
      s' := AfterAtom(pat, s.k, s.i);
      AfterCharNext(pattern, p, pat, s');
      ok, b, laststart, pending :=
        TurnChar(bufp, b, pattern[p - 1], Peek(pattern, p), pending, laststart, begalt, fixup, pat, s);
      cur' := Cursor(p, b, begalt, laststart, pending, fixup);
    }
  }

  /** regex_compile. It fails only when the code does not fit the buffer limit, and
      otherwise leaves the code of the pattern in the buffer. */
  method Compile(bufp: PatternBuffer, pattern: seq<byte>, ghost pat: Pattern) returns (err: Error)
    requires bufp.Valid() && bufp.buffer.Length <= MAX_BUF_SIZE && Modelled(pat) && pattern == PatternText(pat)
    modifies bufp`buffer, bufp`used, bufp`fastmapAccurate, bufp.buffer
    ensures bufp.Valid() && !bufp.fastmapAccurate && (bufp.buffer == old(bufp.buffer) || fresh(bufp.buffer))
    ensures err == REG_ESIZE ==> |PatternCode(pat)| + 34 > MAX_BUF_SIZE
    ensures err == REG_NOERROR ==> bufp.Code() == PatternCode(pat)
  {
    hide PatternCode, Compiling, RestText, PatternText;
    bufp.fastmapAccurate, bufp.used := false, 0;
    if bufp.buffer.Length == 0 {
      bufp.buffer := new byte[INIT_BUF_SIZE];
    }
    var cur := Cursor(0, 0, 0, NONE, NONE, NONE);
    ghost var s := Spot(0, 0, false);
    StartOfPattern(pat);
    CompilingStarts(pat);
    assert bufp.Written(0) == [] && pattern[0..] == pattern;
    while cur.p != |pattern|
      invariant bufp.used == 0 && bufp.fastmap.Length == 256 && !bufp.fastmapAccurate
      invariant bufp.buffer == old(bufp.buffer) || fresh(bufp.buffer)
      invariant InStep(bufp, pattern, cur, pat, s)
      decreases |pattern| - cur.p
    {
      var ok;
      ok, cur, s := Turn(bufp, pattern, cur, pat, s);
      if !ok {
        return REG_ESIZE;
      }
    }
    PatternEnds(pat, s);
    Finish(bufp, cur.b, cur.fixup, cur.begalt, cur.laststart, cur.pending, pat, s.k);
    return REG_NOERROR;
  }

  /** The end of regex_compile: the jump after the last but one alternative is filled in (regex.c:2036-2045). */
  method Finish(bufp: PatternBuffer, b: nat, fixup: int,
                ghost begalt: nat, ghost laststart: int, ghost pending: int, ghost pat: Pattern, ghost k: nat)
    requires b <= bufp.buffer.Length && Modelled(pat) && k + 1 == |pat|
    requires Compiling(pat, Spot(k, |pat[k]|, false), bufp.Written(b), begalt, laststart, pending, fixup)
    modifies bufp`used, bufp.buffer
    ensures bufp.used == b && bufp.Written(b) == PatternCode(pat)
  {
    hide PatternCode, Compiling, JumpCode;
    FinishGives(pat, k, bufp.Written(b), begalt, laststart, pending, fixup);
    if fixup != NONE {
      bufp.FillJump(b, JUMP_PAST_ALT, fixup, b - fixup - 3);
    }
    bufp.used := b;
  }

  /** What the next character says about where the compiler is. */
  lemma TurnOpens(pattern: seq<byte>, p: nat, pat: Pattern, s: Spot)
    requires Modelled(pat) && SpotOk(pat, s) && p < |pattern| && pattern[p..] == RestText(pat, s)
    ensures IsOpChar(pattern[p]) <==> s.mid
    ensures !s.mid && s.i == |pat[s.k]| ==>
              s.k + 1 < |pat| && pattern[p] == BAR && pattern[p + 1..] == RestText(pat, Spot(s.k + 1, 0, false))
    ensures !s.mid && s.i < |pat[s.k]| ==> CharAtItem(pattern, p, pat, s)
  {
    hide RestText, CharAtItem;
    AfterCharNext(pattern, p, pat, s);
    if !s.mid {
      if s.i == |pat[s.k]| { BarOpens(pattern, p, pat, s.k); } else { ItemOpens(pattern, p, pat, s); }
    }
  }

  lemma PatternEnds(pat: Pattern, s: Spot)
    requires Modelled(pat) && SpotOk(pat, s) && RestText(pat, s) == []
    ensures s == Spot(s.k, |pat[s.k]|, false) && s.k + 1 == |pat|
  {
    hide RestText;
    NextChar(pat, s);
    if !s.mid {
      if s.i < |pat[s.k]| { RestAtItem(pat, s.k, s.i); } else { RestAtBar(pat, s.k); }
    }
  }

  lemma StartOfPattern(pat: Pattern)
    requires Modelled(pat)
    ensures PatternText(pat) == RestText(pat, Spot(0, 0, false))
  {
    assert pat[0][0..] == pat[0];
  }
}
