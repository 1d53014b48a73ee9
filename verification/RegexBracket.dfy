/** The bracket case of regex_compile (gnu_regex/regex.c:1350-1526) with
    compile_range (2199-2242), for sets of single characters and ranges. */
module RegexBracket {
  import opened Common
  import opened RegexCode
  import opened RegexSyntax
  import opened RegexLayout
  import opened RegexBuffer

  /** SET_LIST_BIT for the map at `m`. */
  method SetListBitAt(buf: array<byte>, m: nat, c: byte)
    requires m + 32 <= buf.Length
    modifies buf
    ensures buf[..m] == old(buf[..m])
    ensures buf[m..m + 32] == SetListBit(old(buf[m..m + 32]), c)
  {
    ghost var before := buf[m..m + 32];
    assert TwoTo(8) == 256;
    SetBitBound(buf[m + c / 8], c % 8, 8);
    assert before[c / 8] == buf[m + c / 8];
    buf[m + c / 8] := SetBit(buf[m + c / 8], c % 8);
    assert buf[m..m + 32] == before[c / 8 := SetBit(before[c / 8], c % 8)];
  }

  /** The loop of compile_range. */
  method SetRangeAt(buf: array<byte>, m: nat, lo: byte, hi: byte)
    requires m + 32 <= buf.Length && lo <= hi
    modifies buf
    ensures buf[..m] == old(buf[..m])
    ensures buf[m..m + 32] == SetRange(old(buf[m..m + 32]), lo, hi + 1)
  {
    var c: int := lo;
    while c <= hi
      invariant lo <= c <= hi + 1
      invariant buf[..m] == old(buf[..m])
      invariant buf[m..m + 32] == SetRange(old(buf[m..m + 32]), lo, c)
    {
      SetListBitAt(buf, m, c);
      c := c + 1;
    }
  }

  /** bzero of the map. */
  method ClearMap(buf: array<byte>, m: nat)
    requires m + 32 <= buf.Length
    modifies buf
    ensures buf[..m] == old(buf[..m]) && buf[m..m + 32] == Blank()
  {
    var j := 0;
    while j < 32
      invariant 0 <= j <= 32 && buf[..m] == old(buf[..m])
      invariant forall i :: m <= i < m + j ==> buf[i] == 0
    {
      buf[m + j] := 0;
      j := j + 1;
    }
  }

  /** Trailing zero bytes of the map are dropped by lowering its length byte (regex.c:1520-1523). */
  method TrimMap(buf: array<byte>, m: nat)
    requires 0 < m && m + 32 <= buf.Length && buf[m - 1] == 32
    modifies buf
    ensures buf[..m - 1] == old(buf[..m - 1]) && buf[m..m + 32] == old(buf[m..m + 32])
    ensures buf[m - 1] == |Trim(old(buf[m..m + 32]))|
  {
    ghost var bits := buf[m..m + 32];
    assert bits[..32] == bits;
    while buf[m - 1] > 0 && buf[m + buf[m - 1] - 1] == 0
      invariant buf[..m - 1] == old(buf[..m - 1]) && buf[m..m + 32] == bits
      invariant buf[m - 1] <= 32 && Trim(bits[..buf[m - 1]]) == Trim(bits)
      decreases buf[m - 1]
    {
      ghost var n := buf[m - 1];
      assert bits[n - 1] == buf[m + n - 1] && bits[..n][n - 1] == 0 && bits[..n][..n - 1] == bits[..n - 1];
      buf[m - 1] := buf[m - 1] - 1;
    }
    ghost var n := buf[m - 1];
    assert n > 0 ==> bits[..n][n - 1] == buf[m + n - 1];
  }

  /** The rest of the pattern text inside a bracket set, from element `j` on. */
  function BracketRest(elems: seq<Elem>, j: nat, rest: seq<byte>): seq<byte>
    requires j <= |elems|
  {
    ElemsText(elems[j..]) + [RBRACKET] + rest
  }

  lemma BracketStep(elems: seq<Elem>, j: nat, rest: seq<byte>)
    requires j < |elems|
    ensures BracketRest(elems, j, rest) == ElemText(elems[j]) + BracketRest(elems, j + 1, rest)
  {
    assert elems[j..][1..] == elems[j + 1..] && elems[j..][0] == elems[j];
  }

  function Peek(pattern: seq<byte>, p: nat): byte { if p < |pattern| then pattern[p] else NUL }

  /** The character that opens what follows element `j - 1` is not a hyphen. */
  lemma NoHyphenNext(elems: seq<Elem>, negated: bool, j: nat, rest: seq<byte>)
    requires 0 < j <= |elems| && AtomModelled(Bracket(negated, elems))
    ensures BracketRest(elems, j, rest) != [] && BracketRest(elems, j, rest)[0] != HYPHEN
  {
    if j < |elems| {
      BracketStep(elems, j, rest);
      assert ElemOk(elems[j], false, negated);
    } else {
      assert elems[j..] == [];
    }
  }

  /** How the text at `p` shows whether element `j` is a range. */
  lemma ElemAhead(pattern: seq<byte>, p: nat, negated: bool, elems: seq<Elem>, j: nat, rest: seq<byte>)
    requires p < |pattern| && j < |elems| && AtomModelled(Bracket(negated, elems)) &&
      pattern[p..] == BracketRest(elems, j, rest)
    ensures var next := BracketRest(elems, j + 1, rest);
      match elems[j]
      case Single(c) => c == pattern[p] && p + 1 < |pattern| && pattern[p + 1] != HYPHEN && pattern[p + 1..] == next
      case Range(lo, hi) =>
        lo == pattern[p] && p + 3 < |pattern| && pattern[p + 1] == HYPHEN && pattern[p + 2] == hi != RBRACKET &&
                            lo <= hi && pattern[p + 3..] == next
  {
    var next := BracketRest(elems, j + 1, rest);
    BracketStep(elems, j, rest);
    NoHyphenNext(elems, negated, j + 1, rest);
    assert ElemOk(elems[j], j == 0, negated);
    var all := ElemText(elems[j]) + next;
    assert pattern[p] == pattern[p..][0] && pattern[p + 1] == pattern[p..][1];
    assert pattern[p + 1..] == all[1..];
    if elems[j].Range? {
      assert pattern[p + 2] == pattern[p..][2] && pattern[p + 3..] == all[3..] == next;
    }
  }

  /** A hyphen opens a set right after `[` or `[^`, where it is no operator (regex.c:1414-1417). */
  predicate HyphenOperator(pattern: seq<byte>, p: nat, c: byte)
    requires 0 < p <= |pattern|
  {
    c == HYPHEN && pattern[p - 1] != LBRACKET && !(p >= 2 && pattern[p - 2] == LBRACKET && pattern[p - 1] == CARET) &&
    Peek(pattern, p + 1) != RBRACKET
  }

  method ReadElem(buf: array<byte>, m: nat, pattern: seq<byte>, p: nat,
                  ghost negated: bool, ghost elems: seq<Elem>, ghost j: nat, ghost rest: seq<byte>)
    returns (p': nat)
    requires m + 32 <= buf.Length && 0 < p < |pattern| && j < |elems| && AtomModelled(Bracket(negated, elems))
    requires pattern[p..] == BracketRest(elems, j, rest) && !HyphenOperator(pattern, p, pattern[p])
    modifies buf
    ensures p < p' <= |pattern| && pattern[p'..] == BracketRest(elems, j + 1, rest)
    ensures buf[..m] == old(buf[..m]) && buf[m..m + 32] == SetElem(old(buf[m..m + 32]), elems[j])
  {
    ElemAhead(pattern, p, negated, elems, j, rest);
    var c := pattern[p];
    p' := p + 1;
    var operator := HyphenOperator(pattern, p, c);
    if operator || (Peek(pattern, p') == HYPHEN && Peek(pattern, p' + 1) != RBRACKET) {
      if !operator {
        p' := p' + 1;
      }
      SetRangeAt(buf, m, pattern[p' - 2], pattern[p']);
      p' := p' + 1;
    } else {
      SetListBitAt(buf, m, c);
    }
  }

  /** Where the reading of a set starts: just after `[` or `[^`. */
  predicate AtOpen(pattern: seq<byte>, open: nat, negated: bool) {
    0 < open <= |pattern| &&
    if negated then open > 1 && pattern[open - 1] == CARET && pattern[open - 2] == LBRACKET
    else pattern[open - 1] == LBRACKET
  }

  lemma NoHyphenOperator(pattern: seq<byte>, p: nat, open: nat, negated: bool, elems: seq<Elem>, j: nat,
                         rest: seq<byte>)
    requires p < |pattern| && j < |elems| && AtomModelled(Bracket(negated, elems)) &&
      pattern[p..] == BracketRest(elems, j, rest)
    requires AtOpen(pattern, open, negated) && open <= p && (j == 0 ==> p == open)
    ensures p > 0 && !HyphenOperator(pattern, p, pattern[p])
    ensures pattern[p] == RBRACKET ==> p == open
  {
    ElemAhead(pattern, p, negated, elems, j, rest);
    assert ElemOk(elems[j], j == 0, negated);
  }

  /** The loop that reads characters and ranges into the map at `m` (regex.c:1383-1518). */
  method ReadElems(buf: array<byte>, m: nat, pattern: seq<byte>, open: nat,
                   ghost negated: bool, ghost elems: seq<Elem>, ghost rest: seq<byte>)
    returns (p: nat)
    requires m + 32 <= buf.Length && AtOpen(pattern, open, negated) && AtomModelled(Bracket(negated, elems))
    requires pattern[open..] == BracketRest(elems, 0, rest) && buf[m..m + 32] == Blank()
    modifies buf
    ensures open < p <= |pattern| && pattern[p..] == rest
    ensures buf[..m] == old(buf[..m]) && buf[m..m + 32] == FullBits(elems)
  {
    p := open;
    ghost var j := 0;
    while true
      invariant open <= p <= |pattern| && j <= |elems| && (j == 0 <==> p == open)
      invariant pattern[p..] == BracketRest(elems, j, rest)
      invariant buf[..m] == old(buf[..m]) && buf[m..m + 32] == FullBits(elems[..j])
      decreases |pattern| - p
    {
      assert |BracketRest(elems, j, rest)| > 0;
      if j < |elems| {
        NoHyphenOperator(pattern, p, open, negated, elems, j, rest);
      } else {
        assert elems[j..] == [] && elems[..j] == elems;
        assert pattern[p] == pattern[p..][0] == RBRACKET;
        assert pattern[p + 1..] == pattern[p..][1..] == rest;
      }
      if pattern[p] == RBRACKET && p != open {
        p := p + 1;
        return;
      }
      p := ReadElem(buf, m, pattern, p, negated, elems, j, rest);
      assert elems[..j + 1][..j] == elems[..j] && elems[..j + 1][j] == elems[j];
      j := j + 1;
    }
  }

  /** The whole bracket case; `p` is just after the `[`. */
  method CompileBracket(bufp: PatternBuffer, b: nat, pattern: seq<byte>, p: nat,
                        ghost negated: bool, ghost elems: seq<Elem>, ghost rest: seq<byte>)
    returns (ok: bool, b': nat, p': nat)
    requires b <= bufp.buffer.Length && 0 < bufp.buffer.Length <= MAX_BUF_SIZE
    requires 0 < p <= |pattern| && pattern[p - 1] == LBRACKET && AtomModelled(Bracket(negated, elems))
    requires pattern[p..] == (if negated then [CARET] else []) + BracketRest(elems, 0, rest)
    modifies bufp`buffer, bufp.buffer
    ensures bufp.buffer == old(bufp.buffer) || fresh(bufp.buffer)
    ensures 0 < bufp.buffer.Length <= MAX_BUF_SIZE
    ensures ok <==> b + 34 <= MAX_BUF_SIZE
    ensures ok ==> p < p' <= |pattern| && pattern[p'..] == rest && b' <= bufp.buffer.Length
    ensures ok ==> bufp.Written(b') == old(bufp.Written(b)) + AtomCode(AtomOf(Bracket(negated, elems)))
  {
    ok := bufp.GetBufferSpace(b, 34);
    b', p' := b, p;
    if ok {
      b', p' := WriteSet(bufp.buffer, b, pattern, p, negated, elems, rest);
    }
  }

  method WriteSet(buf: array<byte>, b: nat, pattern: seq<byte>, p: nat,
                  ghost negated: bool, ghost elems: seq<Elem>, ghost rest: seq<byte>)
    returns (b': nat, p': nat)
    requires b + 34 <= buf.Length
    requires 0 < p <= |pattern| && pattern[p - 1] == LBRACKET && AtomModelled(Bracket(negated, elems))
    requires pattern[p..] == (if negated then [CARET] else []) + BracketRest(elems, 0, rest)
    modifies buf
    ensures p < p' <= |pattern| && pattern[p'..] == rest && b' <= buf.Length
    ensures buf[..b'] == old(buf[..b]) + AtomCode(AtomOf(Bracket(negated, elems)))
  {
    hide BracketRest, Trim, FullBits, AtomModelled;
    p' := FillSet(buf, b, pattern, p, negated, elems, rest);
    ghost var head := buf[..b + 1];
    assert head == old(buf[..b]) + [buf[b]];
    TrimMap(buf, b + 2);
    b' := b + 2 + buf[b + 1];
    AssembleSet(buf[..], b, old(buf[..b]), if negated then CHARSET_NOT else CHARSET, Trim(FullBits(elems)));
  }

  /** Opcode, full length and full map of a set. */
  method FillSet(buf: array<byte>, b: nat, pattern: seq<byte>, p: nat,
                 ghost negated: bool, ghost elems: seq<Elem>, ghost rest: seq<byte>)
    returns (p': nat)
    requires b + 34 <= buf.Length
    requires 0 < p <= |pattern| && pattern[p - 1] == LBRACKET && AtomModelled(Bracket(negated, elems))
    requires pattern[p..] == (if negated then [CARET] else []) + BracketRest(elems, 0, rest)
    modifies buf
    ensures p < p' <= |pattern| && pattern[p'..] == rest
    ensures buf[..b] == old(buf[..b]) && buf[b] == (if negated then CHARSET_NOT else CHARSET) && buf[b + 1] == 32
    ensures buf[b + 2..b + 34] == FullBits(elems)
  {
    OpenBracket(pattern, p, negated, elems, rest);
    hide BracketRest, FullBits, AtomModelled, AtOpen;
    var inverted := pattern[p] == CARET;
    buf[b], buf[b + 1] := if inverted then CHARSET_NOT else CHARSET, 32;
    ghost var head := buf[..b + 2];
    ClearMap(buf, b + 2);
    p' := if inverted then p + 1 else p;
    p' := ReadElems(buf, b + 2, pattern, p', negated, elems, rest);
    assert buf[..b + 2] == head && buf[b] == head[b] && buf[b + 1] == head[b + 1] && buf[..b] == head[..b];
  }

  lemma AssembleSet(whole: seq<byte>, b: nat, prefix: seq<byte>, op: byte, bits: seq<byte>)
    requires b + 34 <= |whole| && |bits| <= 32 && whole[..b + 1] == prefix + [op] && |prefix| == b
    requires whole[b + 1] == |bits| && whole[b + 2..b + 34][..|bits|] == bits
    ensures whole[..b + 2 + |bits|] == prefix + ([op, |bits|] + bits)
  {
    assert whole[..b + 2 + |bits|] == whole[..b + 1] + [whole[b + 1]] + whole[b + 2..b + 34][..|bits|];
  }

  lemma OpenBracket(pattern: seq<byte>, p: nat, negated: bool, elems: seq<Elem>, rest: seq<byte>)
    requires 0 < p <= |pattern| && pattern[p - 1] == LBRACKET && AtomModelled(Bracket(negated, elems))
    requires pattern[p..] == (if negated then [CARET] else []) + BracketRest(elems, 0, rest)
    ensures p < |pattern| && (pattern[p] == CARET <==> negated)
    ensures var open := if negated then p + 1 else p;
      AtOpen(pattern, open, negated) && pattern[open..] == BracketRest(elems, 0, rest)
  {
    BracketStep(elems, 0, rest);
    assert ElemOk(elems[0], true, negated);
    assert pattern[p] == pattern[p..][0];
    if negated { assert pattern[p + 1..] == pattern[p..][1..]; }
  }
}
