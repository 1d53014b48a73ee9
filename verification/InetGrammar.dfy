/** Which texts inet_pton4 and inet_pton6 accept, and as what: the text is split at its dots
    or colons and the parts are read one by one. */
module InetGrammar {
  import opened Common
  import opened InetPton

  // ----- Splitting -----

  /** The parts of `s` between occurrences of `c`. */
  function Split(s: string, c: char): (parts: seq<string>)
    ensures parts != []
  {
    if s == [] then [""]
    else if s[0] == c then [""] + Split(s[1..], c)
    else
      var rest := Split(s[1..], c);
      [[s[0]] + rest[0]] + rest[1..]
  }

  lemma {:induction false} SplitFront(pre: string, s: string, c: char)
    requires c !in pre
    ensures Split(pre + s, c) == [pre + Split(s, c)[0]] + Split(s, c)[1..]
    decreases |pre|
  {
    if pre == [] {
      assert pre + s == s && pre + Split(s, c)[0] == Split(s, c)[0];
    } else {
      assert (pre + s)[1..] == pre[1..] + s && (pre + s)[0] == pre[0];
      SplitFront(pre[1..], s, c);
      assert [pre[0]] + (pre[1..] + Split(s, c)[0]) == pre + Split(s, c)[0];
    }
  }

  lemma SplitAt(pre: string, s: string, c: char)
    requires c !in pre && s != [] && s[0] == c
    ensures Split(pre + s, c) == [pre] + Split(s[1..], c)
  {
    SplitFront(pre, s, c);
    assert pre + "" == pre;
  }

  lemma SplitWhole(s: string, c: char)
    requires c !in s
    ensures Split(s, c) == [s]
  {
    SplitFront(s, [], c);
    assert s + [] == s;
  }

  // ----- Numbers -----

  predicate AllDigits(t: string, base: nat) { forall i :: 0 <= i < |t| ==> DigitValue(t[i], base) >= 0 }

  /** The value of a text of digits. */
  function Value(t: string, base: nat): nat
    requires AllDigits(t, base)
  {
    if t == [] then 0 else Value(t[..|t| - 1], base) * base + DigitValue(t[|t| - 1], base)
  }

  /** A number of at least one digit, leading zeros allowed, of at most `max`. */
  predicate IsNumber(t: string, base: nat, max: nat) { t != [] && AllDigits(t, base) && Value(t, base) <= max }

  lemma ValueSnoc(t: string, c: char, base: nat)
    requires AllDigits(t, base) && DigitValue(c, base) >= 0
    ensures AllDigits(t + [c], base) && Value(t + [c], base) == Value(t, base) * base + DigitValue(c, base)
  {
    assert (t + [c])[..|t|] == t;
  }

  lemma AllDigitsParts(t: string, u: string, base: nat)
    ensures AllDigits(t + u, base) <==> AllDigits(t, base) && AllDigits(u, base)
  {
    hide DigitValue;
    var all := t + u;
    assert forall i :: 0 <= i < |t| ==> all[i] == t[i];
    assert forall i :: 0 <= i < |u| ==> all[|t| + i] == u[i];
  }

  lemma {:induction false} ValueGrows(t: string, u: string, base: nat)
    requires base > 0 && AllDigits(t, base) && AllDigits(t + u, base)
    ensures Value(t, base) <= Value(t + u, base)
    decreases |u|
  {
    hide DigitValue, AllDigits;
    if u == [] {
      assert t + u == t;
    } else {
      var init, c := u[..|u| - 1], u[|u| - 1];
      assert t + u == (t + init) + [c];
      AllDigitsParts(t + init, [c], base);
      OneDigit(c, base);
      ValueGrows(t, init, base);
      ValueSnoc(t + init, c, base);
      NotLess(Value(t + init, base), base, DigitValue(c, base));
    }
  }

  lemma OneDigit(c: char, base: nat)
    ensures AllDigits([c], base) <==> DigitValue(c, base) >= 0
  {
    assert [c][0] == c;
  }

  lemma NotLess(v: nat, base: nat, d: int)
    requires base > 0 && d >= 0
    ensures v <= v * base + d
  {
  }

  lemma DigitsHaveNo(t: string, base: nat, c: char)
    requires AllDigits(t, base) && (c == '.' || c == ':')
    ensures c !in t
  {
  }

  // ----- Dotted quads -----

  /** Four numbers up to 255 between dots. */
  function QuadOf(s: string): Option<seq<byte>> { OctetsOf(Split(s, '.')) }

  function OctetsOf(parts: seq<string>): Option<seq<byte>> {
    if |parts| == 4 && forall i :: 0 <= i < 4 ==> IsNumber(parts[i], 10, 255)
    then Some([Value(parts[0], 10), Value(parts[1], 10), Value(parts[2], 10), Value(parts[3], 10)])
    else None
  }

  /** The parts read so far, then the part that `pre` begins. */
  ghost predicate Reading4(front: seq<string>, done: seq<byte>, pre: string, saw: bool, cur: byte) {
    |done| == |front| <= 3 && (forall i :: 0 <= i < |front| ==> IsNumber(front[i], 10, 255)) &&
    (forall i :: 0 <= i < |front| ==> done[i] == Value(front[i], 10)) &&
    AllDigits(pre, 10) && cur == Value(pre, 10) && (saw <==> pre != [])
  }

  lemma FullParts(front: seq<string>, parts: seq<string>, i: nat)
    requires i < |parts| && |front + parts| == 4 && !IsNumber(parts[i], 10, 255)
    ensures OctetsOf(front + parts).None?
  {
    hide IsNumber;
    assert (front + parts)[|front| + i] == parts[i];
  }

  lemma {:induction false} Scan4Is(s: string, front: seq<string>, done: seq<byte>, pre: string, saw: bool, cur: byte)
    requires Reading4(front, done, pre, saw, cur)
    ensures Scan4(s, done, saw, cur) == OctetsOf(front + Split(pre + s, '.'))
    decreases |s|
  {
    hide DigitValue, Value, OctetsOf, Split, IsNumber, AllDigits;
    DigitsHaveNo(pre, 10, '.');
    if s == [] {
      assert pre + s == pre;
      SplitWhole(pre, '.');
      End4(front, done, pre, saw, cur);
    } else if DigitValue(s[0], 10) >= 0 {
      ValueSnoc(pre, s[0], 10);
      assert pre + s == (pre + [s[0]]) + s[1..];
      if Value(pre + [s[0]], 10) <= 255 {
        Scan4Is(s[1..], front, done, pre + [s[0]], true, Value(pre + [s[0]], 10));
      } else {
        TooLarge4(s[1..], front, pre + [s[0]]);
      }
    } else if s[0] == '.' {
      SplitAt(pre, s, '.');
      assert front + ([pre] + Split(s[1..], '.')) == (front + [pre]) + Split(s[1..], '.');
      if saw && |done| < 3 {
        assert [] + s[1..] == s[1..];
        NextPart(front, done, pre, saw, cur);
        Scan4Is(s[1..], front + [pre], done + [cur], [], false, 0);
      } else {
        NoNextPart(front, done, pre, saw, cur, Split(s[1..], '.'));
      }
    } else {
      BadLetter(s, front, pre);
    }
  }

  lemma NextPart(front: seq<string>, done: seq<byte>, pre: string, saw: bool, cur: byte)
    requires Reading4(front, done, pre, saw, cur) && saw && |done| < 3
    ensures Reading4(front + [pre], done + [cur], [], false, 0)
  {
    hide DigitValue;
  }

  lemma NoNextPart(front: seq<string>, done: seq<byte>, pre: string, saw: bool, cur: byte, rest: seq<string>)
    requires Reading4(front, done, pre, saw, cur) && (!saw || |done| == 3) && rest != []
    ensures OctetsOf(front + ([pre] + rest)).None?
  {
    hide DigitValue, Value;
    if |front + ([pre] + rest)| == 4 { FullParts(front, [pre] + rest, 0); }
  }

  lemma End4(front: seq<string>, done: seq<byte>, pre: string, saw: bool, cur: byte)
    requires Reading4(front, done, pre, saw, cur)
    ensures Scan4([], done, saw, cur) == OctetsOf(front + [pre])
  {
    hide DigitValue, Value;
    var all := front + [pre];
    if |front| == 3 {
      assert all[3] == pre && all[0] == front[0] && all[1] == front[1] && all[2] == front[2];
      if saw {
        assert IsNumber(pre, 10, 255);
        assert OctetsOf(all) == Some([done[0], done[1], done[2], cur]);
        assert done + [cur] == [done[0], done[1], done[2], cur];
      } else {
        FullParts(front, [pre], 0);
      }
    }
  }

  lemma TooLarge4(s: string, front: seq<string>, pre: string)
    requires AllDigits(pre, 10) && Value(pre, 10) > 255
    ensures OctetsOf(front + Split(pre + s, '.')).None?
  {
    DigitsHaveNo(pre, 10, '.');
    SplitFront(pre, s, '.');
    var parts := Split(pre + s, '.');
    if |front + parts| == 4 {
      if AllDigits(parts[0], 10) { ValueGrows(pre, Split(s, '.')[0], 10); }
      hide DigitValue, Value, Split;
      FullParts(front, parts, 0);
    }
  }

  lemma BadLetter(s: string, front: seq<string>, pre: string)
    requires s != [] && s[0] != '.' && DigitValue(s[0], 10) < 0 && '.' !in pre
    ensures OctetsOf(front + Split(pre + s, '.')).None?
  {
    SplitFront(pre, s, '.');
    var parts := Split(pre + s, '.');
    if |front + parts| == 4 {
      assert parts[0][|pre|] == s[0];
      FullParts(front, parts, 0);
    }
  }

  /** inet_pton4 accepts exactly four numbers up to 255 between dots. */
  lemma Quad4Exactly(s: string)
    ensures Scan4(s, [], false, 0) == QuadOf(s)
  {
    assert [] + s == s && [] + Split(s, '.') == Split(s, '.');
    Scan4Is(s, [], [], [], false, 0);
  }

  // ----- Addresses -----

  predicate IsWord(t: string) { IsNumber(t, 16, 0xffff) }

  function WordBytes(t: string): (b: seq<byte>)
    requires IsWord(t)
    ensures |b| == 2
  {
    [HighByte(Value(t, 16)), LowByte(Value(t, 16))]
  }

  /** The bytes of the parts between colons: words, where empty parts add nothing, and at the
      end a word, nothing or a dotted quad. */
  function Read(parts: seq<string>): Option<seq<byte>>
    requires parts != []
  {
    var t := parts[0];
    if |parts| == 1 then if t == "" then Some([]) else if IsWord(t) then Some(WordBytes(t)) else QuadOf(t)
    else
      var rest := Read(parts[1..]);
      if rest.None? then None
      else if t == "" then rest
      else if IsWord(t) then Some(WordBytes(t) + rest.value) else None
  }

  /** How many parts but the last are empty. */
  function Gaps(parts: seq<string>): nat
    requires parts != []
  {
    if |parts| == 1 then 0 else (if parts[0] == "" then 1 else 0) + Gaps(parts[1..])
  }

  /** How many bytes come before the first of them. */
  function GapAt(parts: seq<string>): nat
    requires parts != []
  {
    if |parts| == 1 || parts[0] == "" then 0 else 2 + GapAt(parts[1..])
  }

  lemma {:induction false} GapInside(parts: seq<string>)
    requires parts != [] && Read(parts).Some? && Gaps(parts) > 0
    ensures GapAt(parts) <= |Read(parts).value|
    decreases |parts|
  {
    if |parts| > 1 && parts[0] != "" { GapInside(parts[1..]); }
  }

  /** The bytes `r` after `out`, with `gaps` gaps in them, the first after `at` bytes, and
      perhaps one before: one gap at most, and sixteen bytes or a gap. */
  function Assemble(r: seq<byte>, gaps: nat, at: nat, out: seq<byte>, colon: Colon): Option<seq<byte>>
    requires colon <= |out| <= 16 && (gaps > 0 ==> at <= |r|)
  {
    if |out| + |r| > 16 || gaps + (if colon >= 0 then 1 else 0) > 1 then None
    else if gaps == 1 then Finish(out + r, |out| + at)
    else Finish(out + r, colon)
  }

  /** The address of the parts, with `out` read before them and a gap after `colon` bytes
      unless that is -1. */
  function Whole(parts: seq<string>, out: seq<byte>, colon: Colon): Option<seq<byte>>
    requires parts != [] && colon <= |out| <= 16
  {
    if Read(parts).None? then None
    else
      if Gaps(parts) > 0 then (GapInside(parts); Assemble(Read(parts).value, Gaps(parts), GapAt(parts), out, colon))
      else Assemble(Read(parts).value, 0, 0, out, colon)
  }

  /** What inet_pton6 accepts: the parts between colons; a text that begins with a colon must
      begin with two, and the first of them is dropped. */
  function Parsed6(src: string): Option<seq<byte>> {
    if |src| > 0 && src[0] == ':' then
      if |src| > 1 && src[1] == ':' then Whole(Split(src[1..], ':'), [], -1) else None
    else Whole(Split(src, ':'), [], -1)
  }

  // ----- A quad is digits and dots -----

  lemma {:induction false} LettersOf(s: string, c: char, x: char)
    requires x in s && x != c
    ensures exists i :: 0 <= i < |Split(s, c)| && x in Split(s, c)[i]
    decreases |s|
  {
    var parts, rest := Split(s, c), Split(s[1..], c);
    if s[0] == x {
      assert x in parts[0];
    } else {
      assert x in s[1..];
      LettersOf(s[1..], c, x);
      var i :| 0 <= i < |rest| && x in rest[i];
      if s[0] == c {
        assert parts[i + 1] == rest[i];
      } else if i > 0 {
        assert parts[i] == rest[i];
      } else {
        assert x in parts[0];
      }
    }
  }

  lemma NotQuad(t: string, x: char)
    requires x in t && x != '.' && DigitValue(x, 10) < 0
    ensures QuadOf(t).None?
  {
    hide DigitValue, Value, Split;
    LettersOf(t, '.', x);
    var parts := Split(t, '.');
    var i :| 0 <= i < |parts| && x in parts[i];
    var j :| 0 <= j < |parts[i]| && parts[i][j] == x;
    if |parts| == 4 { assert !IsNumber(parts[i], 10, 255); }
  }

  lemma NotWord(t: string, x: char)
    requires x in t && DigitValue(x, 16) < 0
    ensures t != "" && !IsWord(t)
  {
    hide DigitValue, Value;
    var j :| 0 <= j < |t| && t[j] == x;
  }

  /** Read as hexadecimal, a decimal number below 1000 stays below 4096. */
  lemma {:induction false} HexOfDecimal(t: string)
    requires AllDigits(t, 10)
    ensures AllDigits(t, 16)
    ensures Value(t, 10) < 10 ==> Value(t, 16) < 16
    ensures Value(t, 10) < 100 ==> Value(t, 16) < 256
    ensures Value(t, 10) < 1000 ==> Value(t, 16) < 4096
    decreases |t|
  {
    if t != [] {
      var init, c := t[..|t| - 1], t[|t| - 1];
      assert forall i :: 0 <= i < |init| ==> init[i] == t[i];
      HexOfDecimal(init);
      assert DigitValue(c, 10) == DigitValue(c, 16) <= 9;
    }
  }

  lemma LargeNotQuad(pre: string, u: string)
    requires AllDigits(pre, 16) && Value(pre, 16) > 0xffff
    ensures QuadOf(pre + u).None?
  {
    DigitsHaveNo(pre, 16, '.');
    SplitFront(pre, u, '.');
    hide DigitValue, Split;
    var parts, first := Split(pre + u, '.'), Split(u, '.')[0];
    if |parts| == 4 && IsNumber(parts[0], 10, 255) {
      AllDigitsParts(pre, first, 10);
      ValueGrows(pre, first, 10);
      HexOfDecimal(pre);
      assert false;
    }
  }

  // ----- The scanner reads the parts -----

  ghost predicate Reading6(tok: string, pre: string, s: string, saw: bool, val: nat) {
    tok == pre + s && AllDigits(pre, 16) && val == Value(pre, 16) < 0x10000 && (saw <==> pre != [])
  }

  lemma ReadBad(parts: seq<string>)
    requires parts != [] && parts[0] != "" && !IsWord(parts[0]) && QuadOf(parts[0]).None?
    ensures Read(parts).None?
  {
    hide IsWord, QuadOf;
  }

  lemma {:induction false} Scan6Is(s: string, tok: string, out: seq<byte>, colon: Colon, saw: bool, val: nat,
                                   pre: string)
    requires colon <= |out| <= 16 && Reading6(tok, pre, s, saw, val)
    ensures Scan6(s, tok, out, colon, saw, val) == Whole(Split(tok, ':'), out, colon)
    decreases |s|
  {
    hide DigitValue, Value, Split, Scan4, Whole, Finish, AllDigits;
    DigitsHaveNo(pre, 16, ':');
    if s == [] {
      assert pre + s == pre;
      SplitWhole(pre, ':');
      End6(out, colon, saw, val, pre);
    } else if DigitValue(s[0], 16) >= 0 {
      ValueSnoc(pre, s[0], 16);
      assert tok == (pre + [s[0]]) + s[1..];
      if Value(pre + [s[0]], 16) > 0xffff {
        TooLarge6(pre + [s[0]], s[1..], out, colon);
      } else {
        Scan6Is(s[1..], tok, out, colon, true, Value(pre + [s[0]], 16), pre + [s[0]]);
      }
    } else if s[0] == ':' {
      SplitAt(pre, s, ':');
      var rest, next := Split(s[1..], ':'), s[1..];
      EmptyReads(next);
      if !saw {
        GapPart(rest, out, colon);
        if colon < 0 { Scan6Is(next, next, out, |out|, false, val, []); }
      } else {
        WordPart(pre, rest, out, colon);
        if |out| + 2 <= 16 { Scan6Is(next, next, out + [HighByte(val), LowByte(val)], colon, false, 0, []); }
      }
    } else if s[0] == '.' {
      Quad4Exactly(tok);
      DotPart(pre, s, tok, out, colon);
    } else {
      BadPart(pre, s, tok, out, colon);
    }
  }

  lemma EmptyReads(s: string)
    ensures Reading6(s, [], s, false, 0)
  {
    assert [] + s == s;
  }

  lemma End6(out: seq<byte>, colon: Colon, saw: bool, val: nat, pre: string)
    requires colon <= |out| <= 16 && Reading6(pre, pre, [], saw, val)
    ensures FinishWord(out, colon, saw, val) == Whole([pre], out, colon)
  {
    hide DigitValue, Value, QuadOf;
    assert out + [] == out;
    if saw { assert IsWord(pre); }
  }

  lemma TooLarge6(pre: string, u: string, out: seq<byte>, colon: Colon)
    requires colon <= |out| <= 16 && AllDigits(pre, 16) && Value(pre, 16) > 0xffff
    ensures Whole(Split(pre + u, ':'), out, colon).None?
  {
    DigitsHaveNo(pre, 16, ':');
    SplitFront(pre, u, ':');
    hide DigitValue, Split;
    var parts, first := Split(pre + u, ':'), Split(u, ':')[0];
    assert parts[0] == pre + first;
    if AllDigits(parts[0], 16) { ValueGrows(pre, first, 16); }
    LargeNotQuad(pre, first);
    assert pre != [];
    ReadBad(parts);
  }

  lemma ReadGap(rest: seq<string>)
    requires rest != []
    ensures Read([""] + rest) == Read(rest) && Gaps([""] + rest) == 1 + Gaps(rest) && GapAt([""] + rest) == 0
  {
    assert ([""] + rest)[1..] == rest;
  }

  lemma GapPart(rest: seq<string>, out: seq<byte>, colon: Colon)
    requires rest != [] && colon <= |out| <= 16
    ensures Whole([""] + rest, out, colon) == if colon >= 0 then None else Whole(rest, out, |out|)
  {
    ReadGap(rest);
    if Read(rest).Some? && Gaps(rest) > 0 { GapInside(rest); }
    hide Read, Gaps, GapAt, Finish;
  }

  lemma ReadWord(t: string, rest: seq<string>)
    requires rest != [] && IsWord(t)
    ensures Read(rest).None? ==> Read([t] + rest).None?
    ensures Read(rest).Some? ==> Read([t] + rest) == Some(WordBytes(t) + Read(rest).value)
    ensures Gaps([t] + rest) == Gaps(rest) && GapAt([t] + rest) == 2 + GapAt(rest)
  {
    assert ([t] + rest)[1..] == rest;
  }

  lemma AssembleWord(w: seq<byte>, r: seq<byte>, gaps: nat, at: nat, out: seq<byte>, colon: Colon)
    requires |w| == 2 && colon <= |out| <= 16 && (gaps > 0 ==> at <= |r|)
    ensures Assemble(w + r, gaps, 2 + at, out, colon) ==
      if |out| + 2 > 16 then None else Assemble(r, gaps, at, out + w, colon)
  {
    hide Finish;
    assert out + (w + r) == (out + w) + r;
  }

  lemma AssembleNoGap(r: seq<byte>, at: nat, out: seq<byte>, colon: Colon)
    requires colon <= |out| <= 16
    ensures Assemble(r, 0, at, out, colon) == Assemble(r, 0, 0, out, colon)
  {
  }

  lemma WordPart(t: string, rest: seq<string>, out: seq<byte>, colon: Colon)
    requires rest != [] && colon <= |out| <= 16 && AllDigits(t, 16) && t != [] && Value(t, 16) < 0x10000
    ensures Whole([t] + rest, out, colon) ==
      if |out| + 2 > 16 then None
      else Whole(rest, out + [HighByte(Value(t, 16)), LowByte(Value(t, 16))], colon)
  {
    hide Read, Gaps, GapAt, Value, DigitValue, Assemble;
    ReadWord(t, rest);
    if Read(rest).Some? {
      var r, gaps := Read(rest).value, Gaps(rest);
      if gaps > 0 {
        GapInside(rest);
        AssembleWord(WordBytes(t), r, gaps, GapAt(rest), out, colon);
      } else {
        AssembleWord(WordBytes(t), r, 0, 0, out, colon);
        AssembleNoGap(WordBytes(t) + r, 2, out, colon);
      }
    }
  }

  lemma DotPart(pre: string, s: string, tok: string, out: seq<byte>, colon: Colon)
    requires colon <= |out| <= 16 && tok == pre + s && AllDigits(pre, 16) && s != [] && s[0] == '.'
    ensures QuadOf(tok).Some? ==> |QuadOf(tok).value| == 4
    ensures Whole(Split(tok, ':'), out, colon) ==
      if |out| + 4 <= 16 && QuadOf(tok).Some? then Finish(out + QuadOf(tok).value, colon) else None
  {
    DigitsHaveNo(pre, 16, ':');
    var parts := Split(tok, ':');
    SplitFront(pre, s, ':');
    assert parts[0][|pre|] == '.' by { SplitFirst(s, ':'); }
    assert '.' in parts[0] && DigitValue('.', 16) < 0;
    NotWord(parts[0], '.');
    if ':' in tok {
      NotQuad(tok, ':');
      SplitMore(tok, ':');
      hide Split, QuadOf, IsWord;
      assert Read(parts).None?;
    } else {
      SplitWhole(tok, ':');
      hide Split, IsWord;
    }
  }

  lemma SplitFirst(s: string, c: char)
    requires s != [] && s[0] != c
    ensures Split(s, c)[0] != [] && Split(s, c)[0][0] == s[0]
  {
  }

  lemma {:induction false} SplitMore(s: string, c: char)
    requires c in s
    ensures |Split(s, c)| > 1
    decreases |s|
  {
    if s[0] != c { SplitMore(s[1..], c); }
  }

  lemma BadPart(pre: string, s: string, tok: string, out: seq<byte>, colon: Colon)
    requires colon <= |out| <= 16 && tok == pre + s && AllDigits(pre, 16)
    requires s != [] && s[0] != '.' && s[0] != ':' && DigitValue(s[0], 16) < 0
    ensures Whole(Split(tok, ':'), out, colon).None?
  {
    DigitsHaveNo(pre, 16, ':');
    var parts := Split(tok, ':');
    SplitFront(pre, s, ':');
    SplitFirst(s, ':');
    assert parts[0][|pre|] == s[0];
    assert DigitValue(s[0], 10) < 0;
    hide Split;
    NotWord(parts[0], s[0]);
    NotQuad(parts[0], s[0]);
    ReadBad(parts);
  }

  /** inet_pton6 accepts exactly the texts whose parts between colons are words, with one
      empty part at most before the last, and at the end a word, nothing or a dotted quad:
      sixteen bytes, or no more with a gap to fill. */
  lemma Address6Exactly(src: string)
    ensures Scanned6(src) == Parsed6(src)
  {
    hide Scan6, Whole, Split;
    EmptyReads(src);
    if |src| > 0 && src[0] == ':' {
      if |src| > 1 && src[1] == ':' {
        EmptyReads(src[1..]);
        Scan6Is(src[1..], src[1..], [], -1, false, 0, []);
      }
    } else {
      Scan6Is(src, src, [], -1, false, 0, []);
    }
  }

  // ----- A colon at the end -----

  lemma {:induction false} SplitLast(s: string, c: char)
    ensures Split(s + [c], c) == Split(s, c) + [""]
    decreases |s|
  {
    if s == [] {
      assert s + [c] == [c] && [c][1..] == [];
    } else {
      assert (s + [c])[1..] == s[1..] + [c];
      SplitLast(s[1..], c);
    }
  }

  lemma {:induction false} ReadLast(parts: seq<string>)
    requires parts != [] && IsWord(parts[|parts| - 1])
    ensures Read(parts + [""]) == Read(parts) && Gaps(parts + [""]) == Gaps(parts)
    ensures Gaps(parts) > 0 ==> GapAt(parts + [""]) == GapAt(parts)
    decreases |parts|
  {
    hide IsWord, WordBytes, QuadOf;
    assert (parts + [""])[1..] == parts[1..] + [""];
    if |parts| == 1 {
      assert parts[1..] + [""] == [""];
      WordNotEmpty(parts[0]);
      assert WordBytes(parts[0]) + [] == WordBytes(parts[0]);
    } else {
      ReadLast(parts[1..]);
    }
  }

  lemma WordNotEmpty(t: string)
    requires IsWord(t)
    ensures t != ""
  {
  }

  /** A text that ends with a word is taken for the same with a colon after it, though such
      a text is no address (section 2.2 of RFC 1884). */
  lemma ColonAtEnd(src: string)
    requires src != [] && IsWord(Split(src, ':')[|Split(src, ':')| - 1])
    ensures Scanned6(src + ":") == Scanned6(src)
  {
    hide Whole, Split, IsWord, Scanned6;
    Address6Exactly(src);
    Address6Exactly(src + ":");
    var text := src + ":";
    assert text[0] == src[0] && (|src| > 1 ==> text[1] == src[1]);
    if src[0] != ':' {
      WholeLast(src);
    } else if |src| == 1 {
      ColonAlone(src);
    } else if src[1] == ':' {
      assert text[1..] == src[1..] + ":";
      TailParts(src);
      WholeLast(src[1..]);
    }
  }

  lemma WholeLast(s: string)
    requires IsWord(Split(s, ':')[|Split(s, ':')| - 1])
    ensures Whole(Split(s + ":", ':'), [], -1) == Whole(Split(s, ':'), [], -1)
  {
    SplitLast(s, ':');
    ReadLast(Split(s, ':'));
    hide Split, Read, IsWord, Gaps, GapAt;
  }

  lemma ColonAlone(src: string)
    requires |src| == 1 && src[0] == ':'
    ensures !IsWord(Split(src, ':')[|Split(src, ':')| - 1])
  {
    assert src[1..] == [];
  }

  lemma TailParts(src: string)
    requires |src| > 1 && src[0] == ':'
    ensures Split(src, ':') == [""] + Split(src[1..], ':')
  {
  }
}
