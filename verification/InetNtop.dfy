/** inet_ntop4 and inet_ntop6: binary addresses to text (libwzd-core/inet_ntop.c). */
module InetNtop {
  import opened InetText
  import opened InetForm

  /** `s` written over `buf` at `at`. */
  function Overwritten(buf: seq<char>, at: nat, s: string): (r: seq<char>)
    requires at + |s| <= |buf|
    ensures |r| == |buf|
  {
    buf[..at] + s + buf[at + |s|..]
  }

  /** strcpy or sprintf into a buffer, without the terminating NUL. */
  method Write(dst: array<char>, at: nat, s: string)
    requires at + |s| <= dst.Length
    modifies dst
    ensures dst[..] == Overwritten(old(dst[..]), at, s)
  {
    var k := 0;
    while k < |s|
      invariant k <= |s|
      invariant dst[..] == Overwritten(old(dst[..]), at, s[..k])
    {
      dst[at + k] := s[k];
      k := k + 1;
    }
    assert s[..|s|] == s;
  }

  method Ntop4(src: Ipv4, dst: array<char>, at: nat, size: nat) returns (ok: bool)
    requires at + size <= dst.Length
    modifies dst
    ensures ok <==> |Quad(src)| < size
    ensures dst[..] == if ok then Overwritten(old(dst[..]), at, Quad(src) + "\0") else old(dst[..])
  {
    var tmp := Quad(src);
    ok := |tmp| < size;
    if ok {
      Write(dst, at, tmp + "\0");
    }
  }

  /** The words of an address. The C code combines the bytes with `|=` on disjoint
      bits, which is a sum. */
  method ReadWords(src: Ipv6) returns (words: array<nat>)
    ensures fresh(words) && words[..] == WordsOf(src)
  {
    words := new nat[8](_ => 0);
    var i := 0;
    while i < 16
      invariant 0 <= i <= 16
      invariant forall k :: 0 <= k < 8 ==>
                  words[k] == if 2 * k + 1 < i then Word(src, k) else if 2 * k < i then src[2 * k] as int * 256 else 0
    {
      words[i / 2] := words[i / 2] + if i % 2 == 0 then src[i] as int * 256 else src[i];
      i := i + 1;
    }
  }

  // ----- The longest run of zero words -----

  /** A run that ends at `i` and cannot be extended to the left; base -1 if word `i - 1` is not zero. */
  predicate CurrentRun(w: Words, i: nat, cur: Gap)
    requires i <= 8
  {
    if cur.base == -1 then i == 0 || w[i - 1] != 0
    else
      0 <= cur.base && 0 < cur.len && cur.base + cur.len == i && ZeroRun(w, cur.base, cur.len) &&
      (cur.base == 0 || w[cur.base - 1] != 0)
  }

  /** `best` is the first longest of the nonempty runs before the current one. */
  ghost predicate BestBefore(w: Words, i: nat, cur: Gap, best: Gap)
    requires i <= 8
  {
    (best.base != -1 ==>
      0 <= best.base && 0 < best.len && ZeroRun(w, best.base, best.len) &&
      best.base + best.len <= (if cur.base == -1 then i else cur.base)) &&
    forall base: nat, len: nat :: ZeroRun(w, base, len) && 0 < len && base + len <= i ==>
      (cur.base != -1 && cur.base <= base) ||
      (best.base != -1 && (len < best.len || (len == best.len && best.base <= base)))
  }

  /** `best` replaced by the run that just ended, if that one is longer. */
  function Better(best: Gap, cur: Gap): Gap {
    if cur.base != -1 && (best.base == -1 || cur.len > best.len) then cur else best
  }

  lemma RunEnds(w: Words, i: nat, cur: Gap, best: Gap)
    requires i <= 8 && CurrentRun(w, i, cur) && BestBefore(w, i, cur, best)
    ensures BestBefore(w, i, NO_GAP, Better(best, cur))
  {
  }

  lemma RunGrows(w: Words, i: nat, cur: Gap, best: Gap)
    requires i < 8 && w[i] == 0 && CurrentRun(w, i, cur) && BestBefore(w, i, cur, best)
    ensures var cur' := if cur.base == -1 then Gap(i, 1) else Gap(cur.base, cur.len + 1);
      CurrentRun(w, i + 1, cur') && BestBefore(w, i + 1, cur', best)
  {
    var cur' := if cur.base == -1 then Gap(i, 1) else Gap(cur.base, cur.len + 1);
    forall base: nat, len: nat | ZeroRun(w, base, len) && 0 < len && base + len <= i + 1 && base < cur'.base
      ensures best.base != -1 && (len < best.len || (len == best.len && best.base <= base))
    {
      assert w[cur'.base - 1] != 0;
      assert base + len <= i;
    }
  }

  method FindGap(words: array<nat>, ghost w: Words) returns (best: Gap)
    requires words[..] == w
    ensures BestGap(w, best)
  {
    best := NO_GAP;
    var cur := NO_GAP;
    var i := 0;
    while i < 8
      invariant 0 <= i <= 8 && CurrentRun(w, i, cur) && BestBefore(w, i, cur, best)
    {
      assert words[i] == w[i];
      if words[i] == 0 {
        RunGrows(w, i, cur, best);
        if cur.base == -1 {
          cur := Gap(i, 1);
        } else {
          cur := Gap(cur.base, cur.len + 1);
        }
      } else {
        RunEnds(w, i, cur, best);
        if cur.base != -1 {
          if best.base == -1 || cur.len > best.len {
            best := cur;
          }
          cur := NO_GAP;
        }
        assert forall base: nat, len: nat :: ZeroRun(w, base, len) && 0 < len && base + len <= i + 1 ==>
          base + len <= i;
      }
      i := i + 1;
    }
    RunEnds(w, 8, cur, best);
    if cur.base != -1 {
      if best.base == -1 || cur.len > best.len {
        best := cur;
      }
    }
    if best.base != -1 && best.len < 2 {
      best := NO_GAP;
    }
  }

  // ----- Formatting -----

  /** sprintf or `*tp++ = c`: the text so far grows by `s`. */
  method Append(tmp: array<char>, tp: nat, s: string) returns (tp': nat)
    requires tp + |s| <= tmp.Length
    modifies tmp
    ensures tp' == tp + |s| && tmp[..tp'] == old(tmp[..tp]) + s
  {
    Write(tmp, tp, s);
    tp' := tp + |s|;
  }

  /** What word `i` adds to the text, with its colon. */
  function Emitted(a: Ipv6, g: Gap, i: nat): string
    requires i < 8
  {
    if InGap(g, i) then (if i == g.base then ":" else "")
    else (if i != 0 then ":" else "") + if LastIsQuad(a, g, i) then Quad(a[12..]) else Numeral(Word(a, i), 16)
  }

  predicate LastIsQuad(a: Ipv6, g: Gap, i: nat) { i == 6 && Embeds(WordsOf(a), g) }

  lemma TextStep(a: Ipv6, g: Gap, i: nat)
    requires i < 8
    ensures TextFrom(a, g, i) ==
            Emitted(a, g, i) + if LastIsQuad(a, g, i) then TextFrom(a, g, 8) else TextFrom(a, g, i + 1)
  {
    hide Numeral, Quad;
  }

  /** One turn of the formatting loop; `last` if it ends the loop. */
  method FormatWord(src: Ipv6, words: array<nat>, best: Gap, tmp: array<char>, tp: nat, i: nat)
    returns (tp': nat, last: bool)
    requires words[..] == WordsOf(src) && i < 8 && tp + |Emitted(src, best, i)| < tmp.Length
    modifies tmp
    ensures tp' == tp + |Emitted(src, best, i)| && tmp[..tp'] == old(tmp[..tp]) + Emitted(src, best, i)
    ensures last <==> LastIsQuad(src, best, i)
  {
    hide Numeral, Quad;
    tp', last := tp, false;
    if best.base != -1 && i >= best.base && i < best.base + best.len {
      if i == best.base {
        tp' := Append(tmp, tp, ":");
      }
      return;
    }
    if i != 0 {
      tp' := Append(tmp, tp', ":");
    }
    assert words[i] == Word(src, i) && words[5] == WordsOf(src)[5];
    if i == 6 && best.base == 0 && (best.len == 6 || (best.len == 5 && words[5] == 0xffff)) {
      ghost var before := tmp[..tp'];
      var ok := Ntop4(src[12..], tmp, tp', tmp.Length - tp');
      tp', last := tp' + |Quad(src[12..])|, true;
      assert tmp[..tp'] == before + Quad(src[12..]);
    } else {
      tp' := Append(tmp, tp', Numeral(words[i], 16));
    }
  }

  lemma Regroup(done: string, s: string, rest: string)
    ensures done + (s + rest) == (done + s) + rest
  {
  }

  /** The address as text in `tmp`, followed by NUL. */
  method Format(src: Ipv6, words: array<nat>, best: Gap, tmp: array<char>) returns (tp: nat)
    requires words[..] == WordsOf(src) && tmp.Length == 46
    modifies tmp
    ensures tp == |TextOf(src, best)| + 1 <= 46 && tmp[..tp] == TextOf(src, best) + "\0"
    ensures BestGap(WordsOf(src), best) ==> DottedRight(src, TextOf(src, best))
  {
    hide Emitted, BestGap, DottedRight;
    ghost var text := TextOf(src, best);
    TextFits(src, best);
    tp := 0;
    var i := 0;
    while i < 8
      invariant 0 <= i <= 8 && 0 <= tp <= 46
      invariant tmp[..tp] + TextFrom(src, best, i) == text
    {
      TextStep(src, best, i);
      ghost var s := Emitted(src, best, i);
      hide TextFrom;
      var last;
      ghost var done := tmp[..tp];
      tp, last := FormatWord(src, words, best, tmp, tp, i);
      Regroup(done, s, if last then TextFrom(src, best, 8) else TextFrom(src, best, i + 1));
      i := if last then 8 else i + 1;
    }
    if best.base != -1 && best.base + best.len == 8 {
      tp := Append(tmp, tp, ":");
    }
    tp := Append(tmp, tp, "\0");
    if BestGap(WordsOf(src), best) { DottedExactly(src, best); }
  }

  /** Prints the address with its first longest run of two or more zero words as
      `::`, and exactly the compatible and mapped addresses with a dotted quad. Fails
      exactly when the text and its NUL do not fit in `size` bytes, and then leaves `dst`
      alone. */
  method Ntop6(src: Ipv6, dst: array<char>, size: nat) returns (ok: bool, ghost best: Gap)
    requires size <= dst.Length
    modifies dst
    ensures BestGap(WordsOf(src), best)
    ensures DottedRight(src, TextOf(src, best))
    ensures ok <==> |TextOf(src, best)| < size
    ensures dst[..] == if ok then Overwritten(old(dst[..]), 0, TextOf(src, best) + "\0") else old(dst[..])
  {
    var words := ReadWords(src);
    var gap := FindGap(words, WordsOf(src));
    best := gap;
    DottedExactly(src, best);
    hide DottedRight, BestGap;
    var tmp := new char[46];
    var tp := Format(src, words, gap, tmp);
    ok := tp <= size;
    if ok {
      Write(dst, 0, tmp[..tp]);
    }
  }
}
