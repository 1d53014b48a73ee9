/** The form of a printed address: which addresses show a dotted quad, and that numbers are
    written in lower case and without leading zeros. */
module InetForm {
  import opened Common
  import opened InetText

  // ----- Numerals -----

  predicate LowerHex(c: char) { '0' <= c <= '9' || 'a' <= c <= 'f' }

  lemma {:induction false} NumeralForm(n: nat, base: nat)
    requires base == 10 || base == 16
    ensures var s := Numeral(n, base);
      s != [] && (s[0] == '0' <==> n == 0) && (n == 0 ==> s == "0") &&
      (forall i :: 0 <= i < |s| ==> LowerHex(s[i])) && '.' !in s && ':' !in s
  {
    if n >= base { NumeralForm(n / base, base); }
  }

  /** An address is written in lower-case digits, colons and dots only. */
  lemma {:induction false} TextLetters(a: Ipv6, g: Gap, i: nat)
    requires i <= 8
    ensures forall c :: c in TextFrom(a, g, i) ==> LowerHex(c) || c == ':' || c == '.'
    decreases 8 - i
  {
    if i < 8 {
      TextLetters(a, g, i + 1);
      NumeralForm(Word(a, i), 16);
      QuadLetters(a[12..]);
      hide Numeral, Quad;
    }
  }

  lemma QuadLetters(q: Ipv4)
    ensures forall c :: c in Quad(q) ==> LowerHex(c) || c == '.'
    ensures '.' in Quad(q)
  {
    NumeralForm(q[0], 10);
    NumeralForm(q[1], 10);
    NumeralForm(q[2], 10);
    NumeralForm(q[3], 10);
    hide Numeral;
    var front := Numeral(q[0], 10);
    assert Quad(q)[|front|] == '.';
  }

  // ----- Dotted quads -----

  predicate AllZero(s: seq<byte>) { forall i :: 0 <= i < |s| ==> s[i] == 0 }

  /** An IPv4-compatible address: twelve zero bytes, and then an IPv4 address that does not
      begin with two more. */
  predicate Compatible(a: Ipv6) { AllZero(a[..12]) && !AllZero(a[12..14]) }

  /** An IPv4-mapped address. */
  predicate Mapped(a: Ipv6) { AllZero(a[..10]) && a[10] == 0xff && a[11] == 0xff }

  lemma WordZero(a: Ipv6, i: nat)
    requires i < 8
    ensures WordsOf(a)[i] == 0 <==> a[2 * i] == 0 && a[2 * i + 1] == 0
    ensures WordsOf(a)[i] == 0xffff <==> a[2 * i] == 0xff && a[2 * i + 1] == 0xff
  {
  }

  lemma ZeroWords(a: Ipv6, n: nat)
    requires n <= 8
    ensures ZeroRun(WordsOf(a), 0, n) <==> AllZero(a[..2 * n])
  {
    hide WordsOf;
    forall i: nat | i < 8 ensures WordsOf(a)[i] == 0 <==> a[2 * i] == 0 && a[2 * i + 1] == 0 { WordZero(a, i); }
    if ZeroRun(WordsOf(a), 0, n) {
      forall k | 0 <= k < 2 * n ensures a[k] == 0 { assert WordsOf(a)[k / 2] == 0; }
    }
    if AllZero(a[..2 * n]) {
      forall i: nat | i < n ensures WordsOf(a)[i] == 0 { assert a[..2 * n][2 * i] == 0 && a[..2 * n][2 * i + 1] == 0; }
    }
  }

  /** A gap at the front is as long as the zero words there. */
  lemma FrontGap(w: Words, g: Gap, n: nat)
    requires BestGap(w, g) && ZeroRun(w, 0, n) && 5 <= n < 8 && w[n] != 0
    ensures g == Gap(0, n)
  {
    assert g.base != -1;
    assert ZeroRun(w, g.base, g.len);
    if g.base <= n < g.base + g.len { assert false; }
  }

  /** The quad is printed exactly for compatible and mapped addresses. */
  lemma EmbedsExactly(a: Ipv6, g: Gap)
    requires BestGap(WordsOf(a), g)
    ensures Embeds(WordsOf(a), g) <==> Compatible(a) || Mapped(a)
    ensures Compatible(a) ==> g == Gap(0, 6)
    ensures Mapped(a) ==> g == Gap(0, 5)
  {
    var w := WordsOf(a);
    ZeroWords(a, 5);
    ZeroWords(a, 6);
    WordZero(a, 5);
    WordZero(a, 6);
    hide WordsOf;
    assert AllZero(a[12..14]) <==> a[12] == 0 && a[13] == 0 by {
      assert a[12..14][0] == a[12] && a[12..14][1] == a[13];
    }
    if Compatible(a) { FrontGap(w, g, 6); }
    if Mapped(a) { FrontGap(w, g, 5); }
    assert w[6] == 0 && ZeroRun(w, 0, 6) ==> ZeroRun(w, 0, 7);
  }

  lemma {:induction false} NoDots(a: Ipv6, g: Gap, i: nat)
    requires i <= 8 && !Embeds(WordsOf(a), g)
    ensures '.' !in TextFrom(a, g, i)
    decreases 8 - i
  {
    if i < 8 {
      NoDots(a, g, i + 1);
      NumeralForm(Word(a, i), 16);
      hide Numeral, WordsOf;
    }
  }

  lemma {:induction false} Inside(a: Ipv6, g: Gap, i: nat)
    requires g.base == 0 && 0 < i <= g.len < 8
    ensures TextFrom(a, g, i) == TextFrom(a, g, g.len)
    decreases g.len - i
  {
    if i < g.len { Inside(a, g, i + 1); }
  }

  lemma CompatibleText(a: Ipv6)
    requires Embeds(WordsOf(a), Gap(0, 6))
    ensures TextOf(a, Gap(0, 6)) == "::" + Quad(a[12..])
  {
    hide Quad, Numeral;
    Inside(a, Gap(0, 6), 1);
    assert TextFrom(a, Gap(0, 6), 6) == ":" + Quad(a[12..]);
  }

  lemma MappedText(a: Ipv6)
    requires Embeds(WordsOf(a), Gap(0, 5))
    ensures TextOf(a, Gap(0, 5)) == "::ffff:" + Quad(a[12..])
  {
    AllOnes();
    hide Quad, Numeral;
    Inside(a, Gap(0, 5), 1);
    assert TextFrom(a, Gap(0, 5), 6) == ":" + Quad(a[12..]);
    assert TextFrom(a, Gap(0, 5), 5) == ":" + ("ffff" + (":" + Quad(a[12..])));
  }

  lemma AllOnes()
    ensures Numeral(0xffff, 16) == "ffff"
  {
    assert Numeral(0xf, 16) == "f";
    assert Numeral(0xff, 16) == "ff";
    assert Numeral(0xfff, 16) == "fff";
  }

  /** Exactly the compatible and the mapped addresses show dots, and their texts are `::` or
      `::ffff:` and the dotted quad of the last four bytes. */
  predicate DottedRight(a: Ipv6, text: string) {
    ('.' in text <==> Compatible(a) || Mapped(a)) && (Compatible(a) ==> text == "::" + Quad(a[12..])) &&
    (Mapped(a) ==> text == "::ffff:" + Quad(a[12..]))
  }

  lemma DottedExactly(a: Ipv6, g: Gap)
    requires BestGap(WordsOf(a), g)
    ensures DottedRight(a, TextOf(a, g))
  {
    EmbedsExactly(a, g);
    hide BestGap, Quad, TextFrom, WordsOf, Compatible, Mapped;
    QuadLetters(a[12..]);
    if Compatible(a) {
      CompatibleText(a);
    } else if Mapped(a) {
      MappedText(a);
    } else {
      NoDots(a, g, 0);
    }
  }
}
