/** Parsing a printed address gives the address back. */
module InetRoundTrip {
  import opened Common
  import opened InetText
  import opened InetPton

  // ----- Numbers -----

  lemma DigitOf(d: nat)
    requires d < 16
    ensures DigitValue(DigitChar(d), 16) == d && (d < 10 ==> DigitValue(DigitChar(d), 10) == d)
    ensures DigitChar(d) != '\0'
  {
  }

  lemma Shift(s: string, c: char, rest: string)
    ensures (s + [c]) + rest == s + ([c] + rest) && ([c] + rest)[1..] == rest
  {
  }

  lemma {:induction false} Scan4Number(n: nat, rest: string, done: seq<byte>)
    requires n <= 255 && |done| <= 3
    ensures Scan4(Numeral(n, 10) + rest, done, false, 0) == Scan4(rest, done, true, n)
    decreases n
  {
    DigitOf(n % 10);
    var c := DigitChar(n % 10);
    hide DigitValue, DigitChar;
    if n < 10 {
      Shift([], c, rest);
    } else {
      Shift(Numeral(n / 10, 10), c, rest);
      Scan4Number(n / 10, [c] + rest, done);
    }
  }

  lemma Scan4Dot(rest: string, done: seq<byte>, cur: byte)
    requires |done| < 3
    ensures Scan4("." + rest, done, true, cur) == Scan4(rest, done + [cur], false, 0)
  {
    Shift([], '.', rest);
  }

  lemma Dots(a: string, b: string, c: string, d: string)
    ensures a + "." + b + "." + c + "." + d == a + ("." + (b + ("." + (c + ("." + d)))))
  {
  }

  lemma OctetDot(n: byte, rest: string, done: seq<byte>)
    requires |done| < 3
    ensures Scan4(Numeral(n, 10) + ("." + rest), done, false, 0) == Scan4(rest, done + [n], false, 0)
  {
    hide Numeral, Scan4;
    Scan4Number(n, "." + rest, done);
    Scan4Dot(rest, done, n);
  }

  lemma LastOctet(n: byte, done: seq<byte>)
    requires |done| == 3
    ensures Scan4(Numeral(n, 10), done, false, 0) == Some(done + [n])
  {
    hide Numeral, Scan4;
    assert Numeral(n, 10) + "" == Numeral(n, 10);
    Scan4Number(n, "", done);
    Scan4End(done, n);
  }

  /** inet_pton4 reads back what inet_ntop4 prints. */
  lemma QuadRoundTrip(a: Ipv4)
    ensures Scan4(Quad(a), [], false, 0) == Some(a)
  {
    hide Numeral, Scan4;
    var n0, n1, n2, n3 := Numeral(a[0], 10), Numeral(a[1], 10), Numeral(a[2], 10), Numeral(a[3], 10);
    Dots(n0, n1, n2, n3);
    var one := [] + [a[0]];
    var two := one + [a[1]];
    var three := two + [a[2]];
    OctetDot(a[0], n1 + ("." + (n2 + ("." + n3))), []);
    OctetDot(a[1], n2 + ("." + n3), one);
    OctetDot(a[2], n3, two);
    LastOctet(a[3], three);
    assert three + [a[3]] == a;
  }

  lemma Scan4End(done: seq<byte>, cur: byte)
    requires |done| == 3
    ensures Scan4("", done, true, cur) == Some(done + [cur])
  {
  }

  lemma {:induction false} Scan6Number(n: nat, rest: string, tok: string, out: seq<byte>, colon: Colon)
    requires n < 0x10000 && colon <= |out| <= 16
    ensures Scan6(Numeral(n, 16) + rest, tok, out, colon, false, 0) == Scan6(rest, tok, out, colon, true, n)
    decreases n
  {
    DigitOf(n % 16);
    var c := DigitChar(n % 16);
    hide DigitValue, DigitChar, FinishWord, Scan4;
    if n < 16 {
      Shift([], c, rest);
    } else {
      Shift(Numeral(n / 16, 16), c, rest);
      Scan6Number(n / 16, [c] + rest, tok, out, colon);
    }
  }

  /** The digits of a decimal octet read as hexadecimal. */
  function HexReading(n: nat): nat { if n < 10 then n else HexReading(n / 10) * 16 + n % 10 }

  lemma HexReadingTens(n: nat)
    requires n <= 25
    ensures HexReading(n) <= 0x29
  {
    if n >= 10 { assert HexReading(n / 10) == n / 10 <= 2; }
  }

  lemma HexReadingSmall(n: nat)
    requires n <= 255
    ensures HexReading(n) <= 0x299
  {
    if n >= 10 { HexReadingTens(n / 10); }
  }

  /** The octet before the first dot is read as part of a hexadecimal word first. */
  lemma {:induction false} Scan6Octet(n: nat, rest: string, tok: string, out: seq<byte>, colon: Colon)
    requires n <= 255 && colon <= |out| <= 16
    ensures HexReading(n) <= 0x299
    ensures Scan6(Numeral(n, 10) + rest, tok, out, colon, false, 0) == Scan6(rest, tok, out, colon, true, HexReading(n))
    decreases n
  {
    HexReadingSmall(n);
    DigitOf(n % 10);
    var c := DigitChar(n % 10);
    hide DigitValue, DigitChar, FinishWord, Scan4;
    if n < 10 {
      Shift([], c, rest);
    } else {
      HexReadingSmall(n / 10);
      Shift(Numeral(n / 10, 10), c, rest);
      Scan6Octet(n / 10, [c] + rest, tok, out, colon);
    }
  }

  lemma Scan6Quad(a: Ipv4, out: seq<byte>, colon: Colon)
    requires colon <= |out| <= 12
    ensures Scan6(Quad(a), Quad(a), out, colon, false, 0) == Finish(out + a, colon)
  {
    var n0 := Numeral(a[0], 10);
    var rest := Numeral(a[1], 10) + "." + Numeral(a[2], 10) + "." + Numeral(a[3], 10);
    QuadRoundTrip(a);
    Scan6Octet(a[0], "." + rest, Quad(a), out, colon);
    QuadSplit(a);
    hide Scan4, Numeral, Quad;
    assert ("." + rest)[0] == '.';
  }

  lemma QuadSplit(a: Ipv4)
    ensures Quad(a) ==
      Numeral(a[0], 10) + ("." + (Numeral(a[1], 10) + "." + Numeral(a[2], 10) + "." + Numeral(a[3], 10)))
  {
    hide Numeral;
  }

  // ----- Words -----

  /** Any run of zero words may stand behind the `::`; the printer picks the best one. */
  predicate GapOk(a: Ipv6, g: Gap) {
    g.base == -1 || (0 <= g.base && 0 < g.len && ZeroRun(WordsOf(a), g.base, g.len))
  }

  predicate AfterGap(g: Gap, j: nat) { g.base != -1 && g.base + g.len <= j }

  /** The parser's bytes when it has read all of the text before word `j` up to a colon. */
  function Bytes(a: Ipv6, g: Gap, j: nat): seq<byte>
    requires GapOk(a, g) && j <= 8
  {
    if AfterGap(g, j) then a[..2 * g.base] + a[2 * (g.base + g.len)..2 * j] else a[..2 * j]
  }

  function ColonAt(a: Ipv6, g: Gap, j: nat): Colon
    requires GapOk(a, g)
  {
    if AfterGap(g, j) then 2 * g.base else -1
  }

  lemma BytesOfWord(a: Ipv6, i: nat)
    requires i < 8
    ensures [HighByte(Word(a, i)), LowByte(Word(a, i))] == a[2 * i..2 * i + 2]
  {
  }

  lemma NextBytes(a: Ipv6, g: Gap, j: nat)
    requires GapOk(a, g) && j < 8 && !InGap(g, j)
    ensures ColonAt(a, g, j) <= |Bytes(a, g, j)| <= 14 && ColonAt(a, g, j + 1) == ColonAt(a, g, j)
    ensures Bytes(a, g, j + 1) == Bytes(a, g, j) + [HighByte(Word(a, j)), LowByte(Word(a, j))]
  {
    BytesOfWord(a, j);
    if AfterGap(g, j) {
      var k := 2 * (g.base + g.len);
      assert a[k..2 * (j + 1)] == a[k..2 * j] + a[2 * j..2 * j + 2];
    } else {
      assert a[..2 * (j + 1)] == a[..2 * j] + a[2 * j..2 * j + 2];
    }
  }

  /** The parser, with `s` to go, when the printer is about to print word `i`. Inside
      the gap it has read the first of the two colons. */
  function ScanAt(a: Ipv6, g: Gap, i: nat, s: string, tok: string): Option<seq<byte>>
    requires GapOk(a, g) && i <= 8
  {
    if i == 0 then Scan6(s, tok, [], -1, false, 0)
    else if InGap(g, i - 1) then Scan6(s, tok, Bytes(a, g, g.base), -1, false, 0)
    else
      NextBytes(a, g, i - 1);
      Scan6(s, tok, Bytes(a, g, i - 1), ColonAt(a, g, i - 1), true, Word(a, i - 1))
  }

  /** A colon before a printed word ends the word before it, or is the second of a `::`. */
  lemma ColonRead(a: Ipv6, g: Gap, i: nat, s: string, tok: string)
    requires GapOk(a, g) && 0 < i <= 8 && !InGap(g, i) && (i < 8 || InGap(g, 7))
    ensures ColonAt(a, g, i) <= |Bytes(a, g, i)| <= 16
    ensures ScanAt(a, g, i, ":" + s, tok) == Scan6(s, s, Bytes(a, g, i), ColonAt(a, g, i), false, 0)
  {
    Shift([], ':', s);
    hide WordsOf, FinishWord, Scan4;
    if InGap(g, i - 1) {
      assert Bytes(a, g, g.base) == Bytes(a, g, i);
    } else {
      NextBytes(a, g, i - 1);
    }
  }

  /** The bytes of a finished address, spread over the gap. */
  lemma Filled(a: Ipv6, g: Gap)
    requires GapOk(a, g) && !InGap(g, 8)
    ensures ColonAt(a, g, 8) <= |Bytes(a, g, 8)| <= 16 && Finish(Bytes(a, g, 8), ColonAt(a, g, 8)) == Some(a)
  {
    if g.base != -1 {
      var lo, hi := 2 * g.base, 2 * (g.base + g.len);
      forall k | lo <= k < hi
        ensures a[k] == 0
      {
        assert WordsOf(a)[k / 2] == 0;
      }
      assert a[lo..hi] == Zeros(hi - lo);
      assert a == a[..lo] + a[lo..hi] + a[hi..];
      var out := Bytes(a, g, 8);
      assert out[..lo] == a[..lo] && out[lo..] == a[hi..] && 16 - |out| == hi - lo;
    } else {
      assert Bytes(a, g, 8) == a;
    }
  }

  /** The whole rest of a printed address, from word `i` on. */
  lemma {:induction false} RestRoundTrip(a: Ipv6, g: Gap, i: nat, tok: string)
    requires GapOk(a, g) && i <= 8 && (i == 0 ==> !InGap(g, 0))
    ensures ScanAt(a, g, i, TextFrom(a, g, i), tok) == Some(a)
    decreases 8 - i
  {
    if i == 8 {
      EndRoundTrip(a, g, tok);
    } else if InGap(g, i) {
      GapRoundTrip(a, g, i, tok);
      RestRoundTrip(a, g, i + 1, if i == g.base then TextFrom(a, g, i + 1) else tok);
    } else {
      var body :=
        if i == 6 && Embeds(WordsOf(a), g) then Quad(a[12..]) else Numeral(Word(a, i), 16) + TextFrom(a, g, i + 1);
      if i > 0 {
        ColonRead(a, g, i, body, tok);
      } else {
        assert "" + body == body;
      }
      var tok' := if i > 0 then body else tok;
      if i == 6 && Embeds(WordsOf(a), g) {
        EmbeddedRoundTrip(a, g);
      } else {
        NextBytes(a, g, i);
        Scan6Number(Word(a, i), TextFrom(a, g, i + 1), tok', Bytes(a, g, i), ColonAt(a, g, i));
        RestRoundTrip(a, g, i + 1, tok');
      }
    }
  }

  lemma EndRoundTrip(a: Ipv6, g: Gap, tok: string)
    requires GapOk(a, g)
    ensures ScanAt(a, g, 8, TextFrom(a, g, 8), tok) == Some(a)
  {
    Filled(a, g);
    hide Finish, WordsOf;
    if InGap(g, 7) {
      ColonRead(a, g, 8, "", tok);
      assert ":" + "" == ":";
    } else {
      NextBytes(a, g, 7);
    }
  }

  lemma GapRoundTrip(a: Ipv6, g: Gap, i: nat, tok: string)
    requires GapOk(a, g) && 0 < i < 8 && InGap(g, i)
    ensures var rest := TextFrom(a, g, i + 1);
      ScanAt(a, g, i, TextFrom(a, g, i), tok) == ScanAt(a, g, i + 1, rest, if i == g.base then rest else tok)
  {
    hide WordsOf, FinishWord, Scan4;
    var rest := TextFrom(a, g, i + 1);
    if i == g.base {
      NextBytes(a, g, i - 1);
      Shift([], ':', rest);
    } else {
      assert "" + rest == rest;
    }
  }

  lemma EmbeddedRoundTrip(a: Ipv6, g: Gap)
    requires GapOk(a, g) && Embeds(WordsOf(a), g)
    ensures Bytes(a, g, 6) == a[2 * g.len..12] && ColonAt(a, g, 6) == 0
    ensures Scan6(Quad(a[12..]), Quad(a[12..]), Bytes(a, g, 6), 0, false, 0) == Some(a)
  {
    hide Quad;
    Scan6Quad(a[12..], Bytes(a, g, 6), 0);
    assert Bytes(a, g, 6) + a[12..] == Bytes(a, g, 8);
    Filled(a, g);
  }

  lemma {:induction false} GapThenColon(a: Ipv6, g: Gap, i: nat)
    requires GapOk(a, g) && 0 < i <= 8 && InGap(g, i - 1)
    ensures TextFrom(a, g, i) != [] && TextFrom(a, g, i)[0] == ':'
    decreases 8 - i
  {
    hide WordsOf, Numeral, Quad;
    if i < 8 && InGap(g, i) {
      GapThenColon(a, g, i + 1);
      assert "" + TextFrom(a, g, i + 1) == TextFrom(a, g, i + 1);
    }
  }

  lemma {:induction false} NumeralStartsWithDigit(n: nat)
    ensures Numeral(n, 16) != [] && DigitValue(Numeral(n, 16)[0], 16) >= 0
  {
    if n >= 16 { NumeralStartsWithDigit(n / 16); } else { DigitOf(n); }
  }

  /** inet_pton6 reads back every text of an address, whichever run of zeros was
      left out. */
  lemma GapRoundTrips(a: Ipv6, g: Gap)
    requires GapOk(a, g)
    ensures Scanned6(TextOf(a, g)) == Some(a)
  {
    hide WordsOf, Scan6, Quad;
    var text := TextOf(a, g);
    if InGap(g, 0) {
      var rest := TextFrom(a, g, 1);
      GapThenColon(a, g, 1);
      Shift([], ':', rest);
      assert text == ":" + rest && text[1] == ':';
      assert Bytes(a, g, 0) == [];
      RestRoundTrip(a, g, 1, rest);
    } else {
      NumeralStartsWithDigit(Word(a, 0));
      RestRoundTrip(a, g, 0, text);
    }
  }

  /** inet_pton6 reads back what inet_ntop6 prints, for every address. */
  lemma RoundTrip6(a: Ipv6, g: Gap)
    requires BestGap(WordsOf(a), g)
    ensures Scanned6(TextOf(a, g)) == Some(a)
  {
    GapRoundTrips(a, g);
  }

  /** So two addresses never print alike. */
  lemma TextIdentifies(a: Ipv6, g: Gap, a': Ipv6, g': Gap)
    requires BestGap(WordsOf(a), g) && BestGap(WordsOf(a'), g') && TextOf(a, g) == TextOf(a', g')
    ensures a == a'
  {
    RoundTrip6(a, g);
    RoundTrip6(a', g');
  }

  // ----- A `::` in a full address -----

  /** The text from word `i` on of an address with all its words and a `::` before word `j`,
      the last two words perhaps as a dotted quad. */
  function FullFrom(a: Ipv6, j: nat, quad: bool, i: nat): string
    requires i <= 8
    decreases 8 - i
  {
    if quad && i == 6 then (if j == 6 then "::" else ":") + Quad(a[12..])
    else if i == 8 then (if j == 8 then "::" else "")
    else (if i == j then "::" else if i != 0 then ":" else "") + (Numeral(Word(a, i), 16) + FullFrom(a, j, quad, i + 1))
  }

  function FullText(a: Ipv6, j: nat, quad: bool): string { FullFrom(a, j, quad, 0) }

  /** How many places for the `::` there are. */
  function Places(quad: bool): nat { if quad then 6 else 8 }

  function Cleared(a: Ipv6, j: nat): Ipv6
    requires j <= 8
  {
    a[..2 * j] + Zeros(16 - 2 * j)
  }

  lemma TwoColons(s: string)
    ensures "::" + s == ":" + (":" + s)
  {
  }

  lemma WordDone(a: Ipv6, i: nat, s: string, tok: string, colon: Colon)
    requires 0 < i <= 8 && colon <= 2 * (i - 1)
    ensures Scan6(":" + s, tok, a[..2 * (i - 1)], colon, true, Word(a, i - 1)) ==
      Scan6(s, s, a[..2 * i], colon, false, 0)
  {
    hide FinishWord, Scan4;
    Shift([], ':', s);
    BytesOfWord(a, i - 1);
    assert a[..2 * i] == a[..2 * (i - 1)] + a[2 * (i - 1)..2 * (i - 1) + 2];
  }

  lemma SecondColon(out: seq<byte>, s: string, tok: string)
    requires |out| <= 16
    ensures Scan6(":" + s, tok, out, -1, false, 0) == Scan6(s, s, out, |out|, false, 0)
  {
    hide FinishWord, Scan4;
    Shift([], ':', s);
  }

  /** The parser after word `i - 1`, with the rest of the text to go. */
  lemma {:induction false} FullRest(a: Ipv6, j: nat, quad: bool, i: nat, tok: string)
    requires j <= Places(quad) && 0 < i <= Places(quad)
    ensures Scan6(FullFrom(a, j, quad, i), tok, a[..2 * (i - 1)], if j < i then 2 * j else -1, true, Word(a, i - 1)) ==
      Some(Cleared(a, j))
    decreases 8 - i
  {
    hide Scan6, Numeral, Word;
    var colon := if j < i then 2 * j else -1;
    if i == 8 {
      FullEnd(a, j, tok);
    } else if quad && i == 6 {
      QuadEnd(a, j, tok);
    } else {
      var rest := FullFrom(a, j, quad, i + 1);
      var body := Numeral(Word(a, i), 16) + rest;
      WordBound(a, i);
      if i == j {
        TwoColons(body);
        WordDone(a, i, ":" + body, tok, -1);
        SecondColon(a[..2 * i], body, ":" + body);
      } else {
        WordDone(a, i, body, tok, colon);
      }
      Scan6Number(Word(a, i), rest, body, a[..2 * i], if j <= i then 2 * j else -1);
      FullRest(a, j, quad, i + 1, body);
    }
  }

  lemma WordBound(a: Ipv6, i: nat)
    requires i < 8
    ensures Word(a, i) < 0x10000
  {
  }

  lemma FullEnd(a: Ipv6, j: nat, tok: string)
    requires j <= 8
    ensures Scan6(FullFrom(a, j, false, 8), tok, a[..14], if j < 8 then 2 * j else -1, true, Word(a, 7)) ==
      Some(Cleared(a, j))
  {
    assert a[..16] == a;
    if j == 8 {
      TwoColons("");
      WordDone(a, 8, ":", tok, -1);
      SecondColon(a, "", ":");
      assert ":" + "" == ":";
    } else {
      BytesOfWord(a, 7);
      assert a == a[..14] + a[14..16];
    }
  }

  lemma QuadEnd(a: Ipv6, j: nat, tok: string)
    requires j <= 6
    ensures Scan6(FullFrom(a, j, true, 6), tok, a[..10], if j < 6 then 2 * j else -1, true, Word(a, 5)) ==
      Some(Cleared(a, j))
  {
    hide Scan6, Quad, Word, Numeral;
    var text := Quad(a[12..]);
    if j == 6 {
      TwoColons(text);
      WordDone(a, 6, ":" + text, tok, -1);
      SecondColon(a[..12], text, ":" + text);
    } else {
      WordDone(a, 6, text, tok, 2 * j);
    }
    Scan6Quad(a[12..], a[..12], 2 * j);
    assert a[..12] + a[12..] == a;
  }

  lemma WordsZero(a: Ipv6, j: nat)
    requires j <= 8
    ensures Cleared(a, j) == a <==> forall i :: j <= i < 8 ==> Word(a, i) == 0
  {
    if Cleared(a, j) == a {
      forall i | j <= i < 8 ensures Word(a, i) == 0 {
        assert Cleared(a, j)[2 * i] == 0 && Cleared(a, j)[2 * i + 1] == 0;
      }
    }
    if forall i :: j <= i < 8 ==> Word(a, i) == 0 {
      forall k | 2 * j <= k < 16 ensures a[k] == 0 { assert Word(a, k / 2) == 0; }
      assert a == Cleared(a, j);
    }
  }

  /** A `::` in an address that has all its words is not ignored, as the comment on
      inet_pton6 says: every word after it is cleared. The address survives exactly when
      those words were zero anyway. */
  lemma FullAddressColon(a: Ipv6, j: nat, quad: bool)
    requires j <= Places(quad)
    ensures Scanned6(FullText(a, j, quad)) == Some(a[..2 * j] + Zeros(16 - 2 * j))
    ensures Scanned6(FullText(a, j, quad)) == Some(a) <==> forall i :: j <= i < 8 ==> Word(a, i) == 0
  {
    hide Scan6, Numeral, Word, Cleared, Quad;
    WordsZero(a, j);
    WordBound(a, 0);
    var rest := FullFrom(a, j, quad, 1);
    var body := Numeral(Word(a, 0), 16) + rest;
    if j == 0 {
      TwoColons(body);
      assert ("::" + body)[1..] == ":" + body;
      SecondColon([], body, ":" + body);
    } else {
      NumeralStartsWithDigit(Word(a, 0));
      assert "" + body == body;
    }
    assert a[..0] == [];
    Scan6Number(Word(a, 0), rest, body, [], if j == 0 then 0 else -1);
    FullRest(a, j, quad, 1, body);
    ClearedIs(a, j);
  }

  lemma ClearedIs(a: Ipv6, j: nat)
    requires j <= 8
    ensures Cleared(a, j) == a[..2 * j] + Zeros(16 - 2 * j)
  {
  }

  lemma SmallNumeral(n: nat)
    requires n < 16
    ensures Numeral(n, 16) == [DigitChar(n)]
  {
  }

  const ONE_TO_EIGHT: Ipv6 := [0, 1, 0, 2, 0, 3, 0, 4, 0, 5, 0, 6, 0, 7, 0, 8]

  /** The text 1:2:3:4:5:6:7::8 loses its last word. */
  lemma LastWordLost()
    ensures Scanned6("1:2:3:4:5:6:7::8") == Some([0, 1, 0, 2, 0, 3, 0, 4, 0, 5, 0, 6, 0, 7, 0, 0])
  {
    hide Scanned6;
    var a := ONE_TO_EIGHT;
    FullAddressColon(a, 7, false);
    OneToEightText();
    assert a[..14] + Zeros(2) == [0, 1, 0, 2, 0, 3, 0, 4, 0, 5, 0, 6, 0, 7, 0, 0];
  }

  lemma FullStep(a: Ipv6, j: nat, i: nat, rest: string, text: string)
    requires 0 < i < 8 && i != j && Word(a, i) < 10 && FullFrom(a, j, false, i + 1) == rest
    requires text == [':', DigitChar(Word(a, i))] + rest
    ensures FullFrom(a, j, false, i) == text
  {
    SmallNumeral(Word(a, i));
    hide Numeral, Word;
  }

  lemma TailText(a: Ipv6)
    requires forall i :: 0 <= i < 8 ==> Word(a, i) == i + 1
    ensures FullFrom(a, 7, false, 4) == ":5:6:7::8"
  {
    hide Word, FullFrom, Numeral;
    LastText(a);
    FullStep(a, 7, 6, "::8", ":7::8");
    FullStep(a, 7, 5, ":7::8", ":6:7::8");
    FullStep(a, 7, 4, ":6:7::8", ":5:6:7::8");
  }

  lemma LastText(a: Ipv6)
    requires Word(a, 7) == 8
    ensures FullFrom(a, 7, false, 7) == "::8"
  {
    hide Word, Numeral;
    SmallNumeral(8);
    assert FullFrom(a, 7, false, 8) == "";
  }

  lemma OneToEightText()
    ensures FullText(ONE_TO_EIGHT, 7, false) == "1:2:3:4:5:6:7::8"
  {
    var a := ONE_TO_EIGHT;
    forall i | 0 <= i < 8 ensures Word(a, i) == i + 1 {}
    TailText(a);
    HeadText(a);
  }

  lemma HeadText(a: Ipv6)
    requires FullFrom(a, 7, false, 4) == ":5:6:7::8" && forall i :: 0 <= i < 8 ==> Word(a, i) == i + 1
    ensures FullText(a, 7, false) == "1:2:3:4:5:6:7::8"
  {
    hide Word, FullFrom, Numeral;
    FullStep(a, 7, 3, ":5:6:7::8", ":4:5:6:7::8");
    FullStep(a, 7, 2, ":4:5:6:7::8", ":3:4:5:6:7::8");
    FullStep(a, 7, 1, ":3:4:5:6:7::8", ":2:3:4:5:6:7::8");
    FullStart(a, 7, ":2:3:4:5:6:7::8");
  }

  lemma FullStart(a: Ipv6, j: nat, rest: string)
    requires 0 < j && Word(a, 0) < 10 && FullFrom(a, j, false, 1) == rest
    ensures FullText(a, j, false) == [DigitChar(Word(a, 0))] + rest
  {
    SmallNumeral(Word(a, 0));
    hide Numeral, Word;
  }

  // ----- The text is a C string -----

  lemma {:induction false} NumeralNoNul(n: nat, base: nat)
    requires base == 10 || base == 16
    ensures '\0' !in Numeral(n, base)
  {
    DigitOf(n % base);
    if n >= base { NumeralNoNul(n / base, base); }
  }

  /** The NUL that inet_ntop6 writes is the end of its text. */
  lemma {:induction false} TextNoNul(a: Ipv6, g: Gap, i: nat)
    requires i <= 8
    ensures '\0' !in TextFrom(a, g, i)
    decreases 8 - i
  {
    if i < 8 {
      TextNoNul(a, g, i + 1);
      NumeralNoNul(Word(a, i), 16);
      NumeralNoNul(a[12], 10);
      NumeralNoNul(a[13], 10);
      NumeralNoNul(a[14], 10);
      NumeralNoNul(a[15], 10);
      hide Numeral;
    }
  }
}
