/** The text of IPv4 and IPv6 addresses (section 2.2 of RFC 4291), as the
    printers of inet_ntop.c produce it and the parsers of inet_pton.c read it. */
module InetText {
  import opened Common

  type Ipv4 = b: seq<byte> | |b| == 4 witness [0, 0, 0, 0]
  type Ipv6 = b: seq<byte> | |b| == 16 witness seq(16, _ => 0)
  type Words = w: seq<nat> | |w| == 8 && forall i :: 0 <= i < 8 ==> w[i] < 0x10000 witness seq(8, _ => 0)

  // ----- Digits -----

  /** The digit `d` as printf writes it. */
  function DigitChar(d: nat): char
    requires d < 16
  {
    if d < 10 then '0' + d as char else 'a' + (d - 10) as char
  }

  /** `n` in base `base`, without leading zeros: the text of %u or %x. */
  function Numeral(n: nat, base: nat): string
    requires 2 <= base <= 16
  {
    if n < base then [DigitChar(n)] else Numeral(n / base, base) + [DigitChar(n % base)]
  }

  function Quad(a: Ipv4): string {
    Numeral(a[0], 10) + "." + Numeral(a[1], 10) + "." + Numeral(a[2], 10) + "." + Numeral(a[3], 10)
  }

  // ----- Words -----

  function Word(a: Ipv6, i: nat): nat
    requires i < 8
  {
    var hi: nat := a[2 * i];
    hi * 256 + a[2 * i + 1]
  }

  function WordsOf(a: Ipv6): (w: Words) { seq(8, i requires 0 <= i < 8 => Word(a, i)) }

  /** Words `base` up to `base + len` are zero. */
  predicate ZeroRun(w: Words, base: nat, len: nat) {
    base + len <= 8 && forall i :: base <= i < base + len ==> w[i] == 0
  }

  /** The run that `::` stands for: `base` is -1 for none. */
  datatype Gap = Gap(base: int, len: nat)

  const NO_GAP := Gap(-1, 0)

  /** The first of the longest runs of at least two zero words, if there is one. */
  ghost predicate BestGap(w: Words, g: Gap) {
    if g.base == -1 then forall base: nat, len: nat :: ZeroRun(w, base, len) ==> len < 2
    else
      0 <= g.base && g.len >= 2 && ZeroRun(w, g.base, g.len) &&
      forall base: nat, len: nat :: ZeroRun(w, base, len) ==> len < g.len || (len == g.len && g.base <= base)
  }

  predicate InGap(g: Gap, i: nat) { g.base != -1 && g.base <= i < g.base + g.len }

  /** The last two words are printed as a dotted quad: IPv4-compatible and IPv4-mapped addresses. */
  predicate Embeds(w: Words, g: Gap) {
    g.base == 0 && (g.len == 6 || (g.len == 5 && w[5] == 0xffff))
  }

  /** The text from word `i` on, with the colons before it. */
  function TextFrom(a: Ipv6, g: Gap, i: nat): string
    requires i <= 8
    decreases 8 - i
  {
    if i == 8 then (if g.base != -1 && g.base + g.len == 8 then ":" else "")
    else if InGap(g, i) then (if i == g.base then ":" else "") + TextFrom(a, g, i + 1)
    else
      (if i != 0 then ":" else "") +
      if i == 6 && Embeds(WordsOf(a), g) then Quad(a[12..])
      else Numeral(Word(a, i), 16) + TextFrom(a, g, i + 1)
  }

  function TextOf(a: Ipv6, g: Gap): string { TextFrom(a, g, 0) }

  // ----- Lengths -----

  function Power(base: nat, k: nat): nat { if k == 0 then 1 else base * Power(base, k - 1) }

  lemma {:induction false} NumeralLength(n: nat, base: nat, k: nat)
    requires 2 <= base <= 16 && 0 < k && n < Power(base, k)
    ensures 1 <= |Numeral(n, base)| <= k
    decreases k
  {
    if n >= base {
      assert Power(base, 1) == base;
      DivBelow(n, base, Power(base, k - 1));
      NumeralLength(n / base, base, k - 1);
    }
  }

  lemma DivBelow(n: nat, d: nat, m: nat)
    requires d > 0 && n < d * m
    ensures n / d < m
  {
    var q := n / d;
    assert d * q <= n;
    assert q >= m ==> d * q >= d * m;
  }

  lemma QuadLength(a: Ipv4)
    ensures |Quad(a)| <= 15
  {
    assert Power(10, 2) == 100 && Power(10, 3) == 1000;
    NumeralLength(a[0], 10, 3);
    NumeralLength(a[1], 10, 3);
    NumeralLength(a[2], 10, 3);
    NumeralLength(a[3], 10, 3);
  }

  lemma WordLength(n: nat)
    requires n < 0x10000
    ensures 1 <= |Numeral(n, 16)| <= 4
  {
    assert Power(16, 2) == 0x100 && Power(16, 3) == 0x1000 && Power(16, 4) == 0x10000;
    NumeralLength(n, 16, 4);
  }

  lemma {:induction false} TextFromLength(a: Ipv6, g: Gap, i: nat)
    requires i <= 8
    ensures |TextFrom(a, g, i)| <= 5 * (8 - i) + (if i <= 6 then 6 else 1)
    decreases 8 - i
  {
    hide Numeral, Quad;
    if i < 8 {
      TextFromLength(a, g, i + 1);
      WordLength(Word(a, i));
      if i == 6 { QuadLength(a[12..]); }
    }
  }

  /** The text of an address and its terminating NUL fit the 46 bytes of `tmp`. */
  lemma TextFits(a: Ipv6, g: Gap)
    ensures |TextOf(a, g)| < 46
  {
    hide Numeral, Quad;
    TextFromLength(a, g, 1);
    WordLength(Word(a, 0));
  }
}
