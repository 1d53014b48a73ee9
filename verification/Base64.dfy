/** Base64 in both directions, as radix_encode computes it (libwzd-auth/wzd_base64.c). */
module Base64 {
  import opened Common

  /** A character of the encoded text, by its code. */
  const PAD: byte := 61

  function Digit(d: nat): byte
    requires d < 64
  {
    if d < 26 then 65 + d else if d < 52 then 71 + d else if d < 62 then d - 4 else if d == 62 then 43 else 47
  }

  /** The position of a character in the alphabet, or -1. */
  function Value(c: byte): (v: int)
    ensures -1 <= v < 64
  {
    if 65 <= c <= 90 then c - 65
    else if 97 <= c <= 122 then c - 71
    else if 48 <= c <= 57 then c + 4
    else if c == 43 then 62
    else if c == 47 then 63
    else -1
  }

  lemma DigitValue(d: nat)
    requires d < 64
    ensures Value(Digit(d)) == d && Digit(d) != 0 && Digit(d) != PAD
  {
  }

  // ----- Section 4 of RFC 4648 -----

  function Three(a: nat, b: nat, c: nat): seq<byte>
    requires a < 256 && b < 256 && c < 256
  {
    [Digit(a / 4), Digit(a % 4 * 16 + b / 16), Digit(b % 16 * 4 + c / 64), Digit(c % 64)]
  }

  /** Each three bytes are four characters of six bits; what is left is padded. */
  function Encoded(data: seq<byte>): seq<byte> {
    if |data| == 0 then []
    else if |data| == 1 then Three(data[0], 0, 0)[..2] + [PAD, PAD]
    else if |data| == 2 then Three(data[0], data[1], 0)[..3] + [PAD]
    else Three(data[0], data[1], data[2]) + Encoded(data[3..])
  }

  /** The alphabet of table 1 of RFC 4648, in rows of sixteen. */
  const ALPHABET: seq<string> := ["ABCDEFGHIJKLMNOP", "QRSTUVWXYZabcdef", "ghijklmnopqrstuv", "wxyz0123456789+/"]

  lemma AlphabetRow(row: string, first: nat, d: nat)
    requires |row| == 16 && first <= d < first + 16 <= 64
    requires forall i :: 0 <= i < 16 ==> row[i] as int == Digit(first + i)
    ensures row[d - first] as int == Digit(d)
  {
    assert first + (d - first) == d;
  }

  /** The characters are those of the alphabet, in its order. */
  lemma DigitsInOrder(d: nat)
    requires d < 64
    ensures |ALPHABET[d / 16]| == 16 && Digit(d) == ALPHABET[d / 16][d % 16] as int
  {
    if d < 16 {
      AlphabetRow(ALPHABET[0], 0, d);
    } else if d < 32 {
      AlphabetRow(ALPHABET[1], 16, d);
    } else if d < 48 {
      AlphabetRow(ALPHABET[2], 32, d);
    } else {
      AlphabetRow(ALPHABET[3], 48, d);
    }
  }

  /** Three bytes and the four characters for them are the same number of 24 bits. */
  lemma ThreeIsNumber(a: nat, b: nat, c: nat)
    requires a < 256 && b < 256 && c < 256
    ensures var t := Three(a, b, c);
      ((Value(t[0]) * 64 + Value(t[1])) * 64 + Value(t[2])) * 64 + Value(t[3]) == (a * 256 + b) * 256 + c
  {
    DigitValue(a / 4);
    DigitValue(a % 4 * 16 + b / 16);
    DigitValue(b % 16 * 4 + c / 64);
    DigitValue(c % 64);
    hide Digit, Value;
  }

  lemma {:induction false} EncodedLength(data: seq<byte>)
    ensures |Encoded(data)| == (|data| + 2) / 3 * 4
    decreases |data|
  {
    if |data| >= 3 { EncodedLength(data[3..]); }
  }

  // ----- Encoding byte by byte -----

  /** What is still to be written when `phase` bytes of a group were read and the bits
      `c` are pending, high bits first. */
  function Pending(phase: nat, c: nat, data: seq<byte>): seq<byte>
    requires phase < 3 && c < 64 && (phase == 1 ==> c % 16 == 0) && (phase == 2 ==> c % 4 == 0)
    decreases |data|
  {
    if data == [] then
      if phase == 0 then [] else if phase == 1 then [Digit(c), PAD, PAD] else [Digit(c), PAD]
    else
      var x: nat := data[0];
      if phase == 0 then [Digit(x / 4)] + Pending(1, x % 4 * 16, data[1..])
      else if phase == 1 then [Digit(c + x / 16)] + Pending(2, x % 16 * 4, data[1..])
      else [Digit(c + x / 64), Digit(x % 64)] + Pending(0, 0, data[1..])
  }

  lemma PendingThree(a: byte, b: byte, c: byte, data: seq<byte>)
    ensures Pending(0, 0, [a, b, c] + data) == Three(a, b, c) + Pending(0, 0, data)
  {
    hide Digit;
    var x: nat, y: nat, z: nat := a, b, c;
    var d1, d2, all := [b, c] + data, [c] + data, [a, b, c] + data;
    assert all[1..] == d1 && d1[1..] == d2 && d2[1..] == data;
    assert Pending(2, y % 16 * 4, d2) == [Digit(y % 16 * 4 + z / 64), Digit(z % 64)] + Pending(0, 0, data);
    assert Pending(1, x % 4 * 16, d1) == [Digit(x % 4 * 16 + y / 16)] + Pending(2, y % 16 * 4, d2);
    assert Pending(0, 0, all) == [Digit(x / 4)] + Pending(1, x % 4 * 16, d1);
  }

  lemma {:induction false} PendingIsEncoded(data: seq<byte>)
    ensures Pending(0, 0, data) == Encoded(data)
    decreases |data|
  {
    hide Digit;
    if |data| == 1 {
      var x: nat := data[0];
      assert data[1..] == [];
      assert Pending(1, x % 4 * 16, []) == [Digit(x % 4 * 16), PAD, PAD];
    } else if |data| == 2 {
      var x: nat, y: nat := data[0], data[1];
      assert data[1..][1..] == [] && data[1..][0] == y;
      assert Pending(2, y % 16 * 4, []) == [Digit(y % 16 * 4), PAD];
      assert Pending(1, x % 4 * 16, data[1..]) == [Digit(x % 4 * 16 + y / 16)] + Pending(2, y % 16 * 4, []);
    } else if |data| >= 3 {
      PendingThree(data[0], data[1], data[2], data[3..]);
      assert [data[0], data[1], data[2]] + data[3..] == data;
      PendingIsEncoded(data[3..]);
    }
  }

  predicate Carry(phase: nat, c: nat) {
    phase < 3 && c < 64 && (phase == 0 ==> c == 0) && (phase == 1 ==> c % 16 == 0) && (phase == 2 ==> c % 4 == 0)
  }

  /** radix_encode without `decode`: the code combines pending bits with `|` on disjoint
      bits, which is a sum. */
  method Encode(inbuf: array<byte>, outbuf: array<byte>, len: nat) returns (newLen: nat)
    requires inbuf != outbuf && len <= inbuf.Length && (len + 2) / 3 * 4 < outbuf.Length
    modifies outbuf
    ensures newLen == (len + 2) / 3 * 4 && outbuf[..newLen] == Encoded(inbuf[..len]) && outbuf[newLen] == 0
  {
    hide Pending, Encoded;
    ghost var data := inbuf[..len];
    EncodedLength(data);
    PendingIsEncoded(data);
    var i, j, c: nat := 0, 0, 0;
    assert data[0..] == data;
    while i < len
      invariant 0 <= i <= len && 0 <= j <= |Encoded(data)| && Carry(i % 3, c) && inbuf[..len] == data
      invariant outbuf[..j] + Pending(i % 3, c, data[i..]) == Encoded(data)
    {
      assert data[i..][0] == inbuf[i] && data[i..][1..] == data[i + 1..];
      j, c := EncodeByte(inbuf[i], i % 3, c, outbuf, j, data[i..], Encoded(data));
      i := i + 1;
    }
    assert data[i..] == [];
    newLen := EncodeEnd(i % 3, c, outbuf, j, Encoded(data));
    outbuf[newLen] := 0;
  }

  method EncodeByte(b: byte, phase: nat, c: nat, outbuf: array<byte>, j: nat, ghost data: seq<byte>,
                    ghost all: seq<byte>)
    returns (j': nat, c': nat)
    requires data != [] && data[0] == b && Carry(phase, c) && j <= outbuf.Length && |all| < outbuf.Length
    requires outbuf[..j] + Pending(phase, c, data) == all
    modifies outbuf
    ensures j <= j' <= |all| && Carry((phase + 1) % 3, c') &&
      outbuf[..j'] + Pending((phase + 1) % 3, c', data[1..]) == all
  {
    hide Digit, Pending;
    var x: nat := b;
    ghost var done := outbuf[..j];
    PendingNext(phase, c, data);
    if phase == 0 {
      c' := x % 4 * 16;
      Regroup(done, [Digit(x / 4)], Pending(1, c', data[1..]));
      j' := Put(outbuf, j, Digit(x / 4));
    } else if phase == 1 {
      c' := x % 16 * 4;
      Regroup(done, [Digit(c + x / 16)], Pending(2, c', data[1..]));
      j' := Put(outbuf, j, Digit(c + x / 16));
    } else {
      c' := 0;
      Regroup(done, [Digit(c + x / 64), Digit(x % 64)], Pending(0, 0, data[1..]));
      j' := Put(outbuf, j, Digit(c + x / 64));
      j' := Put(outbuf, j', Digit(x % 64));
      assert outbuf[..j'] == done + [Digit(c + x / 64), Digit(x % 64)];
    }
  }

  lemma PendingNext(phase: nat, c: nat, data: seq<byte>)
    requires data != [] && Carry(phase, c)
    ensures var x: nat := data[0];
      Pending(phase, c, data) ==
        if phase == 0 then [Digit(x / 4)] + Pending(1, x % 4 * 16, data[1..])
        else if phase == 1 then [Digit(c + x / 16)] + Pending(2, x % 16 * 4, data[1..])
        else [Digit(c + x / 64), Digit(x % 64)] + Pending(0, 0, data[1..])
  {
    hide Digit;
  }

  lemma Regroup(a: seq<byte>, b: seq<byte>, c: seq<byte>)
    ensures a + (b + c) == (a + b) + c
  {
  }

  /** The pending bits and the padding; the cases of the C switch fall through. */
  method EncodeEnd(phase: nat, c: nat, outbuf: array<byte>, j0: nat, ghost all: seq<byte>) returns (j: nat)
    requires Carry(phase, c) && j0 <= outbuf.Length && |all| < outbuf.Length &&
      outbuf[..j0] + Pending(phase, c, []) == all
    modifies outbuf
    ensures j == |all| && outbuf[..j] == all
  {
    hide Digit;
    j := j0;
    ghost var done := outbuf[..j0];
    if phase != 0 {
      j := Put(outbuf, j, Digit(c));
    }
    if phase == 1 {
      j := Put(outbuf, j, PAD);
    }
    if phase != 0 {
      j := Put(outbuf, j, PAD);
    }
    assert outbuf[..j] == done + Pending(phase, c, []);
  }

  method Put(outbuf: array<byte>, j: nat, b: byte) returns (j': nat)
    requires j < outbuf.Length
    modifies outbuf
    ensures j' == j + 1 && outbuf[..j'] == old(outbuf[..j]) + [b]
  {
    outbuf[j] := b;
    j' := j + 1;
  }

  // ----- Decoding -----

  /** What decoding makes of the rest of a text: `phase` characters of a group were read,
      and `acc` is the byte begun. It stops at the padding; a byte only begun is dropped. */
  function Scanned(text: seq<byte>, phase: nat, acc: nat): Option<seq<byte>>
    requires Begun(phase, acc)
    decreases |text|
  {
    if text == [] || text[0] == 0 || text[0] == PAD then Some([])
    else if Value(text[0]) < 0 then None
    else
      var d: nat := Value(text[0]);
      if phase == 0 then Scanned(text[1..], 1, d * 4)
      else if phase == 1 then Prepend(acc + d / 16, Scanned(text[1..], 2, d % 16 * 16))
      else if phase == 2 then Prepend(acc + d / 4, Scanned(text[1..], 3, d % 4 * 64))
      else Prepend(acc + d, Scanned(text[1..], 0, 0))
  }

  function Prepend(b: byte, rest: Option<seq<byte>>): Option<seq<byte>> {
    if rest.Some? then Some([b] + rest.value) else None
  }

  lemma ScanDigit(d: nat, rest: seq<byte>, phase: nat, acc: nat)
    requires d < 64 && Begun(phase, acc)
    ensures var text := [Digit(d)] + rest;
      phase == 0 ==> Scanned(text, 0, acc) == Scanned(rest, 1, d * 4)
    ensures var text := [Digit(d)] + rest;
      phase == 1 ==> Scanned(text, 1, acc) == Prepend(acc + d / 16, Scanned(rest, 2, d % 16 * 16))
    ensures var text := [Digit(d)] + rest;
      phase == 2 ==> Scanned(text, 2, acc) == Prepend(acc + d / 4, Scanned(rest, 3, d % 4 * 64))
    ensures var text := [Digit(d)] + rest;
      phase == 3 ==> Scanned(text, 3, acc) == Prepend(acc + d, Scanned(rest, 0, 0))
  {
    hide Digit, Value, Prepend;
    DigitValue(d);
    var text := [Digit(d)] + rest;
    assert text[0] == Digit(d) && text[1..] == rest;
  }

  lemma Bits(a: nat, b: nat, c: nat)
    requires a < 256 && b < 256 && c < 256
    ensures var d0, d1, d2, d3 := a / 4, a % 4 * 16 + b / 16, b % 16 * 4 + c / 64, c % 64;
      d0 < 64 && d1 < 64 && d2 < 64 && d0 * 4 + d1 / 16 == a && d1 % 16 * 16 + d2 / 4 == b && d2 % 4 * 64 + d3 == c
  {
  }

  /** Four characters give the three bytes of their bits. */
  lemma ScanFour(d0: nat, d1: nat, d2: nat, d3: nat, rest: seq<byte>)
    requires d0 < 64 && d1 < 64 && d2 < 64 && d3 < 64
    ensures Scanned([Digit(d0)] + ([Digit(d1)] + ([Digit(d2)] + ([Digit(d3)] + rest))), 0, 0) ==
            Prepend(d0 * 4 + d1 / 16, Prepend(d1 % 16 * 16 + d2 / 4, Prepend(d2 % 4 * 64 + d3, Scanned(rest, 0, 0))))
  {
    hide Digit, Scanned, Prepend;
    var t3 := [Digit(d3)] + rest;
    var t2 := [Digit(d2)] + t3;
    ScanDigit(d0, [Digit(d1)] + t2, 0, 0);
    ScanDigit(d1, t2, 1, d0 * 4);
    ScanDigit(d2, t3, 2, d1 % 16 * 16);
    ScanDigit(d3, rest, 3, d2 % 4 * 64);
  }

  lemma ScanThree(a: nat, b: nat, c: nat, rest: seq<byte>)
    requires a < 256 && b < 256 && c < 256
    ensures Scanned(Three(a, b, c) + rest, 0, 0) == Prepend(a, Prepend(b, Prepend(c, Scanned(rest, 0, 0))))
  {
    hide Digit, Scanned, Prepend;
    Bits(a, b, c);
    var d0, d1, d2, d3 := a / 4, a % 4 * 16 + b / 16, b % 16 * 4 + c / 64, c % 64;
    assert Three(a, b, c) + rest == [Digit(d0)] + ([Digit(d1)] + ([Digit(d2)] + ([Digit(d3)] + rest)));
    ScanFour(d0, d1, d2, d3, rest);
  }

  lemma ScanPad(rest: seq<byte>, phase: nat, acc: nat)
    requires Begun(phase, acc)
    ensures Scanned([PAD] + rest, phase, acc) == Some([])
  {
  }

  lemma ScanPadded(d0: nat, d1: nat, d2: nat)
    requires d0 < 64 && d1 < 64 && d2 < 64
    ensures Scanned([Digit(d0)] + ([Digit(d1)] + ([Digit(d2)] + [PAD])), 0, 0) ==
            Prepend(d0 * 4 + d1 / 16, Prepend(d1 % 16 * 16 + d2 / 4, Some([])))
  {
    hide Digit, Scanned, Prepend;
    var t2 := [Digit(d2)] + [PAD];
    ScanDigit(d0, [Digit(d1)] + t2, 0, 0);
    ScanDigit(d1, t2, 1, d0 * 4);
    ScanDigit(d2, [PAD], 2, d1 % 16 * 16);
    assert [PAD] + [] == [PAD];
    ScanPad([], 3, d2 % 4 * 64);
  }

  lemma ScanTwo(a: nat, b: nat)
    requires a < 256 && b < 256
    ensures Scanned(Three(a, b, 0)[..3] + [PAD], 0, 0) == Some([a, b])
  {
    hide Digit, Scanned;
    Bits(a, b, 0);
    var d0, d1, d2 := a / 4, a % 4 * 16 + b / 16, b % 16 * 4;
    assert Three(a, b, 0)[..3] + [PAD] == [Digit(d0)] + ([Digit(d1)] + ([Digit(d2)] + [PAD]));
    ScanPadded(d0, d1, d2);
    assert [a] + ([b] + []) == [a, b];
  }

  lemma ScanOne(a: nat)
    requires a < 256
    ensures Scanned(Three(a, 0, 0)[..2] + [PAD, PAD], 0, 0) == Some([a])
  {
    hide Digit, Scanned;
    Bits(a, 0, 0);
    var d0, d1 := a / 4, a % 4 * 16;
    var t1 := [Digit(d1)] + [PAD, PAD];
    assert Three(a, 0, 0)[..2] + [PAD, PAD] == [Digit(d0)] + t1 && [PAD] + [PAD] == [PAD, PAD];
    ScanDigit(d0, t1, 0, 0);
    ScanDigit(d1, [PAD, PAD], 1, d0 * 4);
    ScanPad([PAD], 2, 0);
    assert [a] + [] == [a];
  }

  /** Decoding undoes encoding, for every byte string. */
  lemma {:induction false} DecodeUndoesEncode(data: seq<byte>)
    ensures Scanned(Encoded(data), 0, 0) == Some(data)
    decreases |data|
  {
    hide Three;
    if |data| == 1 {
      ScanOne(data[0]);
      assert [data[0]] == data;
    } else if |data| == 2 {
      ScanTwo(data[0], data[1]);
      assert [data[0], data[1]] == data;
    } else if |data| >= 3 {
      DecodeUndoesEncode(data[3..]);
      ScanThree(data[0], data[1], data[2], Encoded(data[3..]));
      assert [data[0]] + ([data[1]] + ([data[2]] + data[3..])) == data;
    }
  }

  /** How many bytes `n` characters are written to. */
  function Needed(n: nat): nat { 3 * (n / 4) + n % 4 }

  /** How many of them are complete. */
  function Complete(n: nat): nat { 3 * (n / 4) + if n % 4 == 0 then 0 else n % 4 - 1 }

  lemma CompleteStep(i: nat, n: nat)
    requires i < n
    ensures Complete(i) < Needed(n) && (i % 4 == 1 || i % 4 == 2 ==> Complete(i) + 1 < Needed(n))
    ensures Complete(i + 1) == Complete(i) + (if i % 4 == 0 then 0 else 1) && (i + 1) % 4 == (i % 4 + 1) % 4
  {
    assert (i + 1) / 4 == i / 4 + if i % 4 == 3 then 1 else 0;
    assert i / 4 <= n / 4;
    assert n / 4 == i / 4 ==> n % 4 > i % 4;
  }

  /** radix_encode with `decode`: stops at the padding or the NUL, fails on any other
      character outside the alphabet. */
  method Decode(inbuf: seq<byte>, outbuf: array<byte>) returns (ret: int, newLen: nat)
    requires Needed(|inbuf|) <= outbuf.Length
    modifies outbuf
    ensures ret == if Scanned(inbuf, 0, 0).Some? then 0 else 1
    ensures ret == 0 ==> newLen <= outbuf.Length && outbuf[..newLen] == Scanned(inbuf, 0, 0).value
  {
    hide Value, Scanned, Joined, Needed, Complete, Begun;
    var i, j := 0, 0;
    NoneComplete();
    ghost var acc: nat := 0;
    assert inbuf[0..] == inbuf && outbuf[..0] == [];
    JoinedEnds([], Scanned(inbuf, 0, 0));
    while i < |inbuf| && inbuf[i] != 0 && inbuf[i] != PAD
      invariant 0 <= i <= |inbuf| && j == Complete(i) <= outbuf.Length
      invariant Begun(i % 4, acc) && (i % 4 != 0 ==> j < outbuf.Length && outbuf[j] == acc)
      invariant Joined(outbuf[..j], Scanned(inbuf[i..], i % 4, acc)) == Scanned(inbuf, 0, 0)
    {
      var d := Value(inbuf[i]);
      CompleteStep(i, |inbuf|);
      assert inbuf[i..][0] == inbuf[i] && inbuf[i..][1..] == inbuf[i + 1..];
      if d < 0 {
        ScanFails(inbuf[i..], i % 4, acc);
        JoinedEnds(outbuf[..j], Scanned(inbuf[i..], i % 4, acc));
        return 1, 0;
      }
      j, acc := DecodeChar(d, i % 4, outbuf, j, acc, inbuf[i..], Scanned(inbuf, 0, 0));
      i := i + 1;
    }
    ScanStops(inbuf[i..], i % 4, acc);
    JoinedEnds(outbuf[..j], Scanned(inbuf[i..], i % 4, acc));
    newLen := j;
    ret := 0;
  }

  lemma NoneComplete()
    ensures Complete(0) == 0 && Begun(0, 0)
  {
  }

  lemma ScanStops(text: seq<byte>, phase: nat, acc: nat)
    requires Begun(phase, acc) && (text == [] || text[0] == 0 || text[0] == PAD)
    ensures Scanned(text, phase, acc) == Some([])
  {
  }

  lemma ScanFails(text: seq<byte>, phase: nat, acc: nat)
    requires Begun(phase, acc) && text != [] && text[0] != 0 && text[0] != PAD && Value(text[0]) < 0
    ensures Scanned(text, phase, acc) == None
  {
  }

  lemma JoinedEnds(done: seq<byte>, rest: Option<seq<byte>>)
    ensures rest == None ==> Joined(done, rest) == None
    ensures rest == Some([]) ==> Joined(done, rest) == Some(done)
    ensures done == [] ==> Joined(done, rest) == rest
  {
    if rest.Some? && done == [] { assert done + rest.value == rest.value; }
    if rest == Some([]) { assert done + [] == done; }
  }

  predicate Begun(phase: nat, acc: nat) {
    phase < 4 && acc < 256 && (phase == 0 ==> acc == 0) && (phase == 1 ==> acc % 4 == 0) &&
      (phase == 2 ==> acc % 16 == 0) &&
    (phase == 3 ==> acc % 64 == 0)
  }

  function Joined(done: seq<byte>, rest: Option<seq<byte>>): Option<seq<byte>> {
    if rest.Some? then Some(done + rest.value) else None
  }

  lemma JoinedPrepend(done: seq<byte>, b: byte, rest: Option<seq<byte>>)
    ensures Joined(done, Prepend(b, rest)) == Joined(done + [b], rest)
  {
    if rest.Some? { Regroup(done, [b], rest.value); }
  }

  lemma ScanNext(text: seq<byte>, phase: nat, acc: nat)
    requires Begun(phase, acc) && text != [] && text[0] != 0 && text[0] != PAD && Value(text[0]) >= 0
    ensures var d: nat := Value(text[0]);
      phase == 0 ==> Scanned(text, 0, acc) == Scanned(text[1..], 1, d * 4)
    ensures var d: nat := Value(text[0]);
      phase == 1 ==> Scanned(text, 1, acc) == Prepend(acc + d / 16, Scanned(text[1..], 2, d % 16 * 16))
    ensures var d: nat := Value(text[0]);
      phase == 2 ==> Scanned(text, 2, acc) == Prepend(acc + d / 4, Scanned(text[1..], 3, d % 4 * 64))
    ensures var d: nat := Value(text[0]);
      phase == 3 ==> Scanned(text, 3, acc) == Prepend(acc + d, Scanned(text[1..], 0, 0))
  {
    hide Value, Prepend;
  }

  lemma BegunNext(d: nat, phase: nat, acc: nat)
    requires d < 64 && Begun(phase, acc)
    ensures Begun(1, d * 4) && Begun(2, d % 16 * 16) && Begun(3, d % 4 * 64) && Begun(0, 0) && phase < 4
    ensures phase == 1 ==> acc + d / 16 < 256
    ensures phase == 2 ==> acc + d / 4 < 256
    ensures phase == 3 ==> acc + d < 256
  {
  }

  method DecodeChar(d: nat, phase: nat, outbuf: array<byte>, j: nat, ghost acc: nat, ghost text: seq<byte>,
                    ghost all: Option<seq<byte>>)
    returns (j': nat, ghost acc': nat)
    requires text != [] && text[0] != 0 && text[0] != PAD && Value(text[0]) == d
    requires j < outbuf.Length && (phase == 1 || phase == 2 ==> j + 1 < outbuf.Length)
    requires Begun(phase, acc) && (phase != 0 ==> outbuf[j] == acc) && d < 64
    requires Joined(outbuf[..j], Scanned(text, phase, acc)) == all
    modifies outbuf
    ensures j' == j + (if phase == 0 then 0 else 1) && j' <= outbuf.Length && Begun((phase + 1) % 4, acc')
    ensures (phase + 1) % 4 != 0 ==> j' < outbuf.Length && outbuf[j'] == acc'
    ensures Joined(outbuf[..j'], Scanned(text[1..], (phase + 1) % 4, acc')) == all
  {
    hide Value, Joined, Prepend, Scanned, Begun;
    ScanNext(text, phase, acc);
    BegunNext(d, phase, acc);
    if phase == 0 {
      outbuf[j] := d * 4;
      j', acc' := j, d * 4;
      assert outbuf[..j] == old(outbuf[..j]);
    } else if phase == 1 {
      acc' := d % 16 * 16;
      JoinedPrepend(outbuf[..j], acc + d / 16, Scanned(text[1..], 2, acc'));
      j' := Put(outbuf, j, outbuf[j] as int + d / 16);
      outbuf[j'] := d % 16 * 16;
      assert outbuf[..j'] == old(outbuf[..j]) + [acc + d / 16];
    } else if phase == 2 {
      acc' := d % 4 * 64;
      JoinedPrepend(outbuf[..j], acc + d / 4, Scanned(text[1..], 3, acc'));
      j' := Put(outbuf, j, outbuf[j] as int + d / 4);
      outbuf[j'] := d % 4 * 64;
      assert outbuf[..j'] == old(outbuf[..j]) + [acc + d / 4];
    } else {
      acc' := 0;
      JoinedPrepend(outbuf[..j], acc + d, Scanned(text[1..], 0, 0));
      j' := Put(outbuf, j, outbuf[j] as int + d);
    }
  }
}
