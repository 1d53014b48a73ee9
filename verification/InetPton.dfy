/** inet_pton4 and inet_pton6: text to binary addresses (libwzd-core/inet_pton.c).

    A text is the contents of a C string, so it holds no NUL. */
module InetPton {
  import opened Common

  // ----- Digits -----

  /** The value of a digit of the given base in either case; -1 for anything else. */
  function DigitValue(c: char, base: nat): int {
    var v := if '0' <= c <= '9' then c as int - '0' as int
             else if 'a' <= c <= 'f' then c as int - 'a' as int + 10
             else if 'A' <= c <= 'F' then c as int - 'A' as int + 10
             else -1;
    if v < base then v else -1
  }

  // ----- Dotted quads -----

  /** What inet_pton4 makes of the rest of a text, having read the octets `done`
      and, when `saw`, the digits of one more whose value so far is `cur`. */
  function Scan4(s: string, done: seq<byte>, saw: bool, cur: byte): Option<seq<byte>>
    requires |done| <= 3
    decreases |s|
  {
    if s == [] then
      if saw && |done| == 3 then Some(done + [cur]) else None
    else
      var d, n: int := DigitValue(s[0], 10), cur;
      if d >= 0 then
        if n * 10 + d > 255 then None
        else Scan4(s[1..], done, true, n * 10 + d)
      else if s[0] == '.' && saw && |done| < 3 then Scan4(s[1..], done + [cur], false, 0)
      else None
  }

  method Pton4(src: string) returns (r: Option<seq<byte>>)
    ensures r == Scan4(src, [], false, 0)
    ensures r.Some? ==> |r.value| == 4
  {
    var tmp := new byte[4](_ => 0);
    var tp, octets, sawDigit := 0, 0, false;
    var i := 0;
    while i < |src|
      invariant 0 <= i <= |src| && 0 <= tp < 4 && octets == (if sawDigit then tp + 1 else tp)
      invariant !sawDigit ==> tmp[tp] == 0
      invariant Scan4(src[i..], tmp[..tp], sawDigit, tmp[tp]) == Scan4(src, [], false, 0)
    {
      var ch := src[i];
      assert src[i..][0] == ch && src[i..][1..] == src[i + 1..];
      var d := DigitValue(ch, 10);
      if d >= 0 {
        var cur: int := tmp[tp];
        if cur * 10 + d > 255 {
          return None;
        }
        ghost var before := tmp[..tp];
        tmp[tp] := cur * 10 + d;
        assert tmp[..tp] == before;
        if !sawDigit {
          octets := octets + 1;
          sawDigit := true;
        }
      } else if ch == '.' && sawDigit {
        if octets == 4 {
          return None;
        }
        ghost var before, cur := tmp[..tp], tmp[tp];
        tp := tp + 1;
        tmp[tp] := 0;
        assert tmp[..tp] == before + [cur];
        sawDigit := false;
      } else {
        return None;
      }
      i := i + 1;
    }
    if octets < 4 {
      return None;
    }
    assert tmp[..] == tmp[..3] + [tmp[3]];
    return Some(tmp[..]);
  }
  // ----- IPv6 -----

  /** Where `::` was, as the number of bytes before it; -1 for nowhere. */
  type Colon = x: int | -1 <= x

  function Zeros(n: nat): seq<byte> { seq(n, _ => 0) }

  function HighByte(val: nat): byte
    requires val < 0x10000
  {
    val / 256
  }

  function LowByte(val: nat): byte { val % 256 }

  /** The bytes `out` moved apart at `colon` to fill sixteen. In a full address there
      is nothing to fill, and the code clears what follows the `::` instead. */
  function Spread(out: seq<byte>, colon: nat): (r: seq<byte>)
    requires colon <= |out| <= 16
    ensures |r| == 16
  {
    if |out| == 16 then out[..colon] + Zeros(16 - colon)
    else out[..colon] + Zeros(16 - |out|) + out[colon..]
  }

  function Finish(out: seq<byte>, colon: Colon): Option<seq<byte>>
    requires colon <= |out| <= 16
  {
    if colon >= 0 then Some(Spread(out, colon))
    else if |out| == 16 then Some(out) else None
  }

  function FinishWord(out: seq<byte>, colon: Colon, saw: bool, val: nat): Option<seq<byte>>
    requires colon <= |out| <= 16 && val < 0x10000
  {
    if !saw then Finish(out, colon)
    else if |out| + 2 > 16 then None
    else Finish(out + [HighByte(val), LowByte(val)], colon)
  }

  /** What inet_pton6 makes of the rest `s` of a text. It has written `out`; its
      current token starts at `tok`, and when `saw`, has the value `val` so far. */
  function Scan6(s: string, tok: string, out: seq<byte>, colon: Colon, saw: bool, val: nat): Option<seq<byte>>
    requires colon <= |out| <= 16 && val < 0x10000
    decreases |s|
  {
    if s == [] then FinishWord(out, colon, saw, val)
    else
      var d := DigitValue(s[0], 16);
      if d >= 0 then
        if val * 16 + d > 0xffff then None else Scan6(s[1..], tok, out, colon, true, val * 16 + d)
      else if s[0] == ':' then
        if !saw then
          if colon >= 0 then None else Scan6(s[1..], s[1..], out, |out|, false, val)
        else if |out| + 2 > 16 then None
        else Scan6(s[1..], s[1..], out + [HighByte(val), LowByte(val)], colon, false, 0)
      else if s[0] == '.' && |out| + 4 <= 16 && Scan4(tok, [], false, 0).Some? then
        var quad := Scan4(tok, [], false, 0).value;
        Scan4Size(tok, [], false, 0);
        Finish(out + quad, colon)
      else None
  }

  lemma {:induction false} Scan4Size(s: string, done: seq<byte>, saw: bool, cur: byte)
    requires |done| <= 3
    ensures Scan4(s, done, saw, cur).Some? ==> |Scan4(s, done, saw, cur).value| == 4
    decreases |s|
  {
    if s != [] {
      var d, n: int := DigitValue(s[0], 10), cur;
      if d >= 0 {
        if n * 10 + d <= 255 { Scan4Size(s[1..], done, true, n * 10 + d); }
      } else if |done| < 3 {
        Scan4Size(s[1..], done + [cur], false, 0);
      }
    }
  }

  /** What inet_pton6 returns for a whole text. */
  function Scanned6(src: string): Option<seq<byte>> {
    if |src| > 0 && src[0] == ':' then
      if |src| > 1 && src[1] == ':' then Scan6(src[1..], src[1..], [], -1, false, 0) else None
    else Scan6(src, src, [], -1, false, 0)
  }

  /** Byte `k` when all source bytes from `tp - i + 1` on have been moved up. */
  function Shifted(was: seq<byte>, tp: nat, i: nat, k: nat): byte
    requires |was| == 16 && tp <= 16 && k < 16 && 0 < i <= tp + 1
  {
    if tp - i < k < tp && (tp == 16 || k <= 16 - i) then 0
    else if 16 - i < k then was[k - (16 - tp)]
    else was[k]
  }

  lemma ShiftedIsSpread(was: seq<byte>, tp: nat, colonp: nat, now: seq<byte>)
    requires |was| == |now| == 16 && colonp <= tp <= 16 && was[tp..] == Zeros(16 - tp)
    requires forall k :: 0 <= k < 16 ==> now[k] == Shifted(was, tp, tp - colonp + 1, k)
    ensures now == Spread(was[..tp], colonp)
  {
    forall k | 0 <= k < 16
      ensures now[k] == Spread(was[..tp], colonp)[k]
    {
      if tp <= k { assert was[k] == was[tp..][k - tp] == 0; }
    }
  }

  /** The shift by hand at the end of inet_pton6, from the last byte down. */
  method ShiftUp(tmp: array<byte>, tp: nat, colonp: nat)
    requires tmp.Length == 16 && colonp <= tp <= 16
    requires tmp[tp..] == Zeros(16 - tp)
    modifies tmp
    ensures tmp[..] == Spread(old(tmp[..tp]), colonp)
  {
    var n := tp - colonp;
    var i := 1;
    while i <= n
      invariant 1 <= i <= n + 1
      invariant forall k :: 0 <= k < 16 ==> tmp[k] == Shifted(old(tmp[..]), tp, i, k)
    {
      tmp[16 - i] := tmp[colonp + n - i];
      tmp[colonp + n - i] := 0;
      i := i + 1;
    }
    ShiftedIsSpread(old(tmp[..]), tp, colonp, tmp[..]);
    assert old(tmp[..])[..tp] == old(tmp[..tp]);
  }

  method Pton6(src: string) returns (r: Option<seq<byte>>)
    ensures r == Scanned6(src)
  {
    var tmp := new byte[16](_ => 0);
    var tp: nat := 0;
    var colonp: int := -1;
    var i := 0;
    if |src| > 0 && src[0] == ':' {
      i := 1;
      if |src| <= 1 || src[1] != ':' {
        return None;
      }
    }
    var curtok, sawXdigit, val: nat := i, false, 0;
    assert src[0..] == src && tmp[..0] == [];
    while i < |src|
      invariant 0 <= curtok <= i <= |src| && 0 <= tp <= 16 && -1 <= colonp <= tp && val < 0x10000
      invariant tmp[tp..] == Zeros(16 - tp)
      invariant Scan6(src[i..], src[curtok..], tmp[..tp], colonp, sawXdigit, val) == Scanned6(src)
    {
      hide Scan4, DigitValue, Scanned6;
      var ch := src[i];
      assert src[i..][0] == ch && src[i..][1..] == src[i + 1..];
      i := i + 1;
      var d := DigitValue(ch, 16);
      if d >= 0 {
        if val * 16 + d > 0xffff {
          return None;
        }
        val, sawXdigit := val * 16 + d, true;
      } else if ch == ':' {
        curtok := i;
        if !sawXdigit {
          if colonp != -1 {
            return None;
          }
          colonp := tp;
        } else {
          if tp + 2 > 16 {
            return None;
          }
          tp := PutWord(tmp, tp, val);
          sawXdigit, val := false, 0;
        }
      } else {
        if ch == '.' && tp + 4 <= 16 {
          var quad := Pton4(src[curtok..]);
          if quad.Some? {
            tp := PutQuad(tmp, tp, quad.value);
            sawXdigit := false;
            break;
          }
        }
        return None;
      }
    }
    r := FinishParse(tmp, tp, colonp, sawXdigit, val);
  }

  method FinishParse(tmp: array<byte>, tp0: nat, colonp: int, sawXdigit: bool, val: nat) returns (r: Option<seq<byte>>)
    requires tmp.Length == 16 && tp0 <= 16 && -1 <= colonp <= tp0 && val < 0x10000 && tmp[tp0..] == Zeros(16 - tp0)
    modifies tmp
    ensures r == FinishWord(old(tmp[..tp0]), colonp, sawXdigit, val)
  {
    var tp := tp0;
    if sawXdigit {
      if tp + 2 > 16 {
        return None;
      }
      tp := PutWord(tmp, tp, val);
    }
    assert Finish(tmp[..tp], colonp) == FinishWord(old(tmp[..tp0]), colonp, sawXdigit, val);
    if colonp != -1 {
      ShiftUp(tmp, tp, colonp);
      tp := 16;
    }
    if tp != 16 {
      return None;
    }
    assert tmp[..16] == tmp[..];
    return Some(tmp[..]);
  }

  method PutWord(tmp: array<byte>, tp: nat, val: nat) returns (tp': nat)
    requires tmp.Length == 16 && tp + 2 <= 16 && val < 0x10000 && tmp[tp..] == Zeros(16 - tp)
    modifies tmp
    ensures tp' == tp + 2 && tmp[..tp'] == old(tmp[..tp]) + [HighByte(val), LowByte(val)]
    ensures tmp[tp'..] == Zeros(16 - tp')
  {
    ghost var was := tmp[tp..];
    tmp[tp] := HighByte(val);
    tmp[tp + 1] := LowByte(val);
    tp' := tp + 2;
    assert tmp[tp'..] == was[2..];
  }

  method PutQuad(tmp: array<byte>, tp: nat, quad: seq<byte>) returns (tp': nat)
    requires tmp.Length == 16 && tp + 4 <= 16 && |quad| == 4 && tmp[tp..] == Zeros(16 - tp)
    modifies tmp
    ensures tp' == tp + 4 && tmp[..tp'] == old(tmp[..tp]) + quad
    ensures tmp[tp'..] == Zeros(16 - tp')
  {
    ghost var was := tmp[tp..];
    tmp[tp], tmp[tp + 1], tmp[tp + 2], tmp[tp + 3] := quad[0], quad[1], quad[2], quad[3];
    tp' := tp + 4;
    assert tmp[tp'..] == was[4..];
  }
}
