/** Reading a configuration in blocks: when the lines do not depend on the blocks. */
module ConfigCut {
  import opened ConfigText

  /** A text goes on after a prefix as the code goes on after the lines of the prefix. */
  lemma {:induction false} CutContinues(buffer: string, a: string, b: string, first: bool)
    ensures var (lines, rest) := Cut(buffer, a, first);
      var (lines', rest') := Cut(rest, b, first && a == []);
      Cut(buffer, a + b, first) == (lines + lines', rest')
    decreases |a|
  {
    hide Chop;
    if a == [] {
      assert a + b == b;
      assert [] + Cut(buffer, b, first).0 == Cut(buffer, b, first).0;
    } else {
      assert (a + b)[0] == a[0] && (a + b)[1..] == a[1..] + b;
      var line := if first then buffer else Chop(buffer, '\r');
      if a[0] != '\n' {
        CutContinues(buffer + [a[0]], a[1..], b, false);
      } else if !first && line != [] && line[|line| - 1] == '\\' {
        CutContinues(Chop(line, '\\'), a[1..], b, false);
      } else {
        CutContinues([], a[1..], b, false);
        var (lines, rest) := Cut([], a[1..], false);
        var lines' := Cut(rest, b, false).0;
        assert [line] + (lines + lines') == ([line] + lines) + lines';
      }
    }
  }

  /** A block that begins with a newline, after an incomplete line that ends with a CR
      or a backslash. */
  predicate Torn(rest: string, b: string) {
    b != [] && b[0] == '\n' && rest != [] && (rest[|rest| - 1] == '\r' || rest[|rest| - 1] == '\\')
  }

  predicate Suffix(v: string, u: string) { |v| <= |u| && u[|u| - |v|..] == v }

  lemma SuffixLast(v: string, u: string)
    requires Suffix(v, u) && v != []
    ensures u != [] && u[|u| - 1] == v[|v| - 1] && Suffix(v[..|v| - 1], u[..|u| - 1])
  {
    assert v[..|v| - 1] == u[|u| - |v|..][..|v| - 1];
  }

  /** The shorter what was read of a line, the more lines follow. */
  lemma {:induction false} MoreLines(u: string, v: string, data: string)
    requires Suffix(v, u)
    ensures |Cut(u, data, false).0| <= |Cut(v, data, false).0|
    decreases |data|
  {
    if data != [] {
      if data[0] != '\n' {
        assert (u + [data[0]])[|u| - |v|..] == v + [data[0]];
        MoreLines(u + [data[0]], v + [data[0]], data[1..]);
      } else {
        ChopSuffix(v, u, '\r');
        var x, y := Chop(u, '\r'), Chop(v, '\r');
        if x != [] && x[|x| - 1] == '\\' {
          ChopSuffix(y, x, '\\');
          if y != [] { SuffixLast(y, x); }
          MoreLines(Chop(x, '\\'), Chop(y, '\\'), data[1..]);
          assert y == [] ==> Chop(y, '\\') == [];
        }
      }
    }
  }

  lemma ChopSuffix(v: string, u: string, c: char)
    requires Suffix(v, u)
    ensures if v == [] then Suffix([], Chop(u, c)) else Suffix(Chop(v, c), Chop(u, c))
  {
    if v != [] { SuffixLast(v, u); }
  }

  /** Beginning a block at a place changes nothing exactly when that tears no CR or
      backslash from its newline. */
  lemma FirstMatters(rest: string, b: string)
    ensures Cut(rest, b, true) == Cut(rest, b, false) <==> !Torn(rest, b)
  {
    if Torn(rest, b) {
      var line := Chop(rest, '\r');
      assert Cut(rest, b, true).0[0] == rest;
      if line != [] && line[|line| - 1] == '\\' {
        MoreLines(Chop(line, '\\'), [], b[1..]);
      }
    }
  }

  /** Two blocks are read as one text exactly when they tear nothing. */
  lemma SplitExact(buffer: string, a: string, b: string)
    requires a != []
    ensures CutBlocks(buffer, [a, b]) == Cut(buffer, a + b, true) <==> !Torn(Cut(buffer, a, true).1, b)
  {
    CutContinues(buffer, a, b, true);
    var (lines, rest) := Cut(buffer, a, true);
    FirstMatters(rest, b);
    var (m, r) := Cut(rest, b, true);
    assert [a, b][1..] == [b] && [b][1..] == [];
    assert CutBlocks(rest, [b]) == (m + [], r) && m + [] == m;
    assert CutBlocks(buffer, [a, b]) == (lines + m, r);
    var (m', r') := Cut(rest, b, false);
    if lines + m == lines + m' {
      assert m == (lines + m)[|lines|..] == (lines + m')[|lines|..] == m';
    }
  }

  /** The text "#", CR, newline, read in two blocks with the CR at the end of the first,
      keeps the CR in its line; read at once it does not. */
  lemma TornBlocks()
    ensures CutBlocks([], ["#\r", "\n"]) != Cut([], "#\r" + "\n", true)
  {
    assert "#\r"[1..] == "\r" && "\r"[1..] == "";
    assert Cut([], "#\r", true).1 == "#\r";
    hide Cut, CutBlocks;
    SplitExact([], "#\r", "\n");
  }

  // ----- Any number of blocks -----

  function Concat(blocks: seq<string>): string {
    if blocks == [] then [] else blocks[0] + Concat(blocks[1..])
  }

  /** No block begins with a newline whose CR or backslash is in the block before. */
  predicate Untorn(buffer: string, blocks: seq<string>)
    decreases |blocks|
  {
    blocks == [] || (!Torn(buffer, blocks[0]) && Untorn(Cut(buffer, blocks[0], true).1, blocks[1..]))
  }

  /** Blocks that tear nothing give the lines of the whole text. */
  lemma {:induction false} BlocksDontMatter(buffer: string, blocks: seq<string>)
    requires Untorn(buffer, blocks)
    ensures CutBlocks(buffer, blocks) == Cut(buffer, Concat(blocks), false)
    decreases |blocks|
  {
    if blocks != [] {
      var a, b := blocks[0], Concat(blocks[1..]);
      FirstMatters(buffer, a);
      CutContinues(buffer, a, b, false);
      BlocksDontMatter(Cut(buffer, a, true).1, blocks[1..]);
    }
  }

  predicate NoEscapes(s: string) { '\r' !in s && '\\' !in s }

  lemma {:induction false} CutNoEscapes(buffer: string, data: string, first: bool)
    requires NoEscapes(buffer) && NoEscapes(data)
    ensures NoEscapes(Cut(buffer, data, first).1)
    decreases |data|
  {
    if data != [] {
      assert forall c :: c in data[1..] ==> c in data;
      if data[0] != '\n' {
        CutNoEscapes(buffer + [data[0]], data[1..], false);
      } else {
        CutNoEscapes([], data[1..], false);
      }
    }
  }

  /** A text without CR and backslash may be cut into any blocks. */
  lemma {:induction false} NoEscapesUntorn(buffer: string, blocks: seq<string>)
    requires NoEscapes(buffer) && NoEscapes(Concat(blocks))
    ensures Untorn(buffer, blocks)
    decreases |blocks|
  {
    if blocks != [] {
      var a, b := blocks[0], Concat(blocks[1..]);
      assert forall c :: c in a || c in b ==> c in Concat(blocks);
      CutNoEscapes(buffer, a, true);
      NoEscapesUntorn(Cut(buffer, a, true).1, blocks[1..]);
    }
  }
}
