/** The parser of configuration files, working through its buffer and its list of groups
    (libwzd-core/wzd_configfile.c). The current group is always the last one, since
    loading starts from a fresh object. */
module ConfigFile {
  import opened Common
  import opened ConfigText
  import opened ConfigCut
  import opened ConfigRoundTrip

  // ----- Scanning a line -----

  lemma TrimLeftAt(s: string, k: nat)
    requires k <= |s| && (forall i :: 0 <= i < k ==> IsSpace(s[i])) && (k == |s| || !IsSpace(s[k]))
    ensures TrimLeft(s) == s[k..]
  {
    var t := TrimLeft(s);
    assert t != [] ==> t[0] == s[|s| - |t|];
  }

  /** Past the blanks of `s` from `i` on. */
  method SkipSpace(s: string, i: nat) returns (k: nat)
    requires i <= |s|
    ensures i <= k <= |s| && s[k..] == TrimLeft(s[i..])
  {
    k := i;
    while k < |s| && IsSpace(s[k])
      invariant i <= k <= |s| && forall j :: i <= j < k ==> IsSpace(s[j])
    {
      k := k + 1;
    }
    assert forall j :: 0 <= j < k - i ==> s[i..][j] == s[i + j];
    assert k < |s| ==> s[i..][k - i] == s[k];
    TrimLeftAt(s[i..], k - i);
    assert s[i..][k - i..] == s[k..];
  }

  /** The length of the first `n` characters of `s` without the blanks at their end. */
  method ChompSpace(s: string, lo: nat, n: nat) returns (k: nat)
    requires lo <= n <= |s|
    ensures lo <= k <= n && s[lo..k] == TrimRight(s[lo..n])
  {
    k := n;
    while k > lo && IsSpace(s[k - 1])
      invariant lo <= k <= n && TrimRight(s[lo..k]) == TrimRight(s[lo..n])
    {
      assert s[lo..k][k - lo - 1] == s[k - 1] && s[lo..k][..k - lo - 1] == s[lo..k - 1];
      k := k - 1;
    }
    assert k > lo ==> s[lo..k][k - lo - 1] == s[k - 1];
  }

  /** strchr: the length of `s` if there is no `c`. */
  method Strchr(s: string, c: char) returns (k: nat)
    ensures k == Find(s, c) && (k < |s| <==> c in s)
  {
    k := 0;
    while k < |s| && s[k] != c
      invariant k <= |s| && forall j :: 0 <= j < k ==> s[j] != c
    {
      k := k + 1;
    }
    if k < |s| {
      FindIs(s, c, k);
    } else {
      assert c !in s;
    }
  }

  lemma LastIs(line: string, length: nat, e: nat)
    requires e < length <= |line| && line[e] == ']' && forall j :: e < j < length ==> line[j] != ']'
    ensures FindBack(line, ']', length) == e
  {
  }

  /** The value after the equals sign before `p`, in the first `length` characters. */
  method SplitValue(line: string, p: nat, length: nat) returns (value: string)
    requires p == Find(line, '=') + 1 <= |line| && length == |line| - Indent(line) && Indent(line) <= |AfterKey(line)|
    ensures value == ValueOf(line)
  {
    hide TrimLeft, TrimRight, Indent, Find;
    var start := SkipSpace(line, p);
    var end := ChompSpace(line, start, length);
    assert AfterKey(line) == line[start..] && line[start..][..length - start] == line[start..length];
    value := line[start..end];
  }

  /** The key of a line without the blanks at its end; it fails if the key is longer than
      the line is said to be. */
  method SplitKey(line: string, p: nat, length: nat) returns (ok: bool, key: string)
    requires p == Find(line, '=') <= |line| && length == |line| - Indent(line)
    ensures key == KeyOf(line) && ok == KeyFits(line)
  {
    hide TrimRight, Indent, Find;
    var keyEnd := ChompSpace(line, 0, p);
    assert line[0..p] == line[..p];
    key := line[0..keyEnd];
    ok := keyEnd + 1 <= length;
  }

  method PrintItems(text0: string, items: seq<Item>, ghost before: seq<string>) returns (text: string)
    requires text0 == Unlines(before)
    ensures text == Unlines(before + ItemLines(items))
  {
    hide ItemLine;
    text := text0;
    var i := 0;
    assert before + ItemLines(items)[..0] == before;
    while i < |items|
      invariant 0 <= i <= |items| && text == Unlines(before + ItemLines(items)[..i])
    {
      UnlinesLast(before + ItemLines(items)[..i], ItemLine(items[i]));
      assert before + ItemLines(items)[..i + 1] == before + ItemLines(items)[..i] + [ItemLine(items[i])];
      text := text + ItemLine(items[i]) + "\n";
      i := i + 1;
    }
    assert ItemLines(items)[..|items|] == ItemLines(items);
  }

  /** Loading a file: what is read of its blocks. */
  function LoadBlocks(blocks: seq<string>): (int, seq<Group>) {
    var (lines, rest) := CutBlocks([], blocks);
    Loaded(lines, rest)
  }

  predicate InsideBlocks(blocks: seq<string>) {
    var (lines, rest) := CutBlocks([], blocks);
    Inside(rest) && AllInside(lines)
  }

  lemma SettingHasKey(line: string)
    requires IsSetting(line)
    ensures Find(line, '=') < |line|
  {
    var n := Indent(line);
    assert TrimLeft(line) == line[n..];
    var i :| 0 <= i < |line[n..]| && line[n..][i] == '=';
    assert line[n + i] == '=';
  }

  lemma IndentIs(line: string, start: nat)
    requires start <= |line| && line[start..] == TrimLeft(line)
    ensures start == Indent(line)
  {
    assert |line[start..]| == |line| - start;
  }

  lemma InsideGroup(line: string)
    requires Inside(line) && !IsRemark(line) && IsGroup(line)
    ensures GroupEnd(line) > 0
  {
  }

  class Config {
    var groups: seq<Group>
    var parseBuffer: string

    constructor ()
      ensures groups == EMPTY && parseBuffer == []
    {
      groups, parseBuffer := EMPTY, [];
    }

    method ParseComment(line: string) returns (ret: int)
      requires groups != []
      modifies this`groups
      ensures ret == CF_OK && groups == AddItem(old(groups), Remark(line))
    {
      groups := AddItem(groups, Remark(line));
      ret := CF_OK;
    }

    method ParseGroup(line: string, length: nat) returns (ret: int)
      requires groups != [] && length == |line| - Indent(line) && GroupEnd(line) > 0
      modifies this`groups
      ensures ret == CF_OK && groups == old(groups) + [Group(Some(GroupName(line)), [])]
    {
      var e := length - 1;
      while line[e] != ']'
        invariant 0 <= GroupEnd(line) <= e < length && forall j :: e < j < length ==> line[j] != ']'
        decreases e
      {
        e := e - 1;
      }
      LastIs(line, length, e);
      groups := groups + [Group(Some(line[1..e]), [])];
      ret := CF_OK;
    }

    method LookupKey(items: seq<Item>, key: string) returns (found: bool)
      ensures found <==> HasSetting(items, key)
    {
      var i := 0;
      while i < |items|
        invariant 0 <= i <= |items| && forall j :: 0 <= j < i ==> !(items[j].Setting? && items[j].key == key)
      {
        if items[i].Setting? && items[i].key == key {
          return true;
        }
        i := i + 1;
      }
      return false;
    }

    method AddKey(key: string, value: string) returns (ret: int)
      requires groups != []
      modifies this`groups
      ensures ret ==
        if HasSetting(old(groups)[|old(groups)| - 1].items, key) then CF_ERROR_KEY_ALREADY_EXISTS else CF_OK
      ensures groups == if ret == CF_OK then AddItem(old(groups), Setting(key, value)) else old(groups)
    {
      var found := LookupKey(groups[|groups| - 1].items, key);
      if found {
        return CF_ERROR_KEY_ALREADY_EXISTS;
      }
      groups := AddItem(groups, Setting(key, value));
      ret := CF_OK;
    }

    method ParseKeyvalue(line: string, length: nat) returns (ret: int)
      requires groups != [] && !IsRemark(line) && !IsGroup(line) && IsSetting(line) && Inside(line)
      requires length == |line| - Indent(line)
      modifies this`groups
      ensures (ret, groups) == ParseLine(old(groups), line)
    {
      SettingHasKey(line);
      hide IsRemark, IsGroup, AddItem, KeyOf, ValueOf, HasSetting, IsSetting, KeyFits, AfterKey, Find;
      if groups[|groups| - 1].name.None? {
        return CF_ERROR_NO_CURRENT_GROUP;
      }
      var p := Strchr(line, '=');
      var ok, key := SplitKey(line, p, length);
      if !ok {
        return CF_ERROR_PARSE;
      }
      var value := SplitValue(line, p + 1, length);
      ret := AddKey(key, value);
    }

    /** config_parse_line. The blanks before a key or a group shorten the length of the
        line, but not the line. */
    method ParseOne(line: string) returns (ret: int)
      requires groups != [] && Inside(line)
      modifies this`groups
      ensures (ret, groups) == ParseLine(old(groups), line)
    {
      hide KeyOf, ValueOf, AddItem, GroupName, GroupEnd, TrimLeft, Inside, KeyFits, AfterKey, Find;
      var start := SkipSpace(line, 0);
      assert line[0..] == line;
      IndentIs(line, start);
      if start == |line| || line[start] == '#' {
        ret := ParseComment(line);
        return;
      }
      var close := Strchr(line[start..], ']');
      if line[start] == '[' && close < |line| - start {
        InsideGroup(line);
        ret := ParseGroup(line, |line| - start);
        return;
      }
      var equals := Strchr(line[start..], '=');
      if equals < |line| - start && line[start] != '=' {
        ret := ParseKeyvalue(line, |line| - start);
        return;
      }
      return CF_ERROR_PARSE;
    }

    method FlushBuffer() returns (ret: int)
      requires groups != [] && Inside(parseBuffer)
      modifies this
      ensures parseBuffer == []
      ensures (ret, groups) ==
        if old(parseBuffer) == [] then (CF_OK, old(groups)) else ParseLine(old(groups), old(parseBuffer))
    {
      ret := CF_OK;
      if |parseBuffer| > 0 {
        ret := ParseOne(parseBuffer);
        parseBuffer := [];
      }
    }

    /** A newline that ends a line: the buffer is parsed, an empty one as a remark. */
    method EndLine() returns (ret: int)
      requires groups != [] && Inside(parseBuffer)
      modifies this
      ensures parseBuffer == [] && (ret, groups) == ParseLine(old(groups), old(parseBuffer))
    {
      hide ParseLine, Inside, AddItem;
      if |parseBuffer| > 0 {
        ret := FlushBuffer();
      } else {
        BlankLine(groups);
        ret := ParseComment("");
      }
    }

    /** config_parse_data: the lines that the block completes are parsed, up to the first
        that fails; what is left stays in the buffer. */
    method ParseData(data: string) returns (ret: int)
      requires groups != [] && AllInside(Cut(parseBuffer, data, true).0)
      modifies this
      ensures groups != [] && (ret, groups) == ParseLines(old(groups), Cut(old(parseBuffer), data, true).0)
      ensures parseBuffer == if ret == CF_OK then Cut(old(parseBuffer), data, true).1 else []
    {
      hide ParseLine, Inside;
      ghost var all, rest := Cut(parseBuffer, data, true).0, Cut(parseBuffer, data, true).1;
      var i := 0;
      assert data[0..] == data;
      while i < |data|
        invariant 0 <= i <= |data| && groups != [] && Cut(parseBuffer, data[i..], i == 0).1 == rest
        invariant ParseLines(groups, Cut(parseBuffer, data[i..], i == 0).0) == ParseLines(old(groups), all)
        invariant AllInside(Cut(parseBuffer, data[i..], i == 0).0)
      {
        ghost var lines := Cut(parseBuffer, data[i..], i == 0).0;
        assert data[i..][0] == data[i] && data[i..][1..] == data[i + 1..];
        if data[i] == '\n' {
          if i > 0 && |parseBuffer| > 0 && parseBuffer[|parseBuffer| - 1] == '\r' {
            parseBuffer := parseBuffer[..|parseBuffer| - 1];
          }
          if i > 0 && |parseBuffer| > 0 && parseBuffer[|parseBuffer| - 1] == '\\' {
            parseBuffer := parseBuffer[..|parseBuffer| - 1];
          } else {
            assert lines[0] == parseBuffer && lines[1..] == Cut([], data[i + 1..], false).0;
            ParseLineGrows(groups, parseBuffer);
            ret := EndLine();
            if ret != CF_OK {
              return;
            }
          }
        } else {
          parseBuffer := parseBuffer + [data[i]];
        }
        i := i + 1;
      }
      assert data[i..] == [];
      ret := CF_OK;
    }

    /** config_load_from_data into a fresh object. */
    method LoadFromData(data: string) returns (ret: int)
      requires groups == EMPTY && parseBuffer == [] && InsideText(data)
      modifies this
      ensures (ret, groups) == LoadText(data)
    {
      hide Cut, ParseLine, ParseLines, Inside, AllInside;
      if |data| == 0 {
        return CF_ERROR_INVALID_ARGS;
      }
      ret := ParseData(data);
      if ret != CF_OK {
        return;
      }
      var ignored := FlushBuffer();
    }

    /** config_load_from_fd into a fresh object: a file that is not empty, read in any
        blocks. The result is that of the lines of the blocks; if they tear nothing, it is
        that of the text as a whole. */
    method LoadFromBlocks(blocks: seq<string>) returns (ret: int)
      requires groups == EMPTY && parseBuffer == [] && Concat(blocks) != [] && InsideBlocks(blocks)
      modifies this
      ensures (ret, groups) == LoadBlocks(blocks)
      ensures Untorn([], blocks) ==> (ret, groups) == LoadText(Concat(blocks))
    {
      hide Cut, ParseLine, ParseLines, Inside, AllInside, CutBlocks, Untorn;
      ghost var lines, rest := CutBlocks([], blocks).0, CutBlocks([], blocks).1;
      if Untorn([], blocks) {
        BlocksDontMatter([], blocks);
        FirstMatters([], Concat(blocks));
      }
      ret := CF_OK;
      var k := 0;
      assert blocks[0..] == blocks;
      while k < |blocks| && ret == CF_OK
        invariant 0 <= k <= |blocks| && groups != []
        invariant ret == CF_OK ==> Rest(blocks[k..], lines, rest)
        invariant ret != CF_OK ==> (ret, groups) == ParseLines(EMPTY, lines)
      {
        TakeBlock(groups, parseBuffer, blocks[k..], lines, rest);
        assert blocks[k..][1..] == blocks[k + 1..];
        ret := ParseData(blocks[k]);
        k := k + 1;
      }
      if ret == CF_OK {
        assert blocks[k..] == [];
        AllRead(groups, parseBuffer, lines, rest);
        var ignored := FlushBuffer();
      }
    }

    /** config_to_data. */
    method ToData() returns (text: string)
      ensures text == Printed(groups)
    {
      hide ItemLine;
      text := "";
      var k := 0;
      assert groups[..0] == [];
      while k < |groups|
        invariant 0 <= k <= |groups| && text == Unlines(PrintLines(groups[..k]))
      {
        var g := groups[k];
        assert groups[..k + 1][..k] == groups[..k];
        ghost var before := PrintLines(groups[..k]);
        ghost var head: seq<string> := [];
        if g.name.Some? {
          head := ["[" + g.name.value + "]"];
          UnlinesLast(before, "[" + g.name.value + "]");
          text := text + ("[" + g.name.value + "]") + "\n";
        } else {
          assert before + head == before;
        }
        text := PrintItems(text, g.items, before + head);
        assert before + head + ItemLines(g.items) == before + (head + ItemLines(g.items));
        k := k + 1;
      }
      assert groups[..|groups|] == groups;
    }

    /** What is still to be read gives the lines that are still to be parsed. */
    ghost predicate Rest(blocks: seq<string>, lines: seq<string>, rest: string)
      reads this
    {
      groups != [] && ToCome(groups, parseBuffer, blocks, lines, rest)
    }
  }

  lemma {:induction false} UnlinesLast(lines: seq<string>, line: string)
    ensures Unlines(lines + [line]) == Unlines(lines) + line + "\n"
    decreases |lines|
  {
    if lines == [] {
      assert lines + [line] == [line] && [line][1..] == [];
    } else {
      assert (lines + [line])[1..] == lines[1..] + [line];
      UnlinesLast(lines[1..], line);
    }
  }

  lemma BlankLine(groups: seq<Group>)
    requires groups != []
    ensures ParseLine(groups, "") == (CF_OK, AddItem(groups, Remark("")))
  {
  }

  ghost predicate ToCome(groups: seq<Group>, buffer: string, blocks: seq<string>, lines: seq<string>, rest: string)
    requires groups != []
  {
    var (more, rest') := CutBlocks(buffer, blocks);
    ParseLines(groups, more) == ParseLines(EMPTY, lines) && rest' == rest && AllInside(more)
  }

  lemma TakeBlock(groups: seq<Group>, buffer: string, blocks: seq<string>, lines: seq<string>, rest: string)
    requires groups != [] && blocks != [] && ToCome(groups, buffer, blocks, lines, rest)
    ensures AllInside(Cut(buffer, blocks[0], true).0)
    ensures var (now, buffer') := Cut(buffer, blocks[0], true);
      var (ret, groups') := ParseLines(groups, now);
      groups' != [] &&
      if ret == CF_OK then ToCome(groups', buffer', blocks[1..], lines, rest)
      else (ret, groups') == ParseLines(EMPTY, lines)
  {
    hide Cut, ParseLine, Inside;
    var (now, buffer') := Cut(buffer, blocks[0], true);
    var (more, _) := CutBlocks(buffer', blocks[1..]);
    assert forall i :: 0 <= i < |now| ==> (now + more)[i] == now[i];
    assert forall i :: 0 <= i < |more| ==> (now + more)[|now| + i] == more[i];
    ParseLinesGrow(groups, now);
    if ParseLines(groups, now).0 == CF_OK {
      ParseLinesConcat(groups, now, more);
    } else {
      ParseLinesStops(groups, now, more);
    }
  }

  lemma {:induction false} ParseLinesStops(groups: seq<Group>, a: seq<string>, b: seq<string>)
    requires groups != [] && ParseLines(groups, a).0 != CF_OK
    ensures ParseLines(groups, a + b) == ParseLines(groups, a)
    decreases |a|
  {
    hide ParseLine;
    if a != [] {
      assert (a + b)[1..] == a[1..] + b;
      ParseLineGrows(groups, a[0]);
      if ParseLine(groups, a[0]).0 == CF_OK { ParseLinesStops(ParseLine(groups, a[0]).1, a[1..], b); }
    }
  }

  lemma AllRead(groups: seq<Group>, buffer: string, lines: seq<string>, rest: string)
    requires groups != [] && ToCome(groups, buffer, [], lines, rest)
    ensures (CF_OK, groups) == ParseLines(EMPTY, lines) && buffer == rest
  {
  }
}
