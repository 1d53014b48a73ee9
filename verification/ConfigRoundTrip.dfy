/** Loading what a loaded configuration prints gives the configuration back. */
module ConfigRoundTrip {
  import opened Common
  import opened ConfigText
  import opened ConfigCut

  // ----- Configurations that print and load back -----

  /** The text of one line. */
  predicate OneLine(s: string) { '\n' !in s }

  /** A line that does not survive being written before a newline. */
  predicate TornLine(s: string) { s != [] && (s[|s| - 1] == '\r' || s[|s| - 1] == '\\') }

  /** What a newline makes of the line before it. */
  function Chopped(s: string): string { Chop(Chop(s, '\r'), '\\') }

  predicate Trimmed(s: string) { s == [] || (!IsSpace(s[0]) && !IsSpace(s[|s| - 1])) }

  /** What a setting that was loaded looks like. Its key may begin with blanks. */
  predicate TidySetting(k: string, v: string) {
    k != [] && !IsSpace(k[|k| - 1]) && Trimmed(v) && OneLine(k) && OneLine(v) && '=' !in k &&
    var c := k[Indent(k)];
    c != '#' && !(c == '[' && (']' in k || ']' in v))
  }

  predicate CleanSetting(k: string, v: string) { TidySetting(k, v) && !IsSpace(k[0]) }

  predicate TidyItem(item: Item) {
    match item
    case Remark(text) => OneLine(text) && IsRemark(text)
    case Setting(key, value) => TidySetting(key, value)
  }

  ghost predicate TidyItems(items: seq<Item>) {
    (forall i :: 0 <= i < |items| ==> TidyItem(items[i])) &&
    (forall i, j :: 0 <= i < j < |items| && items[i].Setting? && items[j].Setting? ==> items[i].key != items[j].key)
  }

  /** The first group has no name and only remarks; every other has a name. */
  ghost predicate TidyGroup(g: Group, first: bool) {
    TidyItems(g.items) && (g.name.None? <==> first) && (g.name.Some? ==> OneLine(g.name.value)) &&
    (first ==> forall i :: 0 <= i < |g.items| ==> g.items[i].Remark?)
  }

  /** What a configuration that was loaded looks like. */
  ghost predicate Tidy(groups: seq<Group>) {
    groups != [] && forall i :: 0 <= i < |groups| ==> TidyGroup(groups[i], i == 0)
  }

  predicate IndentedItem(item: Item) { item.Setting? && item.key != [] && IsSpace(item.key[0]) }

  predicate IndentedGroup(g: Group) { exists j :: 0 <= j < |g.items| && IndentedItem(g.items[j]) }

  /** Some key begins with a blank. */
  predicate Indented(groups: seq<Group>) { exists i :: 0 <= i < |groups| && IndentedGroup(groups[i]) }

  predicate TornGroup(g: Group) { exists j :: 0 <= j < |g.items| && TornLine(ItemLine(g.items[j])) }

  /** Some remark ends with a CR or a backslash, or some value with a backslash. */
  predicate TornConfig(groups: seq<Group>) { exists i :: 0 <= i < |groups| && TornGroup(groups[i]) }

  predicate CleanItem(item: Item) { TidyItem(item) && !IndentedItem(item) }

  ghost predicate CleanItems(items: seq<Item>) {
    TidyItems(items) && forall i :: 0 <= i < |items| ==> !IndentedItem(items[i])
  }

  ghost predicate CleanGroup(g: Group, first: bool) { TidyGroup(g, first) && !IndentedGroup(g) }

  ghost predicate Clean(groups: seq<Group>) {
    groups != [] && forall i :: 0 <= i < |groups| ==> CleanGroup(groups[i], i == 0)
  }

  // ----- Lines read back -----

  lemma FindIs(s: string, c: char, i: nat)
    requires i < |s| && s[i] == c && c !in s[..i]
    ensures Find(s, c) == i
  {
  }

  lemma FindLastIs(s: string, c: char, i: nat)
    requires i == |s| - 1 && s[i] == c
    ensures FindLast(s, c) == i
  {
  }

  lemma TrimLeftIs(s: string, r: string)
    requires Trimmed(r) && |r| <= |s| && s[|s| - |r|..] == r && forall i :: 0 <= i < |s| - |r| ==> IsSpace(s[i])
    ensures TrimLeft(s) == r
  {
    var t := TrimLeft(s);
    assert r != [] ==> r[0] == s[|s| - |r|];
    assert t != [] ==> t[0] == s[|s| - |t|];
  }

  lemma TrimRightIs(s: string, r: string)
    requires (r == [] || !IsSpace(r[|r| - 1])) && |r| <= |s| && s[..|r|] == r
    requires forall i :: |r| <= i < |s| ==> IsSpace(s[i])
    ensures TrimRight(s) == r
  {
    var t := TrimRight(s);
    assert r != [] ==> r[|r| - 1] == s[|r| - 1];
    assert t != [] ==> t[|t| - 1] == s[|t| - 1];
  }

  lemma NotIndented(line: string)
    requires line != [] && !IsSpace(line[0])
    ensures Indent(line) == 0 && TrimLeft(line) == line && (IsRemark(line) <==> line[0] == '#')
  {
  }

  lemma Joined(k: string, v: string)
    ensures var line := k + " = " + v;
      line[|k| + 1] == '=' && line[..|k| + 1] == k + " " && line[|k| + 2..] == " " + v &&
        (k != [] ==> line[0] == k[0]) &&
      forall c :: c in line ==> c in k || c == ' ' || c == '=' || c in v
  {
  }

  lemma SettingKey(k: string, v: string)
    requires k != [] && !IsSpace(k[|k| - 1]) && '=' !in k
    ensures var line := k + " = " + v; Find(line, '=') == |k| + 1 && KeyOf(line) == k
  {
    Joined(k, v);
    FindIs(k + " = " + v, '=', |k| + 1);
    TrimRightIs(k + " ", k);
  }

  lemma SettingAfter(k: string, v: string)
    requires k != [] && !IsSpace(k[|k| - 1]) && Trimmed(v) && '=' !in k
    ensures AfterKey(k + " = " + v) == v
  {
    Joined(k, v);
    SettingKey(k, v);
    hide KeyOf, Find, TrimLeft;
    TrimLeftIs(" " + v, v);
  }

  lemma SettingValue(k: string, v: string)
    requires k != [] && Trimmed(v) && '=' !in k && !IsSpace(k[|k| - 1]) && !IsSpace(k[0])
    ensures var line := k + " = " + v; Indent(line) == 0 && ValueOf(line) == v && KeyFits(line)
  {
    var line := k + " = " + v;
    Joined(k, v);
    SettingKey(k, v);
    SettingAfter(k, v);
    NotIndented(line);
    hide KeyOf, AfterKey, TrimRight, Indent;
    assert v[..|v|] == v;
    TrimRightIs(v, v);
  }

  lemma SettingKind(k: string, v: string)
    requires CleanSetting(k, v)
    ensures var line := k + " = " + v; !IsRemark(line) && !IsGroup(line) && IsSetting(line)
  {
    Joined(k, v);
    NotIndented(k + " = " + v);
    hide IsRemark, TrimLeft;
  }

  lemma SettingReadBack(k: string, v: string)
    requires CleanSetting(k, v)
    ensures var line := ItemLine(Setting(k, v));
      !IsRemark(line) && !IsGroup(line) && IsSetting(line) && KeyOf(line) == k && ValueOf(line) == v &&
      KeyFits(line) && Inside(line)
  {
    hide IsRemark, IsGroup, IsSetting, KeyOf, ValueOf, Indent, KeyFits;
    SettingKind(k, v);
    SettingKey(k, v);
    SettingValue(k, v);
  }

  lemma GroupReadBack(name: string)
    ensures var line := "[" + name + "]";
      !IsRemark(line) && IsGroup(line) && GroupEnd(line) > 0 && GroupName(line) == name
  {
    var line := "[" + name + "]";
    NotIndented(line);
    assert ']' in line by { assert line[|line| - 1] == ']'; }
    hide IsRemark, TrimLeft, Indent;
    FindLastIs(line, ']', |line| - 1);
    assert line[1..|line| - 1] == name;
  }

  lemma AddLast(pre: seq<Group>, g: Group, item: Item)
    ensures AddItem(pre + [g], item) == pre + [Group(g.name, g.items + [item])]
  {
  }

  /** The lines of a group's items, read after some of them are there. */
  lemma {:induction false} ItemsReadBack(pre: seq<Group>, name: Option<string>, done: seq<Item>, todo: seq<Item>)
    requires CleanItems(done + todo) && (name.None? ==> forall i :: 0 <= i < |todo| ==> todo[i].Remark?)
    ensures ParseLines(pre + [Group(name, done)], ItemLines(todo)) == (CF_OK, pre + [Group(name, done + todo)])
    decreases |todo|
  {
    if todo == [] {
      assert done + todo == done;
    } else {
      var item, rest := todo[0], todo[1..];
      var lines := ItemLines(todo);
      assert lines[0] == ItemLine(item) && lines[1..] == ItemLines(rest);
      assert (done + todo)[|done|] == item && done + todo == (done + [item]) + rest;
      ItemReadBack(pre, name, done, item, rest);
      AddLast(pre, Group(name, done), item);
      ItemsReadBack(pre, name, done + [item], rest);
    }
  }

  lemma ItemReadBack(pre: seq<Group>, name: Option<string>, done: seq<Item>, item: Item, rest: seq<Item>)
    requires CleanItems(done + [item] + rest) && (name.None? ==> item.Remark?)
    ensures ParseLine(pre + [Group(name, done)], ItemLine(item)) == (CF_OK, AddItem(pre + [Group(name, done)], item))
  {
    var all := done + [item] + rest;
    assert all[|done|] == item && forall i :: 0 <= i < |done| ==> all[i] == done[i];
    hide IsRemark, IsGroup, IsSetting, KeyOf, ValueOf, AddItem, ItemLine, TidyItem, KeyFits;
    ItemIs(item);
  }

  /** What the line of an item says. */
  lemma ItemIs(item: Item)
    requires CleanItem(item)
    ensures item.Remark? ==> IsRemark(ItemLine(item)) && ItemLine(item) == item.text
    ensures item.Setting? ==>
              !IsRemark(ItemLine(item)) && !IsGroup(ItemLine(item)) && IsSetting(ItemLine(item)) &&
              KeyOf(ItemLine(item)) == item.key && ValueOf(ItemLine(item)) == item.value && KeyFits(ItemLine(item))
    ensures Inside(ItemLine(item))
  {
    hide IsGroup, IsSetting, KeyOf, ValueOf, KeyFits;
    if item.Setting? { SettingReadBack(item.key, item.value); }
  }

  // ----- Whole configurations -----

  lemma {:induction false} ParseLinesConcat(groups: seq<Group>, a: seq<string>, b: seq<string>)
    requires groups != [] && ParseLines(groups, a).0 == CF_OK
    ensures ParseLines(groups, a).1 != [] && ParseLines(groups, a + b) == ParseLines(ParseLines(groups, a).1, b)
    decreases |a|
  {
    hide ParseLine;
    if a == [] {
      assert a + b == b;
    } else {
      assert (a + b)[1..] == a[1..] + b;
      ParseLineGrows(groups, a[0]);
      ParseLinesConcat(ParseLine(groups, a[0]).1, a[1..], b);
    }
  }

  /** A clean group, read after others. */
  lemma GroupBack(pre: seq<Group>, g: Group)
    requires pre != [] && CleanGroup(g, false)
    ensures ParseLines(pre, GroupLines(g)) == (CF_OK, pre + [g])
  {
    var name := g.name.value;
    var head := ["[" + name + "]"];
    hide ItemLines, IsRemark, IsGroup, GroupName, GroupEnd;
    GroupReadBack(name);
    assert head[1..] == [];
    assert ParseLines(pre, head) == (CF_OK, pre + [Group(g.name, [])]);
    ParseLinesConcat(pre, head, ItemLines(g.items));
    assert [] + g.items == g.items;
    ItemsReadBack(pre, g.name, [], g.items);
  }

  lemma FirstBack(g: Group)
    requires CleanGroup(g, true)
    ensures ParseLines(EMPTY, GroupLines(g)) == (CF_OK, [g])
  {
    hide ParseLines, ItemLines, CleanItems;
    assert GroupLines(g) == [] + ItemLines(g.items) == ItemLines(g.items);
    assert [] + [Group(None, [])] == EMPTY && [] + g.items == g.items && [] + [Group(None, g.items)] == [g];
    ItemsReadBack([], None, [], g.items);
  }

  lemma CleanInit(groups: seq<Group>)
    requires Clean(groups)
    ensures groups != [] && CleanGroup(groups[|groups| - 1], |groups| == 1) &&
      (|groups| > 1 ==> Clean(groups[..|groups| - 1]))
  {
    hide CleanGroup;
  }

  /** The lines a clean configuration prints are read back as that configuration. */
  lemma {:induction false} PrintReadBack(groups: seq<Group>)
    requires Clean(groups)
    ensures ParseLines(EMPTY, PrintLines(groups)) == (CF_OK, groups)
    decreases |groups|
  {
    hide ParseLines, GroupLines, Clean, CleanGroup;
    CleanInit(groups);
    var init, g := groups[..|groups| - 1], groups[|groups| - 1];
    if init == [] {
      assert groups == [g] && PrintLines(groups) == [] + GroupLines(g) == GroupLines(g);
      FirstBack(g);
    } else {
      PrintReadBack(init);
      GroupBack(init, g);
      ParseLinesConcat(EMPTY, PrintLines(init), GroupLines(g));
      assert init + [g] == groups;
    }
  }

  // ----- Printed lines are cut back -----

  /** The lines that the lines of a text become when they are read: a line that ends with
      a backslash, perhaps before a CR, goes on with the next. */
  function Emitted(buffer: string, lines: seq<string>): (seq<string>, string)
    decreases |lines|
  {
    if lines == [] then ([], buffer)
    else
      var x := Chop(buffer + lines[0], '\r');
      if x != [] && x[|x| - 1] == '\\' then Emitted(Chop(x, '\\'), lines[1..])
      else
        var (more, rest) := Emitted([], lines[1..]);
        ([x] + more, rest)
  }

  lemma {:induction false} CutLine(buffer: string, line: string, rest: string)
    requires OneLine(line)
    ensures Cut(buffer, line + "\n" + rest, false) == Cut(buffer + line, "\n" + rest, false)
    decreases |line|
  {
    if line == [] {
      assert line + "\n" + rest == "\n" + rest && buffer + line == buffer;
    } else {
      var data := line + "\n" + rest;
      assert data[0] == line[0] && line[0] in line && data[1..] == line[1..] + "\n" + rest;
      assert buffer + [line[0]] + line[1..] == buffer + line;
      CutLine(buffer + [line[0]], line[1..], rest);
    }
  }

  lemma {:induction false} CutUnlines(buffer: string, lines: seq<string>)
    requires forall i :: 0 <= i < |lines| ==> OneLine(lines[i])
    ensures Cut(buffer, Unlines(lines), false) == Emitted(buffer, lines)
    decreases |lines|
  {
    if lines != [] {
      var line, rest := lines[0], Unlines(lines[1..]);
      CutLine(buffer, line, rest);
      assert ("\n" + rest)[1..] == rest;
      var x := Chop(buffer + line, '\r');
      CutUnlines(if x != [] && x[|x| - 1] == '\\' then Chop(x, '\\') else [], lines[1..]);
    }
  }

  lemma {:induction false} EmittedWhole(lines: seq<string>)
    requires forall i :: 0 <= i < |lines| ==> !TornLine(lines[i])
    ensures Emitted([], lines) == (lines, [])
    decreases |lines|
  {
    if lines != [] {
      assert !TornLine(lines[0]) && [] + lines[0] == lines[0];
      EmittedWhole(lines[1..]);
      assert [lines[0]] + lines[1..] == lines;
    }
  }

  /** All lines that are read, the last perhaps without a newline. */
  function AllEmitted(buffer: string, lines: seq<string>): seq<string> {
    var (more, rest) := Emitted(buffer, lines);
    if rest == [] then more else more + [rest]
  }

  /** No more lines are read than were written. */
  lemma {:induction false} EmittedCount(buffer: string, lines: seq<string>)
    requires lines != []
    ensures |AllEmitted(buffer, lines)| <= |lines|
    decreases |lines|
  {
    if |lines| > 1 {
      var x := Chop(buffer + lines[0], '\r');
      EmittedCount(if x != [] && x[|x| - 1] == '\\' then Chop(x, '\\') else [], lines[1..]);
    } else {
      var x := Chop(buffer + lines[0], '\r');
      assert lines[1..] == [] && Emitted([], []) == ([], []);
      assert Emitted(Chop(x, '\\'), []) == ([], Chop(x, '\\'));
    }
  }

  function ChoppedAll(lines: seq<string>): (r: seq<string>)
    ensures |r| == |lines| && forall i :: 0 <= i < |r| ==> r[i] == Chopped(lines[i])
  {
    seq(|lines|, i requires 0 <= i < |lines| => Chopped(lines[i]))
  }

  /** If as many are read as were written, each of them was read alone. */
  lemma {:induction false} EmittedAlone(lines: seq<string>)
    requires |AllEmitted([], lines)| == |lines|
    ensures AllEmitted([], lines) == ChoppedAll(lines)
    decreases |lines|
  {
    if lines != [] {
      var rest := lines[1..];
      assert [] + lines[0] == lines[0];
      var x := Chop(lines[0], '\r');
      assert ChoppedAll(lines) == [Chopped(lines[0])] + ChoppedAll(rest);
      if x != [] && x[|x| - 1] == '\\' {
        if rest == [] {
          assert Emitted(Chop(x, '\\'), rest) == ([], Chop(x, '\\'));
        } else {
          EmittedCount(Chop(x, '\\'), rest);
          assert false;
        }
      } else {
        EmittedHead(lines);
        EmittedAlone(rest);
      }
    }
  }

  lemma EmittedHead(lines: seq<string>)
    requires lines != [] && var x := Chop(lines[0], '\r'); x == [] || x[|x| - 1] != '\\'
    ensures AllEmitted([], lines) == [Chopped(lines[0])] + AllEmitted([], lines[1..])
  {
    assert [] + lines[0] == lines[0];
  }

  lemma {:induction false} PrintedOneLine(groups: seq<Group>)
    requires forall i :: 0 <= i < |groups| ==>
      TidyItems(groups[i].items) && (groups[i].name.Some? ==> OneLine(groups[i].name.value))
    ensures forall i :: 0 <= i < |PrintLines(groups)| ==> OneLine(PrintLines(groups)[i])
    decreases |groups|
  {
    if groups != [] {
      PrintedOneLine(groups[..|groups| - 1]);
      GroupOneLine(groups[|groups| - 1]);
    }
  }

  lemma GroupOneLine(g: Group)
    requires TidyItems(g.items) && (g.name.Some? ==> OneLine(g.name.value))
    ensures forall i :: 0 <= i < |GroupLines(g)| ==> OneLine(GroupLines(g)[i])
  {
    forall i | 0 <= i < |g.items|
      ensures OneLine(ItemLines(g.items)[i])
    {
      assert TidyItem(g.items[i]);
      if g.items[i].Setting? { Joined(g.items[i].key, g.items[i].value); }
    }
  }

  // ----- Loaded configurations are clean -----

  lemma PartOf(s: string, lo: nat, hi: nat)
    requires lo <= hi <= |s|
    ensures forall c :: c in s[lo..hi] ==> c in s
  {
    assert forall i :: 0 <= i < hi - lo ==> s[lo..hi][i] == s[lo + i];
  }

  lemma KeyTidy(line: string)
    requires IsSetting(line)
    ensures var k := KeyOf(line);
      k != [] && k[0] == line[0] && !IsSpace(k[|k| - 1]) && '=' !in k && forall c :: c in k ==> c in line
  {
    var p, n := Find(line, '='), BlanksEnd(line, 0);
    assert line[..p][n] == line[n] && line[..p][0] == line[0];
    var k := TrimRight(line[..p]);
    PartOf(line, 0, p);
    PartOf(line[..p], 0, |k|);
    assert line[0..p] == line[..p] && line[..p][0..|k|] == k;
  }

  lemma LeftPart(s: string)
    ensures forall c :: c in TrimLeft(s) ==> c in s
  {
    var t := TrimLeft(s);
    PartOf(s, |s| - |t|, |s|);
    assert s[|s| - |t|..|s|] == t;
  }

  lemma RightPart(s: string)
    ensures var t := TrimRight(s); (t != [] ==> t[0] == s[0]) && forall c :: c in t ==> c in s
  {
    var t := TrimRight(s);
    PartOf(s, 0, |t|);
    assert s[0..|t|] == t;
  }

  lemma AfterPart(line: string)
    ensures var t := AfterKey(line); (t != [] ==> !IsSpace(t[0])) && forall c :: c in t ==> c in line
  {
    hide Find;
    var p := Find(line, '=');
    if p < |line| {
      PartOf(line, p + 1, |line|);
      assert line[p + 1..|line|] == line[p + 1..];
      LeftPart(line[p + 1..]);
    }
  }

  lemma ValueTidy(line: string)
    ensures var v := ValueOf(line); Trimmed(v) && forall c :: c in v ==> c in line
  {
    AfterPart(line);
    hide AfterKey, Indent;
    var t := AfterKey(line);
    if Indent(line) <= |t| {
      var part := t[..|t| - Indent(line)];
      PartOf(t, 0, |t| - Indent(line));
      assert t[0..|t| - Indent(line)] == part;
      RightPart(part);
    }
  }

  lemma BlanksAre(line: string, n: nat)
    requires n < |line| && !IsSpace(line[n]) && forall i :: 0 <= i < n ==> IsSpace(line[i])
    ensures Indent(line) == n
  {
  }

  lemma KeyStart(line: string)
    requires IsSetting(line)
    ensures var k := KeyOf(line); Indent(k) < |k| && k[Indent(k)] == TrimLeft(line)[0]
  {
    KeyTidy(line);
    var k, p, n := KeyOf(line), Find(line, '='), Indent(line);
    assert n < |line| && TrimLeft(line)[0] == line[n];
    KeyReaches(line);
    hide KeyOf;
    assert forall i :: 0 <= i <= n ==> k[i] == line[i];
    BlanksAre(k, n);
  }

  lemma KeyReaches(line: string)
    requires IsSetting(line)
    ensures var k := KeyOf(line); Indent(line) < |k| <= |line| && forall i :: 0 <= i < |k| ==> k[i] == line[i]
  {
    var p, n := Find(line, '='), Indent(line);
    assert TrimLeft(line) == line[n..] && line[n] != '=' && n < p;
    assert line[..p][n] == line[n];
  }

  lemma SettingTidy(line: string)
    requires OneLine(line) && !IsRemark(line) && !IsGroup(line) && IsSetting(line)
    ensures TidySetting(KeyOf(line), ValueOf(line))
  {
    KeyTidy(line);
    KeyStart(line);
    ValueTidy(line);
    NoBracket(line);
    hide KeyOf, ValueOf, IsSetting, Indent;
  }

  /** In a line that begins with a bracket and is no group, no bracket closes. */
  lemma NoBracket(line: string)
    requires !IsRemark(line) && !IsGroup(line)
    ensures var c := TrimLeft(line)[0]; c != '#' && (c == '[' ==> ']' !in line)
  {
    var n := Indent(line);
    assert TrimLeft(line) == line[n..];
    forall i | 0 <= i < |line| && line[i] == ']' ensures line[i] in TrimLeft(line) {
      assert i >= n && line[i] == line[n..][i - n];
    }
  }

  lemma NameTidy(line: string)
    requires OneLine(line) && GroupEnd(line) > 0
    ensures OneLine(GroupName(line))
  {
    PartOf(line, 1, GroupEnd(line));
  }

  lemma TidyAdd(groups: seq<Group>, item: Item)
    requires Tidy(groups) && TidyItem(item)
    requires item.Setting? ==> groups[|groups| - 1].name.Some? && !HasSetting(groups[|groups| - 1].items, item.key)
    ensures Tidy(AddItem(groups, item))
  {
    var n := |groups| - 1;
    var items := groups[n].items + [item];
    hide TidyItem;
    assert TidyGroup(groups[n], n == 0);
    assert TidyItems(items);
  }

  lemma TidyNewGroup(groups: seq<Group>, name: string)
    requires Tidy(groups) && OneLine(name)
    ensures Tidy(groups + [Group(Some(name), [])])
  {
  }

  lemma ParseLineTidy(groups: seq<Group>, line: string)
    requires Tidy(groups) && OneLine(line)
    ensures Tidy(ParseLine(groups, line).1)
  {
    hide Tidy, IsRemark, IsGroup, IsSetting, KeyOf, ValueOf, GroupName, GroupEnd, AddItem, HasSetting, TidySetting,
      KeyFits;
    TidyNonempty(groups);
    var last := groups[|groups| - 1];
    if IsRemark(line) {
      TidyAdd(groups, Remark(line));
    } else if IsGroup(line) {
      if GroupEnd(line) > 0 { NameTidy(line); }
      TidyNewGroup(groups, if GroupEnd(line) > 0 then GroupName(line) else []);
    } else if IsSetting(line) && last.name.Some? && KeyFits(line) && !HasSetting(last.items, KeyOf(line)) {
      SettingTidy(line);
      TidyAdd(groups, Setting(KeyOf(line), ValueOf(line)));
    }
  }

  lemma TidyNonempty(groups: seq<Group>)
    requires Tidy(groups)
    ensures groups != []
  {
  }

  lemma {:induction false} ParseLinesTidy(groups: seq<Group>, lines: seq<string>)
    requires Tidy(groups) && groups != []
    requires forall i :: 0 <= i < |lines| ==> OneLine(lines[i])
    ensures Tidy(ParseLines(groups, lines).1)
    decreases |lines|
  {
    hide Tidy, ParseLine, OneLine;
    if lines != [] {
      ParseLineTidy(groups, lines[0]);
      TidyNonempty(ParseLine(groups, lines[0]).1);
      ParseLinesTidy(ParseLine(groups, lines[0]).1, lines[1..]);
    }
  }

  lemma {:induction false} CutOneLine(buffer: string, data: string, first: bool)
    requires OneLine(buffer)
    ensures OneLine(Cut(buffer, data, first).1)
    ensures forall i :: 0 <= i < |Cut(buffer, data, first).0| ==> OneLine(Cut(buffer, data, first).0[i])
    decreases |data|
  {
    if data != [] {
      if data[0] != '\n' {
        CutOneLine(buffer + [data[0]], data[1..], false);
      } else {
        var line := if first then buffer else Chop(buffer, '\r');
        CutOneLine(if !first && line != [] && line[|line| - 1] == '\\' then Chop(line, '\\') else [], data[1..], false);
      }
    }
  }

  // ----- The round trip -----

  /** config_load_from_data: the code returned and the configuration. */
  function LoadText(text: string): (int, seq<Group>) {
    if text == [] then (CF_ERROR_INVALID_ARGS, EMPTY)
    else
      var (lines, rest) := Cut([], text, true);
      Loaded(lines, rest)
  }

  /** What the code reads of each line is inside the line. */
  predicate InsideText(text: string) {
    var (lines, rest) := Cut([], text, true);
    Inside(rest) && AllInside(lines)
  }

  /** What loads is tidy. */
  lemma LoadedTidy(text: string)
    ensures Tidy(LoadText(text).1)
  {
    hide OneLine, ParseLine;
    var (lines, rest) := Cut([], text, true);
    EmptyTidy();
    CutOneLine([], text, true);
    hide Tidy;
    ParseLinesTidy(EMPTY, lines);
    var groups := ParseLines(EMPTY, lines).1;
    TidyNonempty(groups);
    ParseLineTidy(groups, rest);
  }

  lemma EmptyTidy()
    ensures Tidy(EMPTY) && OneLine([])
  {
  }

  lemma PrintedNonempty(groups: seq<Group>)
    requires Tidy(groups) && groups != EMPTY
    ensures Printed(groups) != []
  {
    var init, g := groups[..|groups| - 1], groups[|groups| - 1];
    assert TidyGroup(g, init == []);
    if init == [] { assert groups == [g]; }
    assert GroupLines(g) != [];
    assert PrintLines(groups) != [];
  }

  /** The text of a configuration loads as that configuration; only one with nothing in
      it prints as a text that cannot be loaded. */
  predicate RoundTrips(groups: seq<Group>) {
    var printed := Printed(groups);
    if groups == EMPTY then LoadText(printed) == (CF_ERROR_INVALID_ARGS, EMPTY)
    else InsideText(printed) && LoadText(printed) == (CF_OK, groups)
  }

  lemma TidyClean(groups: seq<Group>)
    requires Tidy(groups) && !Indented(groups)
    ensures Clean(groups)
  {
    hide TidyGroup;
  }

  /** The lines of the text of a configuration. */
  lemma PrintedCut(groups: seq<Group>)
    requires Tidy(groups)
    ensures Cut([], Printed(groups), true) == Emitted([], PrintLines(groups))
  {
    assert forall i :: 0 <= i < |groups| ==> TidyGroup(groups[i], i == 0);
    PrintedOneLine(groups);
    hide PrintLines, OneLine, Cut;
    FirstMatters([], Printed(groups));
    CutUnlines([], PrintLines(groups));
  }

  lemma {:induction false} PrintedWhole(groups: seq<Group>)
    requires !TornConfig(groups)
    ensures forall i :: 0 <= i < |PrintLines(groups)| ==> !TornLine(PrintLines(groups)[i])
    decreases |groups|
  {
    hide TornGroup, GroupLines, TornLine;
    if groups != [] {
      PrintedWhole(groups[..|groups| - 1]);
      GroupWhole(groups[|groups| - 1]);
    }
  }

  lemma GroupWhole(g: Group)
    requires !TornGroup(g)
    ensures forall i :: 0 <= i < |GroupLines(g)| ==> !TornLine(GroupLines(g)[i])
  {
    hide ItemLine;
  }

  lemma CleanRoundTrips(groups: seq<Group>)
    requires Tidy(groups) && Clean(groups) && groups != EMPTY && !TornConfig(groups)
    ensures RoundTrips(groups)
  {
    hide Tidy, Clean, PrintLines, Inside, AllInside, Cut, ParseLines, TornConfig, TornLine;
    PrintedNonempty(groups);
    PrintedCut(groups);
    PrintedWhole(groups);
    EmittedWhole(PrintLines(groups));
    PrintReadBack(groups);
    PrintedInside(groups);
    EmptyInside();
  }

  lemma EmptyInside()
    ensures Inside([])
  {
  }

  lemma {:induction false} PrintedInside(groups: seq<Group>)
    requires Clean(groups)
    ensures AllInside(PrintLines(groups))
    decreases |groups|
  {
    hide Clean, CleanGroup, Inside, GroupLines;
    CleanInit(groups);
    var init, g := groups[..|groups| - 1], groups[|groups| - 1];
    GroupInside(g, |groups| == 1);
    if init == [] {
      assert PrintLines(init) == [];
    } else {
      PrintedInside(init);
    }
  }

  lemma GroupInside(g: Group, first: bool)
    requires CleanGroup(g, first)
    ensures AllInside(GroupLines(g))
  {
    hide Inside, ItemLine, TidyItem;
    forall i | 0 <= i < |g.items|
      ensures Inside(ItemLines(g.items)[i])
    {
      assert CleanItem(g.items[i]);
      ItemIs(g.items[i]);
    }
    if g.name.Some? { HeadInside(g.name.value); }
  }

  lemma HeadInside(name: string)
    ensures Inside("[" + name + "]")
  {
    hide IsRemark, IsGroup, GroupEnd, GroupName;
    GroupReadBack(name);
  }
}
