/** Exactly which configurations come back when they are printed and loaded again: a
    weight that loading never raises, and that some configurations lose. */
module ConfigReload {
  import opened Common
  import opened ConfigText
  import opened ConfigRoundTrip

  // ----- Weights -----

  function ItemWeight(item: Item): nat {
    match item
    case Remark(text) => |text|
    case Setting(key, value) => |key| + |value|
  }

  function ItemsWeight(items: seq<Item>): nat {
    if items == [] then 0 else ItemsWeight(items[..|items| - 1]) + ItemWeight(items[|items| - 1])
  }

  function GroupWeight(g: Group): nat { (if g.name.Some? then |g.name.value| else 0) + ItemsWeight(g.items) }

  /** How many characters all names, keys, values and remarks have. */
  function Weight(groups: seq<Group>): nat {
    if groups == [] then 0 else Weight(groups[..|groups| - 1]) + GroupWeight(groups[|groups| - 1])
  }

  function NameOf(line: string): string { if GroupEnd(line) > 0 then GroupName(line) else [] }

  function LineWeight(line: string): nat {
    if IsRemark(line) then |line| else if IsGroup(line) then |NameOf(line)| else |KeyOf(line)| + |ValueOf(line)|
  }

  function LinesWeight(lines: seq<string>): nat {
    if lines == [] then 0 else LineWeight(lines[0]) + LinesWeight(lines[1..])
  }

  lemma WeightAdded(groups: seq<Group>, item: Item)
    requires groups != []
    ensures Weight(AddItem(groups, item)) == Weight(groups) + ItemWeight(item)
    ensures |PrintLines(AddItem(groups, item))| == |PrintLines(groups)| + 1
  {
    var n := |groups| - 1;
    var items := groups[n].items;
    assert (items + [item])[..|items|] == items;
    assert AddItem(groups, item)[..n] == groups[..n];
  }

  lemma WeightGroup(groups: seq<Group>, name: string)
    ensures Weight(groups + [Group(Some(name), [])]) == Weight(groups) + |name|
    ensures |PrintLines(groups + [Group(Some(name), [])])| == |PrintLines(groups)| + 1
  {
    assert (groups + [Group(Some(name), [])])[..|groups|] == groups;
  }

  /** A line adds no more to the weight than its own, and one printed line. */
  lemma ParseLineWeight(groups: seq<Group>, line: string)
    requires groups != []
    ensures var (ret, groups') := ParseLine(groups, line);
      Weight(groups') <= Weight(groups) + LineWeight(line) &&
      |PrintLines(groups')| == |PrintLines(groups)| + (if ret == CF_OK then 1 else 0) &&
        (ret != CF_OK ==> groups' == groups)
  {
    hide Weight, AddItem, KeyOf, ValueOf, IsRemark, IsGroup, IsSetting, KeyFits, HasSetting, GroupEnd, GroupName,
      PrintLines;
    if IsRemark(line) {
      WeightAdded(groups, Remark(line));
    } else if IsGroup(line) {
      WeightGroup(groups, NameOf(line));
    } else {
      WeightAdded(groups, Setting(KeyOf(line), ValueOf(line)));
    }
  }

  lemma {:induction false} ParseLinesWeight(groups: seq<Group>, lines: seq<string>)
    requires groups != []
    ensures var (ret, groups') := ParseLines(groups, lines);
      Weight(groups') <= Weight(groups) + LinesWeight(lines) &&
      (ret == CF_OK ==> |PrintLines(groups')| == |PrintLines(groups)| + |lines|)
    decreases |lines|
  {
    hide Weight, ParseLine, LineWeight, PrintLines;
    if lines != [] {
      ParseLineWeight(groups, lines[0]);
      ParseLineGrows(groups, lines[0]);
      ParseLinesWeight(ParseLine(groups, lines[0]).1, lines[1..]);
    }
  }

  lemma {:induction false} LinesWeightConcat(a: seq<string>, b: seq<string>)
    ensures LinesWeight(a + b) == LinesWeight(a) + LinesWeight(b)
    decreases |a|
  {
    hide LineWeight;
    if a == [] {
      assert a + b == b;
    } else {
      assert (a + b)[1..] == a[1..] + b;
      LinesWeightConcat(a[1..], b);
    }
  }

  // ----- The line of a setting, read back -----

  lemma IndentOf(k: string, v: string)
    requires k != [] && !IsSpace(k[|k| - 1])
    ensures var line := k + " = " + v; Indent(line) == Indent(k) < |k| && line[Indent(line)] == k[Indent(k)]
  {
    var line, n := k + " = " + v, Indent(k);
    assert n < |k| && forall i :: 0 <= i < n ==> line[i] == k[i];
    BlanksAre(line, n);
  }

  /** A key and any value make a line that is a setting, unless brackets make it a group. */
  lemma SettingLine(k: string, v: string)
    requires k != [] && !IsSpace(k[|k| - 1]) && '=' !in k && k[Indent(k)] != '#'
    requires !(k[Indent(k)] == '[' && (']' in k || ']' in v))
    ensures var line := k + " = " + v; !IsRemark(line) && !IsGroup(line) && KeyOf(line) == k
  {
    var line := k + " = " + v;
    IndentOf(k, v);
    SettingKey(k, v);
    Joined(k, v);
    var n := Indent(line);
    var t := TrimLeft(line);
    assert t == line[n..] && t[0] == k[n];
    LeftPart(line);
    hide KeyOf;
  }

  /** Its value is no longer than it was, and shorter by as much as the key is indented. */
  lemma ValueShorter(k: string, v: string)
    requires k != [] && !IsSpace(k[|k| - 1]) && '=' !in k
    ensures var line := k + " = " + v;
      |AfterKey(line)| <= |v| && |ValueOf(line)| <= |v| &&
      (Indent(line) <= |AfterKey(line)| ==> |ValueOf(line)| <= |v| - Indent(line))
  {
    SettingKey(k, v);
    Joined(k, v);
    var line := k + " = " + v;
    assert line[Find(line, '=') + 1..] == " " + v;
    hide Find, KeyOf, Indent;
    Shorter(v);
  }

  lemma Shorter(v: string)
    ensures |TrimLeft(" " + v)| <= |v|
  {
    assert (" " + v)[0] == ' ';
    assert BlanksEnd(" " + v, 0) >= 1;
  }

  // ----- Printed lines, as they are read -----

  /** A line that is parsed without an error. */
  predicate Fine(line: string) { IsRemark(line) || IsGroup(line) || KeyFits(line) }

  lemma {:induction false} ParsedFine(groups: seq<Group>, lines: seq<string>, i: nat)
    requires groups != [] && ParseLines(groups, lines).0 == CF_OK && i < |lines|
    ensures Fine(lines[i])
    decreases i
  {
    hide IsRemark, IsGroup, IsSetting, KeyFits, AddItem, KeyOf, ValueOf, HasSetting, GroupEnd, GroupName;
    if i > 0 {
      hide ParseLine;
      ParseLineGrows(groups, lines[0]);
      ParsedFine(ParseLine(groups, lines[0]).1, lines[1..], i - 1);
    }
  }

  predicate AllFine(lines: seq<string>) { forall i :: 0 <= i < |lines| ==> Fine(lines[i]) }

  lemma ChoppedShorter(s: string)
    ensures |Chopped(s)| <= |s| && Chopped(s) == s[..|Chopped(s)|] && (TornLine(s) <==> |Chopped(s)| < |s|)
  {
  }

  /** A remark stays one. */
  lemma RemarkChopped(text: string)
    requires IsRemark(text)
    ensures IsRemark(Chopped(text))
  {
    ChoppedShorter(text);
    hide Chopped;
    var r, n := Chopped(text), Indent(text);
    if n < |r| {
      assert r[n] == text[n] == '#' && forall i :: 0 <= i < n ==> r[i] == text[i];
      BlanksAre(r, n);
    } else {
      assert forall i :: 0 <= i < |r| ==> r[i] == text[i] && IsSpace(r[i]);
    }
  }

  lemma SettingChopped(k: string, v: string)
    requires TidySetting(k, v)
    ensures exists v' :: Chopped(k + " = " + v) == k + " = " + v' && ShorterValue(k, v, v')
  {
    var line := k + " = " + v;
    if v == [] {
      assert line[|line| - 1] == ' ';
      assert Chopped(line) == line && ShorterValue(k, v, v);
    } else {
      assert line[|line| - 1] == v[|v| - 1] && v[|v| - 1] != '\r';
      var v' := Chop(v, '\\');
      assert Chopped(line) == k + " = " + v';
      assert ShorterValue(k, v, v');
    }
  }

  predicate ShorterValue(k: string, v: string, v': string) {
    |v'| <= |v| && (TornLine(k + " = " + v) <==> |v'| < |v|) && (']' in v' ==> ']' in v)
  }

  /** The printed line of a tidy setting, as it is read: it weighs no more than the
      setting, and less if the key begins with blanks or the line is torn. */
  lemma SettingLighter(k: string, v: string)
    requires TidySetting(k, v)
    requires var r := Chopped(k + " = " + v); Inside(r) && Fine(r)
    ensures var w := LineWeight(Chopped(k + " = " + v));
      w <= |k| + |v| && (IsSpace(k[0]) || TornLine(k + " = " + v) ==> w < |k| + |v|)
  {
    SettingChopped(k, v);
    hide Chopped, TornLine;
    var v' :| Chopped(k + " = " + v) == k + " = " + v' && ShorterValue(k, v, v');
    SettingLine(k, v');
    ValueShorter(k, v');
    IndentOf(k, v');
    SettingIs(k, v');
    hide IsRemark, IsGroup, KeyOf, ValueOf, AfterKey, KeyFits, IsSetting;
  }

  lemma SettingIs(k: string, v: string)
    requires k != [] && !IsSpace(k[|k| - 1]) && '=' !in k
    ensures IsSetting(k + " = " + v)
  {
    var line := k + " = " + v;
    IndentOf(k, v);
    var n := Indent(line);
    assert TrimLeft(line) == line[n..] && line[n..][0] == k[n] && k[n] in k;
    assert line[n..][|k| + 1 - n] == '=';
  }

  lemma ItemLighter(item: Item)
    requires TidyItem(item) && Inside(Chopped(ItemLine(item))) && Fine(Chopped(ItemLine(item)))
    ensures LineWeight(Chopped(ItemLine(item))) <= ItemWeight(item)
    ensures IndentedItem(item) || TornLine(ItemLine(item)) ==> LineWeight(Chopped(ItemLine(item))) < ItemWeight(item)
  {
    hide IsGroup, Inside, KeyFits, ValueOf, KeyOf, Chopped, TornLine;
    if item.Setting? {
      SettingLighter(item.key, item.value);
    } else {
      RemarkChopped(item.text);
      ChoppedShorter(item.text);
    }
  }

  predicate Lossy(item: Item) { IndentedItem(item) || TornLine(ItemLine(item)) }

  predicate LossyGroup(g: Group) { exists j :: 0 <= j < |g.items| && Lossy(g.items[j]) }

  lemma ChoppedSnoc(items: seq<Item>)
    requires items != []
    ensures ChoppedAll(ItemLines(items)) ==
      ChoppedAll(ItemLines(items[..|items| - 1])) + [Chopped(ItemLine(items[|items| - 1]))]
  {
    hide ItemLine, Chopped;
  }

  lemma {:induction false} ItemsLighter(items: seq<Item>)
    requires forall i :: 0 <= i < |items| ==> TidyItem(items[i])
    requires AllInside(ChoppedAll(ItemLines(items))) && AllFine(ChoppedAll(ItemLines(items)))
    ensures LinesWeight(ChoppedAll(ItemLines(items))) <= ItemsWeight(items)
    ensures (exists j :: 0 <= j < |items| && Lossy(items[j])) ==>
      LinesWeight(ChoppedAll(ItemLines(items))) < ItemsWeight(items)
    decreases |items|
  {
    hide TidyItem, Inside, Fine, LineWeight, ItemLine, Lossy, ItemWeight, Chopped;
    if items != [] {
      var init, item := items[..|items| - 1], items[|items| - 1];
      var lines, before := ChoppedAll(ItemLines(items)), ChoppedAll(ItemLines(init));
      ChoppedSnoc(items);
      assert lines[|init|] == Chopped(ItemLine(item));
      forall i | 0 <= i < |init| ensures Inside(before[i]) && Fine(before[i]) { assert lines[i] == before[i]; }
      ItemsLighter(init);
      LastLighter(item);
      LinesWeightConcat(before, [Chopped(ItemLine(item))]);
      assert [Chopped(ItemLine(item))][1..] == [];
    }
  }

  lemma LastLighter(item: Item)
    requires TidyItem(item) && Inside(Chopped(ItemLine(item))) && Fine(Chopped(ItemLine(item)))
    ensures LineWeight(Chopped(ItemLine(item))) + (if Lossy(item) then 1 else 0) <= ItemWeight(item)
  {
    hide TidyItem, Inside, Fine, LineWeight, ItemLine, ItemWeight, Chopped;
    ItemLighter(item);
  }

  lemma GroupLighter(g: Group, first: bool)
    requires TidyGroup(g, first) && AllInside(ChoppedAll(GroupLines(g))) && AllFine(ChoppedAll(GroupLines(g)))
    ensures LinesWeight(ChoppedAll(GroupLines(g))) <= GroupWeight(g)
    ensures LossyGroup(g) ==> LinesWeight(ChoppedAll(GroupLines(g))) < GroupWeight(g)
  {
    hide TidyItem, Inside, Fine, LineWeight, ItemLine, Lossy, LinesWeight, ItemsWeight, ItemLines, Chopped;
    var head: seq<string> := if g.name.Some? then ["[" + g.name.value + "]"] else [];
    var lines, items := ChoppedAll(GroupLines(g)), ChoppedAll(ItemLines(g.items));
    assert GroupLines(g) == head + ItemLines(g.items) && lines == ChoppedAll(head) + items;
    forall i | 0 <= i < |items| ensures Inside(items[i]) && Fine(items[i]) { assert lines[|head| + i] == items[i]; }
    ItemsLighter(g.items);
    LinesWeightConcat(ChoppedAll(head), items);
    if g.name.Some? { HeadWeight(g.name.value); } else { NoWeight(); }
  }

  lemma HeadWeight(name: string)
    ensures LinesWeight(ChoppedAll(["[" + name + "]"])) == |name|
  {
    var line := "[" + name + "]";
    assert line[|line| - 1] == ']';
    assert ChoppedAll([line]) == [line];
    hide IsRemark, IsGroup, GroupEnd, GroupName, ValueOf, Chopped;
    GroupReadBack(name);
    NoWeight();
    assert [line][1..] == [];
  }

  lemma NoWeight()
    ensures LinesWeight([]) == 0 && ChoppedAll([]) == []
  {
  }

  lemma {:induction false} PrintedLighter(groups: seq<Group>)
    requires forall i :: 0 <= i < |groups| ==> TidyGroup(groups[i], i == 0)
    requires AllInside(ChoppedAll(PrintLines(groups))) && AllFine(ChoppedAll(PrintLines(groups)))
    ensures LinesWeight(ChoppedAll(PrintLines(groups))) <= Weight(groups)
    ensures (exists i :: 0 <= i < |groups| && LossyGroup(groups[i])) ==>
      LinesWeight(ChoppedAll(PrintLines(groups))) < Weight(groups)
    decreases |groups|
  {
    hide TidyGroup, Inside, Fine, LinesWeight, GroupWeight, LossyGroup, GroupLines, Chopped;
    if groups == [] {
      NoWeight();
    } else {
      var init, g := groups[..|groups| - 1], groups[|groups| - 1];
      var a, b := ChoppedAll(PrintLines(init)), ChoppedAll(GroupLines(g));
      assert ChoppedAll(PrintLines(groups)) == a + b;
      assert forall i :: 0 <= i < |a| ==> (a + b)[i] == a[i];
      assert forall i :: 0 <= i < |b| ==> (a + b)[|a| + i] == b[i];
      PrintedLighter(init);
      GroupLighter(g, |groups| == 1);
      LinesWeightConcat(a, b);
    }
  }

  // ----- What a successful reload must have read -----

  lemma EmptyFacts()
    ensures Weight(EMPTY) == 0 && |PrintLines(EMPTY)| == 0 && !Indented(EMPTY) && !TornConfig(EMPTY)
  {
    assert EMPTY[..0] == [];
  }

  /** A configuration that was loaded prints no more lines than were read; if as many, then
      each was parsed without an error. */
  lemma AllParsed(more: seq<string>, rest: string, groups: seq<Group>)
    requires Loaded(more, rest) == (CF_OK, groups)
    ensures var all := if rest == [] then more else more + [rest];
      |PrintLines(groups)| <= |all| && (|PrintLines(groups)| == |all| ==> ParseLines(EMPTY, all) == (CF_OK, groups))
  {
    EmptyFacts();
    hide PrintLines, Weight, LinesWeight, ParseLine;
    ParseLinesWeight(EMPTY, more);
    ParseLinesGrow(EMPTY, more);
    if rest != [] {
      ParseLineWeight(ParseLines(EMPTY, more).1, rest);
      LastRead(EMPTY, more, rest);
    }
  }

  /** If the text of a configuration loads as the configuration, its lines were read one by
      one. */
  lemma Reread(groups: seq<Group>)
    requires Tidy(groups) && groups != EMPTY && RoundTrips(groups)
    ensures var lines := ChoppedAll(PrintLines(groups)); AllInside(lines) && ParseLines(EMPTY, lines) == (CF_OK, groups)
  {
    hide PrintLines, Inside, Tidy, Emitted, Cut, Loaded, ChoppedAll, ParseLines;
    PrintedCut(groups);
    PrintedNonempty(groups);
    var printed := PrintLines(groups);
    var (more, rest) := Emitted([], printed);
    AllParsed(more, rest, groups);
    EmittedFits(printed);
    EmittedAlone(printed);
  }

  lemma EmittedFits(lines: seq<string>)
    ensures |AllEmitted([], lines)| <= |lines|
  {
    if lines != [] { EmittedCount([], lines); }
  }

  lemma LastRead(groups: seq<Group>, lines: seq<string>, line: string)
    requires groups != [] && ParseLines(groups, lines).0 == CF_OK
    ensures var groups' := ParseLines(groups, lines).1;
      groups' != [] && (ParseLine(groups', line).0 == CF_OK ==>
        ParseLines(groups, lines + [line]) == ParseLine(groups', line))
  {
    hide ParseLine;
    ParseLinesConcat(groups, lines, [line]);
    assert [line][1..] == [];
    ParseLineGrows(ParseLines(groups, lines).1, line);
  }

  lemma LossySomewhere(groups: seq<Group>)
    requires Indented(groups) || TornConfig(groups)
    ensures exists i :: 0 <= i < |groups| && LossyGroup(groups[i])
  {
    hide IndentedItem, TornLine, ItemLine;
    if Indented(groups) {
      var i :| 0 <= i < |groups| && IndentedGroup(groups[i]);
      var j :| 0 <= j < |groups[i].items| && IndentedItem(groups[i].items[j]);
      assert Lossy(groups[i].items[j]);
    } else {
      var i :| 0 <= i < |groups| && TornGroup(groups[i]);
      var j :| 0 <= j < |groups[i].items| && TornLine(ItemLine(groups[i].items[j]));
      assert Lossy(groups[i].items[j]);
    }
  }

  lemma LossyFails(groups: seq<Group>)
    requires Tidy(groups) && (Indented(groups) || TornConfig(groups))
    ensures !RoundTrips(groups)
  {
    EmptyFacts();
    LossySomewhere(groups);
    hide RoundTrips, PrintLines, Weight, LinesWeight, ParseLines, TidyGroup, Inside, Fine, Indented, TornConfig,
      LossyGroup;
    if RoundTrips(groups) {
      Reread(groups);
      var lines := ChoppedAll(PrintLines(groups));
      forall i | 0 <= i < |lines| ensures Fine(lines[i]) { ParsedFine(EMPTY, lines, i); }
      PrintedLighter(groups);
      ParseLinesWeight(EMPTY, lines);
      assert false;
    }
  }

  /** Loading a text, printing and loading again gives the same groups, keys, values and
      remarks, if and only if no key that was loaded begins with a blank, no remark ends
      with a CR or a backslash, and no value with a backslash. */
  lemma ConfigRoundTrips(text: string)
    ensures var groups := LoadText(text).1; RoundTrips(groups) <==> !Indented(groups) && !TornConfig(groups)
  {
    LoadedTidy(text);
    var groups := LoadText(text).1;
    hide LoadText, Tidy, Clean, TornConfig, Indented;
    if Indented(groups) || TornConfig(groups) {
      LossyFails(groups);
    } else if groups == EMPTY {
      EmptyPrints();
    } else {
      TidyClean(groups);
      CleanRoundTrips(groups);
    }
  }

  lemma EmptyPrints()
    ensures RoundTrips(EMPTY)
  {
    assert PrintLines(EMPTY) == [] by { assert EMPTY[..0] == []; }
  }
}
