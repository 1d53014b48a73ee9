/** Texts that load as configurations which do not come back when they are printed and
    loaded again, and lines that the code reads outside of. */
module ConfigLost {
  import opened Common
  import opened ConfigText
  import opened ConfigCut
  import opened ConfigRoundTrip
  import opened ConfigReload

  // ----- Comments that end with a CR or a backslash -----

  lemma {:induction false} CutNoNewline(buffer: string, data: string, first: bool)
    requires OneLine(data)
    ensures Cut(buffer, data, first) == ([], buffer + data)
    decreases |data|
  {
    if data == [] {
      assert buffer + data == buffer;
    } else {
      assert data[0] in data && forall c :: c in data[1..] ==> c in data;
      CutNoNewline(buffer + [data[0]], data[1..], false);
      assert buffer + [data[0]] + data[1..] == buffer + data;
    }
  }

  /** A text of one comment without a newline is loaded as it is. If the comment ends with a
      CR or a backslash, it does not come back. */
  lemma TornRemarkLost(text: string)
    requires OneLine(text) && IsRemark(text) && TornLine(text)
    ensures InsideText(text) && LoadText(text) == (CF_OK, [Group(None, [Remark(text)])])
    ensures !RoundTrips(LoadText(text).1)
  {
    hide IsRemark, TornLine, OneLine, RoundTrips, Cut;
    CutNoNewline([], text, true);
    assert [] + text == text;
    RemarkLoads(text);
    var groups := [Group(None, [Remark(text)])];
    ConfigRoundTrips(text);
    RemarkTorn(text);
  }

  lemma RemarkLoads(text: string)
    requires IsRemark(text) && TornLine(text)
    ensures Loaded([], text) == (CF_OK, [Group(None, [Remark(text)])]) && text != []
  {
    hide IsRemark;
    assert [] + [Remark(text)] == [Remark(text)];
    assert AddItem(EMPTY, Remark(text)) == [Group(None, [Remark(text)])];
  }

  lemma RemarkTorn(text: string)
    requires TornLine(text)
    ensures TornConfig([Group(None, [Remark(text)])])
  {
    hide TornLine;
    var g := Group(None, [Remark(text)]);
    assert ItemLine(g.items[0]) == text;
    assert [g][0] == g;
  }

  /** The text of a hash and a backslash. */
  lemma BackslashLost()
    ensures InsideText("#\\") && !RoundTrips(LoadText("#\\").1)
  {
    var text := "#\\";
    BlanksAre(text, 0);
    hide LoadText, InsideText, RoundTrips;
    TornRemarkLost(text);
  }

  // ----- Keys that begin with blanks -----

  /** What the line of an indented key says: the key keeps its blanks, and the value loses as
      many characters at its end. */
  lemma IndentedSetting(k: string, v: string)
    requires TidySetting(k, v) && Indent(k) <= |v|
    ensures var line := k + " = " + v;
      !IsRemark(line) && !IsGroup(line) && IsSetting(line) && KeyFits(line) && Inside(line) &&
      KeyOf(line) == k && ValueOf(line) == TrimRight(v[..|v| - Indent(k)])
  {
    hide IsRemark, IsGroup, IsSetting, KeyOf, AfterKey, Indent, TrimRight, Find, TrimLeft;
    SettingLine(k, v);
    SettingIs(k, v);
    SettingAfter(k, v);
    IndentOf(k, v);
  }

  /** The code reads outside the line of a key exactly when there are more blanks before the
      key than characters in the value, though not more than two more: with three, the key is
      refused first. */
  lemma OutsideExactly(k: string, v: string)
    requires TidySetting(k, v)
    ensures !Inside(k + " = " + v) <==> |v| < Indent(k) <= |v| + 2
  {
    hide IsRemark, IsGroup, IsSetting, KeyOf, AfterKey, Indent, Find, TrimLeft;
    SettingLine(k, v);
    SettingIs(k, v);
    SettingAfter(k, v);
    IndentOf(k, v);
  }

  lemma ShortKey(k: string, n: nat)
    requires |k| == n + 1 && k[n] == 'k' && forall i :: 0 <= i < n ==> k[i] == ' '
    ensures TidySetting(k, "v") && Indent(k) == n
  {
    BlanksAre(k, n);
  }

  /** The line "  k = v", for whose value the code computes a negative length. */
  lemma ValueOutside()
    ensures !Inside("  k = v")
  {
    hide Inside, TidySetting, Indent;
    ShortKey("  k", 2);
    OutsideExactly("  k", "v");
    assert "  k" + " = " + "v" == "  k = v";
  }

  lemma CutTwo(a: string, b: string)
    requires OneLine(a) && OneLine(b) && !TornLine(a) && !TornLine(b)
    ensures Cut([], Unlines([a, b]), true) == ([a, b], [])
  {
    hide Cut, TornLine, OneLine;
    FirstMatters([], Unlines([a, b]));
    CutUnlines([], [a, b]);
    EmittedWhole([a, b]);
  }

  lemma NamedLoads(name: string, line: string, k: string, v: string)
    requires !IsRemark(line) && !IsGroup(line) && IsSetting(line) && KeyFits(line) && KeyOf(line) == k &&
      ValueOf(line) == v
    ensures ParseLines(EMPTY, ["[" + name + "]", line]) == (CF_OK, EMPTY + [Group(Some(name), [Setting(k, v)])])
  {
    hide IsRemark, IsGroup, IsSetting, KeyOf, ValueOf, KeyFits, GroupEnd, GroupName;
    var head, named := "[" + name + "]", EMPTY + [Group(Some(name), [])];
    GroupReadBack(name);
    assert ParseLine(EMPTY, head) == (CF_OK, named);
    AddLast(EMPTY, Group(Some(name), []), Setting(k, v));
    assert [] + [Setting(k, v)] == [Setting(k, v)];
    assert ParseLine(named, line) == (CF_OK, EMPTY + [Group(Some(name), [Setting(k, v)])]);
    TwoLines(EMPTY, head, line);
  }

  lemma TwoLines(groups: seq<Group>, a: string, b: string)
    requires groups != [] && ParseLine(groups, a).0 == CF_OK
    requires ParseLine(groups, a).1 != [] && ParseLine(ParseLine(groups, a).1, b).0 == CF_OK
    ensures ParseLines(groups, [a, b]) == ParseLine(ParseLine(groups, a).1, b)
  {
    hide ParseLine;
    var next := ParseLine(groups, a).1;
    assert [a, b][1..] == [b] && [b][1..] == [];
    ParseLineGrows(next, b);
    assert ParseLines(next, [b]) == ParseLine(next, b);
  }

  /** A group with one key that begins with blanks does not come back. */
  lemma IndentedLost(name: string, k: string, v: string)
    requires OneLine(name) && TidySetting(k, v) && 0 < Indent(k) <= |v| && !TornLine(k + " = " + v)
    ensures var text := Unlines(["[" + name + "]", k + " = " + v]);
      InsideText(text) && !RoundTrips(LoadText(text).1) &&
      LoadText(text) == (CF_OK, EMPTY + [Group(Some(name), [Setting(k, TrimRight(v[..|v| - Indent(k)]))])])
  {
    var head, line, v' := "[" + name + "]", k + " = " + v, TrimRight(v[..|v| - Indent(k)]);
    var text := Unlines([head, line]);
    IndentedSetting(k, v);
    Joined(k, v);
    HeadWhole(name);
    HeadInside(name);
    assert IsSpace(k[0]);
    assert text != [];
    hide TidySetting, TornLine, IsRemark, IsGroup, IsSetting, KeyOf, ValueOf, KeyFits, Unlines, Cut, Inside,
      ParseLines, RoundTrips, TrimRight, Indent;
    CutTwo(head, line);
    NamedLoads(name, line, k, v');
    EmptyInside();
    IndentedThere(name, k, v');
    ConfigRoundTrips(text);
  }

  lemma HeadWhole(name: string)
    requires OneLine(name)
    ensures OneLine("[" + name + "]") && !TornLine("[" + name + "]")
  {
  }

  lemma IndentedThere(name: string, k: string, v: string)
    requires k != [] && IsSpace(k[0])
    ensures Indented(EMPTY + [Group(Some(name), [Setting(k, v)])])
  {
    var g := Group(Some(name), [Setting(k, v)]);
    assert IndentedItem(g.items[0]);
    assert (EMPTY + [g])[1] == g;
  }

  /** The group "g" with the line " k = v". */
  lemma IndentLost()
    ensures var text := Unlines(["[" + "g" + "]", " k" + " = " + "v"]);
      InsideText(text) && LoadText(text).0 == CF_OK && !RoundTrips(LoadText(text).1)
  {
    ShortKey(" k", 1);
    var line := " k" + " = " + "v";
    assert line[|line| - 1] == 'v';
    hide LoadText, InsideText, RoundTrips, Unlines, TidySetting, Indent;
    IndentedLost("g", " k", "v");
  }
}
