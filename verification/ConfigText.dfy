/** Configuration files: their lines, what each line says, and how a loaded
    configuration is printed (libwzd-core/wzd_configfile.c).

    A text is the contents of C strings, so it holds no NUL. */
module ConfigText {
  import opened Common

  // ----- Characters -----

  predicate IsSpace(c: char) { c == ' ' || '\t' <= c <= '\r' }

  /** Past the blanks from `i` on. */
  function BlanksEnd(s: string, i: nat): (k: nat)
    requires i <= |s|
    ensures i <= k <= |s| && (k < |s| ==> !IsSpace(s[k])) && forall j :: i <= j < k ==> IsSpace(s[j])
    decreases |s| - i
  {
    if i == |s| || !IsSpace(s[i]) then i else BlanksEnd(s, i + 1)
  }

  function TrimLeft(s: string): string { s[BlanksEnd(s, 0)..] }

  /** Back over the blanks before `n`. */
  function BlanksStart(s: string, n: nat): (k: nat)
    requires n <= |s|
    ensures k <= n && (k > 0 ==> !IsSpace(s[k - 1])) && forall j :: k <= j < n ==> IsSpace(s[j])
  {
    if n == 0 || !IsSpace(s[n - 1]) then n else BlanksStart(s, n - 1)
  }

  function TrimRight(s: string): string { s[..BlanksStart(s, |s|)] }

  /** Where `c` occurs first in `s` from `i` on, or the length of `s`. */
  function FindFrom(s: string, c: char, i: nat): (k: nat)
    requires i <= |s|
    ensures i <= k <= |s| && (k < |s| ==> s[k] == c) && forall j :: i <= j < k ==> s[j] != c
    decreases |s| - i
  {
    if i == |s| || s[i] == c then i else FindFrom(s, c, i + 1)
  }

  function Find(s: string, c: char): nat { FindFrom(s, c, 0) }

  /** Where `c` occurs last in the first `n` characters of `s`, or -1. */
  function FindBack(s: string, c: char, n: nat): (k: int)
    requires n <= |s|
    ensures -1 <= k < n && (k >= 0 ==> s[k] == c) && forall j :: k < j < n ==> s[j] != c
  {
    if n == 0 then -1 else if s[n - 1] == c then n - 1 else FindBack(s, c, n - 1)
  }

  function FindLast(s: string, c: char): int { FindBack(s, c, |s|) }

  // ----- Lines -----

  datatype Item = Remark(text: string) | Setting(key: string, value: string)

  datatype Group = Group(name: Option<string>, items: seq<Item>)

  predicate IsRemark(line: string) { var s := TrimLeft(line); s == [] || s[0] == '#' }

  predicate IsGroup(line: string) { var s := TrimLeft(line); s != [] && s[0] == '[' && ']' in s }

  predicate IsSetting(line: string) { var s := TrimLeft(line); s != [] && s[0] != '=' && '=' in s }

  /** The blanks before a line. The code drops them from the length of a key or group
      line, but not from the line. */
  function Indent(line: string): (n: nat)
    ensures n <= |line|
  {
    BlanksEnd(line, 0)
  }

  function GroupEnd(line: string): int { FindBack(line, ']', |line| - Indent(line)) }

  function GroupName(line: string): string
    requires GroupEnd(line) > 0
  {
    line[1..GroupEnd(line)]
  }

  function KeyOf(line: string): string { TrimRight(line[..Find(line, '=')]) }

  predicate KeyFits(line: string) { |KeyOf(line)| + 1 <= |line| - Indent(line) }

  /** From the first character of the value to the end of the line. */
  function AfterKey(line: string): string {
    var p := Find(line, '=');
    if p < |line| then TrimLeft(line[p + 1..]) else []
  }

  function ValueOf(line: string): string {
    var s := AfterKey(line);
    if Indent(line) <= |s| then TrimRight(s[..|s| - Indent(line)]) else []
  }

  /** What the code reads of a line is inside the line. */
  predicate Inside(line: string) {
    IsRemark(line) ||
    (if IsGroup(line) then GroupEnd(line) > 0
     else IsSetting(line) && KeyFits(line) ==> Indent(line) <= |AfterKey(line)|)
  }

  predicate AllInside(lines: seq<string>) { forall i :: 0 <= i < |lines| ==> Inside(lines[i]) }

  const CF_OK := 0
  const CF_ERROR_INVALID_ARGS := -1
  const CF_ERROR_NO_CURRENT_GROUP := -3
  const CF_ERROR_PARSE := -4
  const CF_ERROR_KEY_ALREADY_EXISTS := -8

  predicate HasSetting(items: seq<Item>, key: string) {
    exists i :: 0 <= i < |items| && items[i].Setting? && items[i].key == key
  }

  /** `item` added to the last group. */
  function AddItem(groups: seq<Group>, item: Item): (r: seq<Group>)
    requires groups != []
    ensures |r| == |groups|
  {
    var n := |groups| - 1;
    groups[n := Group(groups[n].name, groups[n].items + [item])]
  }

  /** What one line does to a configuration, and the code it returns. */
  function ParseLine(groups: seq<Group>, line: string): (int, seq<Group>)
    requires groups != []
  {
    var last := groups[|groups| - 1];
    if IsRemark(line) then (CF_OK, AddItem(groups, Remark(line)))
    else if IsGroup(line) then
      (CF_OK, groups + [Group(Some(if GroupEnd(line) > 0 then GroupName(line) else []), [])])
    else if !IsSetting(line) then (CF_ERROR_PARSE, groups)
    else if last.name.None? then (CF_ERROR_NO_CURRENT_GROUP, groups)
    else if !KeyFits(line) then (CF_ERROR_PARSE, groups)
    else if HasSetting(last.items, KeyOf(line)) then (CF_ERROR_KEY_ALREADY_EXISTS, groups)
    else (CF_OK, AddItem(groups, Setting(KeyOf(line), ValueOf(line))))
  }

  lemma ParseLineGrows(groups: seq<Group>, line: string)
    requires groups != []
    ensures ParseLine(groups, line).1 != []
  {
  }

  function ParseLines(groups: seq<Group>, lines: seq<string>): (int, seq<Group>)
    requires groups != []
    decreases |lines|
  {
    if lines == [] then (CF_OK, groups)
    else
      var (ret, groups') := ParseLine(groups, lines[0]);
      ParseLineGrows(groups, lines[0]);
      if ret != CF_OK then (ret, groups') else ParseLines(groups', lines[1..])
  }

  const EMPTY: seq<Group> := [Group(None, [])]

  // ----- Cutting a text into lines -----

  function Chop(s: string, c: char): string { if s != [] && s[|s| - 1] == c then s[..|s| - 1] else s }

  /** The lines that a block of text completes, given what was read of the current
      line, and what is left of an incomplete line. `first` if no character of the
      block was read yet: then a CR or backslash before a newline goes unnoticed. */
  function Cut(buffer: string, data: string, first: bool): (seq<string>, string)
    decreases |data|
  {
    if data == [] then ([], buffer)
    else if data[0] != '\n' then Cut(buffer + [data[0]], data[1..], false)
    else
      var line := if first then buffer else Chop(buffer, '\r');
      if !first && line != [] && line[|line| - 1] == '\\' then Cut(Chop(line, '\\'), data[1..], false)
      else
        var (lines, rest) := Cut([], data[1..], false);
        ([line] + lines, rest)
  }

  /** The lines of a text in blocks, as they are read one after the other. */
  function CutBlocks(buffer: string, blocks: seq<string>): (seq<string>, string)
    decreases |blocks|
  {
    if blocks == [] then ([], buffer)
    else
      var (lines, rest) := Cut(buffer, blocks[0], true);
      var (lines', rest') := CutBlocks(rest, blocks[1..]);
      (lines + lines', rest')
  }

  // ----- Loading and printing -----

  /** Loading: what is left at the end is a last line, whose errors are ignored. */
  function Loaded(lines: seq<string>, rest: string): (int, seq<Group>) {
    var (ret, groups) := ParseLines(EMPTY, lines);
    ParseLinesGrow(EMPTY, lines);
    if ret != CF_OK || rest == [] then (ret, groups) else (CF_OK, ParseLine(groups, rest).1)
  }

  lemma {:induction false} ParseLinesGrow(groups: seq<Group>, lines: seq<string>)
    requires groups != []
    ensures ParseLines(groups, lines).1 != []
    decreases |lines|
  {
    if lines != [] {
      ParseLineGrows(groups, lines[0]);
      ParseLinesGrow(ParseLine(groups, lines[0]).1, lines[1..]);
    }
  }

  function ItemLine(item: Item): string {
    match item
    case Remark(text) => text
    case Setting(key, value) => key + " = " + value
  }

  function ItemLines(items: seq<Item>): (r: seq<string>)
    ensures |r| == |items|
  {
    seq(|items|, i requires 0 <= i < |items| => ItemLine(items[i]))
  }

  function GroupLines(g: Group): seq<string> {
    (match g.name case None => [] case Some(name) => ["[" + name + "]"]) + ItemLines(g.items)
  }

  function PrintLines(groups: seq<Group>): seq<string> {
    if groups == [] then [] else PrintLines(groups[..|groups| - 1]) + GroupLines(groups[|groups| - 1])
  }

  function Unlines(lines: seq<string>): string {
    if lines == [] then [] else lines[0] + "\n" + Unlines(lines[1..])
  }

  /** config_to_data. */
  function Printed(groups: seq<Group>): string { Unlines(PrintLines(groups)) }
}
