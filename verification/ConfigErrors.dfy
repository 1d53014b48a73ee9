/** Which line of a text fails to load, and why, read off the lines before it
    (libwzd-core/wzd_configfile.c:902-1073). */
module ConfigErrors {
  import opened Common
  import opened ConfigText

  // ----- What the lines before line `k` say -----

  predicate IsHead(line: string) { !IsRemark(line) && IsGroup(line) }

  predicate IsKeyLine(line: string) { !IsRemark(line) && !IsGroup(line) && IsSetting(line) }

  /** A group line comes before line `k`. */
  predicate InGroup(lines: seq<string>, k: nat)
    requires k <= |lines|
  {
    exists j :: 0 <= j < k && IsHead(lines[j])
  }

  /** Line `j` sets `key` in the group that line `k` is in. */
  predicate SetsIn(lines: seq<string>, k: nat, key: string, j: nat)
    requires k <= |lines|
  {
    j < k && IsKeyLine(lines[j]) && KeyOf(lines[j]) == key && forall i :: j < i < k ==> !IsHead(lines[i])
  }

  predicate AlreadySet(lines: seq<string>, k: nat, key: string)
    requires k <= |lines|
  {
    exists j: nat :: j < k && SetsIn(lines, k, key, j)
  }

  /** The error that line `k` causes when all lines before it were read. */
  function ErrorAt(lines: seq<string>, k: nat): int
    requires k < |lines|
  {
    var line := lines[k];
    if IsRemark(line) || IsGroup(line) then CF_OK
    else if !IsSetting(line) then CF_ERROR_PARSE
    else if !InGroup(lines, k) then CF_ERROR_NO_CURRENT_GROUP
    else if !KeyFits(line) then CF_ERROR_PARSE
    else if AlreadySet(lines, k, KeyOf(line)) then CF_ERROR_KEY_ALREADY_EXISTS
    else CF_OK
  }

  predicate NoError(lines: seq<string>, from: nat, k: nat)
    requires k <= |lines|
  {
    forall i :: from <= i < k ==> ErrorAt(lines, i) == CF_OK
  }

  /** Line `k` is the first one from `from` on that is in error. */
  predicate FirstError(lines: seq<string>, from: nat, k: nat) {
    from <= k < |lines| && NoError(lines, from, k) && ErrorAt(lines, k) != CF_OK
  }

  // ----- The groups agree with the lines -----

  /** The last group is the one that the next line is in, with the keys set there. */
  ghost predicate Agrees(groups: seq<Group>, lines: seq<string>, k: nat)
    requires k <= |lines|
  {
    groups != [] &&
    var last := groups[|groups| - 1];
    (last.name.Some? <==> InGroup(lines, k)) &&
    forall key :: HasSetting(last.items, key) <==> AlreadySet(lines, k, key)
  }

  lemma LineCode(groups: seq<Group>, lines: seq<string>, k: nat)
    requires k < |lines| && Agrees(groups, lines, k)
    ensures ParseLine(groups, lines[k]).0 == ErrorAt(lines, k)
  {
    hide IsRemark, IsGroup, IsSetting, KeyFits, KeyOf, HasSetting, AlreadySet, InGroup, GroupEnd;
  }

  lemma HeadNext(lines: seq<string>, k: nat)
    requires k < |lines|
    ensures InGroup(lines, k + 1) <==> InGroup(lines, k) || IsHead(lines[k])
  {
    hide IsHead;
  }

  lemma SetNext(lines: seq<string>, k: nat, key: string)
    requires k < |lines|
    ensures AlreadySet(lines, k + 1, key) <==>
      !IsHead(lines[k]) && (AlreadySet(lines, k, key) || (IsKeyLine(lines[k]) && KeyOf(lines[k]) == key))
    ensures IsHead(lines[k]) ==> !AlreadySet(lines, k + 1, key)
  {
    KeyIsNoHead(lines[k]);
    hide IsHead, IsKeyLine, KeyOf;
    if AlreadySet(lines, k + 1, key) {
      var j: nat :| j < k + 1 && SetsIn(lines, k + 1, key, j);
      if j < k { assert SetsIn(lines, k, key, j); }
    }
    if !IsHead(lines[k]) && AlreadySet(lines, k, key) {
      var j: nat :| j < k && SetsIn(lines, k, key, j);
      assert SetsIn(lines, k + 1, key, j);
    }
    if IsKeyLine(lines[k]) && KeyOf(lines[k]) == key { assert SetsIn(lines, k + 1, key, k); }
  }

  lemma KeyIsNoHead(line: string)
    ensures !(IsKeyLine(line) && IsHead(line))
  {
  }

  lemma AddedSetting(items: seq<Item>, item: Item, key: string)
    ensures HasSetting(items + [item], key) <==> HasSetting(items, key) || (item.Setting? && item.key == key)
  {
    var all := items + [item];
    if HasSetting(items, key) {
      var i :| 0 <= i < |items| && items[i].Setting? && items[i].key == key;
      assert all[i] == items[i];
    }
    if item.Setting? && item.key == key { assert all[|items|] == item; }
  }

  /** A line that is read keeps the agreement. */
  lemma LineAgrees(groups: seq<Group>, lines: seq<string>, k: nat)
    requires k < |lines| && Agrees(groups, lines, k) && ErrorAt(lines, k) == CF_OK
    ensures Agrees(ParseLine(groups, lines[k]).1, lines, k + 1)
  {
    var line, last := lines[k], groups[|groups| - 1];
    HeadNext(lines, k);
    hide IsRemark, IsGroup, IsSetting, KeyFits, KeyOf, AlreadySet, InGroup, GroupEnd, ValueOf;
    var groups' := ParseLine(groups, line).1;
    var last' := groups'[|groups'| - 1];
    LineCode(groups, lines, k);
    forall key ensures HasSetting(last'.items, key) <==> AlreadySet(lines, k + 1, key) {
      SetNext(lines, k, key);
      if IsRemark(line) {
        AddedSetting(last.items, Remark(line), key);
      } else if !IsGroup(line) {
        AddedSetting(last.items, Setting(KeyOf(line), ValueOf(line)), key);
      }
    }
  }

  lemma NothingYet(lines: seq<string>)
    ensures Agrees(EMPTY, lines, 0)
  {
  }

  // ----- The whole text -----

  lemma {:induction false} LoadedFrom(groups: seq<Group>, lines: seq<string>, k: nat)
    requires k <= |lines| && Agrees(groups, lines, k)
    ensures var ret := ParseLines(groups, lines[k..]).0;
      (ret == CF_OK <==> NoError(lines, k, |lines|)) &&
      forall i: nat :: FirstError(lines, k, i) ==> ret == ErrorAt(lines, i)
    decreases |lines| - k
  {
    hide ErrorAt, ParseLine, Agrees;
    if k < |lines| {
      assert lines[k..][0] == lines[k] && lines[k..][1..] == lines[k + 1..];
      Nonempty(groups, lines, k);
      LineCode(groups, lines, k);
      if ErrorAt(lines, k) == CF_OK {
        LineAgrees(groups, lines, k);
        LoadedFrom(ParseLine(groups, lines[k]).1, lines, k + 1);
        forall i: nat | FirstError(lines, k, i) ensures FirstError(lines, k + 1, i) {}
      }
    }
  }

  lemma Nonempty(groups: seq<Group>, lines: seq<string>, k: nat)
    requires k <= |lines| && Agrees(groups, lines, k)
    ensures groups != []
  {
  }

  /** Loading succeeds exactly if no line is in error, and otherwise returns the error of the
      first one that is: no key line and no group line, a key before any group, a key too
      long for its line, or a key that its group has already. */
  lemma LoadExactly(lines: seq<string>)
    ensures ParseLines(EMPTY, lines).0 == CF_OK <==> NoError(lines, 0, |lines|)
    ensures forall k: nat :: FirstError(lines, 0, k) ==> ParseLines(EMPTY, lines).0 == ErrorAt(lines, k)
  {
    hide ErrorAt, ParseLines, Agrees;
    NothingYet(lines);
    assert lines[0..] == lines;
    LoadedFrom(EMPTY, lines, 0);
  }
}
