/** Absolute paths as components, and what path_simplify should make of one: a stack
    machine over the components. */
module PathComponents {

  /** A name between slashes that stands for itself. */
  predicate Proper(name: string) { name != "" && name != "." && name != ".." && '/' !in name }

  predicate AllProper(names: seq<string>) { forall i :: 0 <= i < |names| ==> Proper(names[i]) }

  /** Each name with a slash before it. */
  function Join(names: seq<string>): string {
    if names == [] then "" else Join(names[..|names| - 1]) + "/" + names[|names| - 1]
  }

  /** Where the name that begins at `i` ends. */
  function NameEnd(p: string, i: nat): (e: nat)
    requires i <= |p|
    ensures i <= e <= |p| && '/' !in p[i..e] && (e == |p| || p[e] == '/')
    decreases |p| - i
  {
    if i == |p| || p[i] == '/' then i
    else
      var e := NameEnd(p, i + 1);
      assert p[i..e] == [p[i]] + p[i + 1..e];
      e
  }

  predicate AtSlash(p: string, pos: nat) { pos == |p| || (pos < |p| && p[pos] == '/') }

  /** The names from `pos` on, where a slash or the end is. */
  function NamesFrom(p: string, pos: nat): seq<string>
    requires AtSlash(p, pos)
    decreases |p| - pos
  {
    if pos == |p| then []
    else
      var e := NameEnd(p, pos + 1);
      [p[pos + 1..e]] + NamesFrom(p, e)
  }

  /** Empty names and `.` are dropped; `..` drops the last name, stopping at the root. */
  function Push(stack: seq<string>, name: string): seq<string> {
    if name == "" || name == "." then stack
    else if name == ".." then (if stack == [] then [] else stack[..|stack| - 1])
    else stack + [name]
  }

  function Resolve(names: seq<string>, stack: seq<string>): seq<string>
    decreases |names|
  {
    if names == [] then stack else Resolve(names[1..], Push(stack, names[0]))
  }

  predicate Absolute(p: string) { p != [] && p[0] == '/' }

  /** The simplified path: the resolved names, a slash at the end if there was one, and
      at least a slash. */
  function Simplified(p: string): string
    requires Absolute(p)
  {
    var r := Join(Resolve(NamesFrom(p, 0), [])) + if p[|p| - 1] == '/' then "/" else "";
    if r == "" then "/" else r
  }

  // ----- Components of a result -----

  lemma {:induction false} ResolvedProper(names: seq<string>, stack: seq<string>)
    requires AllProper(stack) && forall i :: 0 <= i < |names| ==> '/' !in names[i]
    ensures AllProper(Resolve(names, stack))
    decreases |names|
  {
    if names != [] { ResolvedProper(names[1..], Push(stack, names[0])); }
  }

  lemma {:induction false} NamesHaveNoSlash(p: string, pos: nat)
    requires AtSlash(p, pos)
    ensures forall i :: 0 <= i < |NamesFrom(p, pos)| ==> '/' !in NamesFrom(p, pos)[i]
    decreases |p| - pos
  {
    if pos < |p| { NamesHaveNoSlash(p, NameEnd(p, pos + 1)); }
  }

  /** Names that all stand for themselves resolve to themselves. */
  lemma {:induction false} ResolveProper(names: seq<string>, stack: seq<string>)
    requires AllProper(names)
    ensures Resolve(names, stack) == stack + names
    decreases |names|
  {
    if names == [] {
      assert stack + names == stack;
    } else {
      ResolveProper(names[1..], stack + [names[0]]);
      assert stack + [names[0]] + names[1..] == stack + names;
    }
  }

  lemma {:induction false} NameEndIs(p: string, i: nat, e: nat)
    requires i <= e <= |p| && '/' !in p[i..e] && AtSlash(p, e)
    ensures NameEnd(p, i) == e
    decreases e - i
  {
    if i < e {
      assert p[i..e][0] == p[i];
      forall c | c in p[i + 1..e]
        ensures c in p[i..e]
      {
        var k :| 0 <= k < |p[i + 1..e]| && p[i + 1..e][k] == c;
        assert p[i..e][k + 1] == c;
      }
      NameEndIs(p, i + 1, e);
    }
  }

  lemma JoinLast(names: seq<string>, name: string)
    ensures Join(names + [name]) == Join(names) + "/" + name
  {
    assert (names + [name])[..|names|] == names;
  }

  lemma {:induction false} JoinFirst(name: string, names: seq<string>)
    ensures Join([name] + names) == "/" + name + Join(names)
    decreases |names|
  {
    if names == [] {
      assert [name] + names == [] + [name];
      JoinLast([], name);
    } else {
      var init, last := names[..|names| - 1], names[|names| - 1];
      assert [name] + names == ([name] + init) + [last];
      JoinLast([name] + init, last);
      JoinFirst(name, init);
    }
  }

  /** A path whose rest from `pos` on is `names` joined has these names. */
  lemma {:induction false} NamesOfJoin(p: string, pos: nat, names: seq<string>)
    requires pos <= |p| && p[pos..] == Join(names) && forall i :: 0 <= i < |names| ==> '/' !in names[i]
    ensures AtSlash(p, pos) && NamesFrom(p, pos) == names
    decreases |names|
  {
    if names != [] {
      var name, rest := names[0], names[1..];
      assert names == [name] + rest;
      JoinFirst(name, rest);
      var e := pos + 1 + |name|;
      assert p[pos..][0] == '/' && p[pos..][1..1 + |name|] == name && p[pos..][1 + |name|..] == Join(rest);
      assert p[pos + 1..e] == name && p[e..] == Join(rest);
      NamesOfJoin(p, e, rest);
      NameEndIs(p, pos + 1, e);
    }
  }

  function WithSlash(names: seq<string>, slash: bool): seq<string> { if slash then names + [""] else names }

  lemma JoinAbsolute(names: seq<string>)
    requires names != []
    ensures Absolute(Join(names))
  {
    assert names == [names[0]] + names[1..];
    JoinFirst(names[0], names[1..]);
  }

  /** Simplification removes every empty, `.` and `..` component: what is left are
      proper names, and perhaps an empty one for a slash at the end. */
  lemma SimplifiedNames(p: string) returns (names: seq<string>, slash: bool)
    requires Absolute(p)
    ensures AllProper(names) && names == Resolve(NamesFrom(p, 0), [])
    ensures slash <==> names == [] || p[|p| - 1] == '/'
    ensures Absolute(Simplified(p)) && Simplified(p) == Join(WithSlash(names, slash))
    ensures NamesFrom(Simplified(p), 0) == WithSlash(names, slash)
  {
    NamesHaveNoSlash(p, 0);
    ResolvedProper(NamesFrom(p, 0), []);
    names := Resolve(NamesFrom(p, 0), []);
    slash := names == [] || p[|p| - 1] == '/';
    if slash { JoinLast(names, ""); }
    if names != [] { JoinAbsolute(names); }
    var all, r := WithSlash(names, slash), Simplified(p);
    JoinAbsolute(all);
    assert r == Join(all) && r[0..] == r;
    NamesOfJoin(r, 0, all);
  }

  lemma AlreadySimple(names: seq<string>, slash: bool, r: string)
    requires AllProper(names) && (names == [] ==> slash) && r == Join(WithSlash(names, slash))
    requires Absolute(r) && NamesFrom(r, 0) == WithSlash(names, slash)
    ensures Simplified(r) == r
  {
    if slash {
      JoinLast(names, "");
      ResolveSlash(names);
    } else {
      ResolveProper(names, []);
      assert [] + names == names;
      var init, last := names[..|names| - 1], names[|names| - 1];
      LastCharOf(Join(init) + "/", last);
    }
  }

  /** Simplifying twice is simplifying once. */
  lemma SimplifiedTwice(p: string)
    requires Absolute(p)
    ensures Absolute(Simplified(p)) && Simplified(Simplified(p)) == Simplified(p)
  {
    var names, slash := SimplifiedNames(p);
    AlreadySimple(names, slash, Simplified(p));
  }

  lemma LastCharOf(a: string, name: string)
    requires Proper(name)
    ensures (a + name)[|a + name| - 1] != '/'
  {
    assert (a + name)[|a + name| - 1] == name[|name| - 1];
  }

  lemma ResolveSlash(names: seq<string>)
    requires AllProper(names)
    ensures Resolve(names + [""], []) == names
  {
    ResolveConcat(names, [""], []);
    ResolveProper(names, []);
    assert [] + names == names && [""][1..] == [];
    assert Resolve([""], names) == Resolve([], Push(names, ""));
  }

  lemma {:induction false} ResolveConcat(a: seq<string>, b: seq<string>, stack: seq<string>)
    ensures Resolve(a + b, stack) == Resolve(b, Resolve(a, stack))
    decreases |a|
  {
    if a == [] {
      assert a + b == b;
    } else {
      assert (a + b)[1..] == a[1..] + b;
      ResolveConcat(a[1..], b, Push(stack, a[0]));
    }
  }

  // ----- What each kind of component does -----

  /** A name and the `..` after it cancel, wherever they are. */
  lemma ResolveCancels(a: seq<string>, name: string, b: seq<string>, stack: seq<string>)
    requires Proper(name)
    ensures Resolve(a + [name, ".."] + b, stack) == Resolve(a + b, stack)
  {
    ResolveConcat(a + [name, ".."], b, stack);
    ResolveConcat(a, [name, ".."], stack);
    ResolveConcat(a, b, stack);
    var mid := Resolve(a, stack);
    assert [name, ".."][1..] == [".."] && [".."][1..] == [];
    assert Resolve([name, ".."], mid) == Resolve([".."], mid + [name]);
    assert Resolve([".."], mid + [name]) == (mid + [name])[..|mid|] == mid;
  }

  lemma ResolveDrops(a: seq<string>, name: string, b: seq<string>, stack: seq<string>)
    requires name == "" || name == "." || (name == ".." && Resolve(a, stack) == [])
    ensures Resolve(a + [name] + b, stack) == Resolve(a + b, stack)
  {
    ResolveConcat(a + [name], b, stack);
    ResolveConcat(a, [name], stack);
    ResolveConcat(a, b, stack);
    assert [name][1..] == [];
  }

  predicate FromRoot(p: string) { p == "" || p[0] == '/' }

  lemma {:induction false} NameEndLocal(x: string, y: string, i: nat)
    requires i <= |x| && Absolute(y)
    ensures NameEnd(x + y, i) == NameEnd(x, i)
    decreases |x| - i
  {
    if i < |x| && x[i] != '/' { NameEndLocal(x, y, i + 1); }
  }

  /** The names of two rooted paths one after the other are theirs one after the other. */
  lemma {:induction false} NamesConcat(x: string, y: string, pos: nat)
    requires AtSlash(x, pos) && Absolute(y)
    ensures AtSlash(x + y, pos) && NamesFrom(x + y, pos) == NamesFrom(x, pos) + NamesFrom(y, 0)
    decreases |x| - pos
  {
    if pos == |x| {
      NamesMoved(x, y, 0);
    } else {
      var e := NameEnd(x, pos + 1);
      NameEndLocal(x, y, pos + 1);
      assert (x + y)[pos + 1..e] == x[pos + 1..e];
      NamesConcat(x, y, e);
    }
  }

  lemma {:induction false} NameEndMoved(x: string, y: string, i: nat)
    requires i <= |y|
    ensures NameEnd(x + y, |x| + i) == |x| + NameEnd(y, i)
    decreases |y| - i
  {
    if i < |y| && y[i] != '/' { NameEndMoved(x, y, i + 1); }
  }

  lemma SliceMoved(x: string, y: string, i: nat, j: nat)
    requires i <= j <= |y|
    ensures (x + y)[|x| + i..|x| + j] == y[i..j]
  {
  }

  lemma NextName(p: string, pos: nat, e: nat)
    requires pos < |p| && p[pos] == '/' && e == NameEnd(p, pos + 1)
    ensures AtSlash(p, e) && NamesFrom(p, pos) == [p[pos + 1..e]] + NamesFrom(p, e)
  {
  }

  lemma {:induction false} NamesMoved(x: string, y: string, pos: nat)
    requires AtSlash(y, pos)
    ensures AtSlash(x + y, |x| + pos) && NamesFrom(x + y, |x| + pos) == NamesFrom(y, pos)
    decreases |y| - pos
  {
    hide NameEnd, NamesFrom;
    var p := x + y;
    if pos < |y| {
      var e := NameEnd(y, pos + 1);
      NameEndMoved(x, y, pos + 1);
      SliceMoved(x, y, pos + 1, e);
      NextName(y, pos, e);
      NamesMoved(x, y, e);
      assert p[|x| + pos] == '/';
      NextName(p, |x| + pos, |x| + e);
    } else {
      NoNamesLeft(y);
      NoNamesLeft(p);
    }
  }

  lemma NoNamesLeft(p: string)
    ensures NamesFrom(p, |p|) == []
  {
  }

  lemma OneName(name: string)
    requires '/' !in name
    ensures NamesFrom("/" + name, 0) == [name]
  {
    var p := "/" + name;
    assert p[1..|p|] == name;
    NameEndIs(p, 1, |p|);
  }

  /** One name more between two rooted paths. */
  lemma NamesAround(x: string, name: string, y: string)
    requires FromRoot(x) && '/' !in name && Absolute(y)
    ensures NamesFrom(x + ("/" + name + y), 0) == NamesFrom(x, 0) + ([name] + NamesFrom(y, 0))
  {
    hide NamesFrom;
    OneName(name);
    NamesConcat("/" + name, y, 0);
    NamesConcat(x, "/" + name + y, 0);
  }

  lemma SameLast(a: string, b: string, y: string)
    requires y != ""
    ensures (a + y)[|a + y| - 1] == (b + y)[|b + y| - 1] == y[|y| - 1]
  {
  }

  lemma SameEnd(a: string, b: string, y: string)
    requires Absolute(y) && FromRoot(a) && FromRoot(b)
    requires Resolve(NamesFrom(a + y, 0), []) == Resolve(NamesFrom(b + y, 0), [])
    ensures Simplified(a + y) == Simplified(b + y)
  {
    hide Resolve, NamesFrom, Join;
    SameLast(a, b, y);
  }

  /** `/name/..` may be left out before a slash. */
  lemma NameAndBackCancel(x: string, name: string, y: string)
    requires FromRoot(x) && Proper(name) && Absolute(y)
    ensures Simplified(x + ("/" + name + "/..") + y) == Simplified(x + y)
  {
    hide Resolve, NamesFrom, Simplified;
    var back := "/" + ".." + y;
    var xs, ys := NamesFrom(x, 0), NamesFrom(y, 0);
    assert x + ("/" + name + "/..") + y == x + ("/" + name + back);
    NamesAround("", "..", y);
    assert "" + back == back;
    NoNamesLeft("");
    assert [] + ([".."] + ys) == [".."] + ys;
    NamesAround(x, name, back);
    NamesConcat(x, y, 0);
    assert xs + ([name] + ([".."] + ys)) == xs + [name, ".."] + ys;
    ResolveCancels(xs, name, ys, []);
    SameEnd(x + ("/" + name + "/.."), x, y);
  }

  /** An empty component and `.` may be left out before a slash, and `..` at the root. */
  lemma NothingDropped(x: string, name: string, y: string)
    requires FromRoot(x) && Absolute(y) && (name == "" || name == "." || (name == ".." && x == ""))
    ensures Simplified(x + ("/" + name) + y) == Simplified(x + y)
  {
    hide NamesFrom, Simplified;
    var xs, ys := NamesFrom(x, 0), NamesFrom(y, 0);
    assert x + ("/" + name) + y == x + ("/" + name + y);
    NamesAround(x, name, y);
    NamesConcat(x, y, 0);
    assert xs + ([name] + ys) == xs + [name] + ys;
    NoNamesLeft("");
    ResolveDrops(xs, name, ys, []);
    SameEnd(x + ("/" + name), x, y);
  }
}
