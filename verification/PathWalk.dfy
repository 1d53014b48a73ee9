/** What path_simplify makes of any path, absolute or relative, component by component
    (libwzd-core/wzd_dir.c). A relative path has a first name, which is not treated like the
    others. */
module PathWalk {
  import opened PathComponents

  /** What has been written so far.
      Bare: nothing, and a name may begin here; `first` at the start of the path.
      Slash: nothing, and the path is at a slash.
      Named: a first name and others after it; `kept` if the buffer has a slash behind a
      first name of one character, which is then not dropped.
      Rooted: names from the root. */
  datatype State =
    | Bare(first: bool)
    | Slash
    | Named(name: string, kept: bool, rest: seq<string>)
    | Rooted(stack: seq<string>)

  predicate IsName(name: string) { name != "" && name != "." && name != ".." }

  function Step(st: State, name: string): State {
    match st
    case Bare(first) => if name == "" then Slash else Named(name, first, [])
    case Slash => if IsName(name) then Rooted([name]) else if name == ".." then Bare(false) else Slash
    case Named(first, kept, rest) =>
      if name == ".." && rest == [] then (if |first| == 1 && kept then st else Bare(false))
      else Named(first, kept || IsName(name), Push(rest, name))
    case Rooted(stack) => Rooted(Push(stack, name))
  }

  function Walk(names: seq<string>, st: State): State
    decreases |names|
  {
    if names == [] then st else Walk(names[1..], Step(st, names[0]))
  }

  /** The components from `pos` on, the first of which begins there. */
  function Components(p: string, pos: nat): seq<string>
    requires pos <= |p|
  {
    var e := NameEnd(p, pos);
    [p[pos..e]] + NamesFrom(p, e)
  }

  function Final(p: string): State {
    if Absolute(p) then Walk(NamesFrom(p, 0), Rooted([])) else Walk(Components(p, 0), Bare(true))
  }

  function Out(st: State): string {
    match st
    case Bare(_) => ""
    case Slash => ""
    case Named(name, _, rest) => name + Join(rest)
    case Rooted(stack) => Join(stack)
  }

  predicate EndsWithSlash(p: string) { p != "" && p[|p| - 1] == '/' }

  function Text(st: State, slash: bool): string {
    var r := if st.Bare? || st.Slash? then "" else Out(st) + if slash then "/" else "";
    if r == "" then "/" else r
  }

  /** What path_simplify leaves in the buffer. */
  function Result(p: string): string { Text(Final(p), EndsWithSlash(p)) }

  /** The last component drops the first name: the read index then passes the NUL. */
  predicate Overruns(p: string) { Final(p).Bare? }

  // ----- Absolute paths -----

  lemma {:induction false} WalkRooted(names: seq<string>, stack: seq<string>)
    ensures Walk(names, Rooted(stack)) == Rooted(Resolve(names, stack))
    decreases |names|
  {
    if names != [] { WalkRooted(names[1..], Push(stack, names[0])); }
  }

  /** An absolute path never overruns and becomes the simplified path. */
  lemma AbsoluteResult(p: string)
    requires Absolute(p)
    ensures !Overruns(p) && Result(p) == Simplified(p)
  {
    WalkRooted(NamesFrom(p, 0), []);
    assert Join(Resolve(NamesFrom(p, 0), [])) + "" == Join(Resolve(NamesFrom(p, 0), []));
  }

  // ----- Relative paths -----

  lemma {:induction false} WalkConcat(a: seq<string>, b: seq<string>, st: State)
    ensures Walk(a + b, st) == Walk(b, Walk(a, st))
    decreases |a|
  {
    hide Step;
    if a == [] {
      assert a + b == b;
    } else {
      assert (a + b)[1..] == a[1..] + b;
      WalkConcat(a[1..], b, Step(st, a[0]));
    }
  }

  /** Only `..` leaves nothing where a name may begin, and only if nothing but a first name
      was written. */
  lemma DropsFirst(names: seq<string>, st: State)
    requires names != []
    ensures var init, last := names[..|names| - 1], names[|names| - 1];
      Walk(names, st).Bare? <==>
        last == ".." &&
        match Walk(init, st)
        case Bare(_) => false
        case Slash => true
        case Named(name, kept, rest) => rest == [] && !(|name| == 1 && kept)
        case Rooted(_) => false
  {
    var init, last := names[..|names| - 1], names[|names| - 1];
    assert names == init + [last];
    WalkConcat(init, [last], st);
    assert [last][1..] == [];
    assert Walk([last], Walk(init, st)) == Step(Walk(init, st), last);
  }

  lemma {:induction false} LastComponent(p: string, pos: nat)
    requires AtSlash(p, pos) && pos < |p|
    ensures var names := NamesFrom(p, pos);
      names != [] && |names[|names| - 1]| < |p| - pos && Suffix("/" + names[|names| - 1], p)
    decreases |p| - pos
  {
    var e := NameEnd(p, pos + 1);
    if e == |p| {
      assert p[pos..] == "/" + p[pos + 1..e];
    } else {
      LastComponent(p, e);
    }
  }

  predicate Suffix(s: string, p: string) { |s| <= |p| && p[|p| - |s|..] == s }

  /** Only a relative path that ends with `/..` can overrun. */
  lemma OverrunEnds(p: string)
    requires Overruns(p)
    ensures !Absolute(p) && Suffix("/..", p)
  {
    if Absolute(p) {
      AbsoluteResult(p);
    } else {
      var names, e := Components(p, 0), NameEnd(p, 0);
      DropsFirst(names, Bare(true));
      if e < |p| {
        LastComponent(p, e);
        assert names[|names| - 1] == NamesFrom(p, e)[|names| - 2];
      }
    }
  }

  lemma ComponentsAre(name: string, tail: string)
    requires '/' !in name && Absolute(tail)
    ensures !Absolute(name + tail) || name == ""
    ensures AtSlash(name + tail, |name|) && Components(name + tail, 0) == [name] + NamesFrom(name + tail, |name|)
  {
    var p := name + tail;
    assert p[0..|name|] == name;
    NameEndIs(p, 0, |name|);
  }

  lemma TwoNames(name: string)
    requires '/' !in name
    ensures Components(name + "/..", 0) == [name, ".."]
  {
    var p := name + "/..";
    ComponentsAre(name, "/..");
    assert p[|name| + 1..|p|] == ".." && '/' !in "..";
    NameEndIs(p, |name| + 1, |p|);
  }

  /** A name and `/..`: the index passes the NUL unless the name has one character, and then
      the name stays. */
  lemma NameAndBack(name: string)
    requires name != "" && '/' !in name
    ensures Overruns(name + "/..") <==> |name| > 1
    ensures |name| == 1 ==> Result(name + "/..") == name
  {
    TwoNames(name);
    assert [name, ".."][1..] == [".."] && [".."][1..] == [];
    assert (name + "/..")[0] == name[0];
    assert Walk([".."], Named(name, true, [])) == Step(Named(name, true, []), "..");
    assert name + "" == name;
  }

  /** The paths toto/.. and a/.. */
  lemma TotoOverruns()
    ensures Overruns("toto/..") && Result("a/..") == "a"
  {
    hide Result, Overruns;
    assert "toto" + "/.." == "toto/.." && "a" + "/.." == "a/..";
    NameAndBack("toto");
    NameAndBack("a");
  }
}
