/** path_simplify, which rewrites a path in place (libwzd-core/wzd_dir.c). */
module PathSimplify {
  import opened PathComponents
  import opened PathWalk

  // ----- What has been written so far -----

  /** Where the loop is: where a name may begin, within a first name that began at `q`, at a
      slash or the end, or within a name after the slash at `q`. */
  datatype Mode =
    | Fresh(first: bool)
    | Naming(first: bool, q: nat)
    | Between(st: State)
    | Within(st: State, q: nat)

  /** A state whose names are proper; a first name has only no slash. */
  predicate Written(st: State) {
    match st
    case Bare(_) => false
    case Slash => true
    case Named(name, _, rest) => name != "" && '/' !in name && AllProper(rest)
    case Rooted(stack) => AllProper(stack)
  }

  /** The name that begins after the slash at `q`. */
  function NameAt(p: string, q: nat): string
    requires q < |p|
  {
    p[q + 1..NameEnd(p, q + 1)]
  }

  /** `out` is what was written, and the rest of the path leads from there to where the whole
      path leads. */
  ghost predicate OnTheWay(p: string, pos: nat, out: string, mode: Mode) {
    pos <= |p| &&
    match mode
    case Fresh(first) => out == "" && Walk(Components(p, pos), Bare(first)) == Final(p)
    case Naming(first, q) =>
      q < pos && '/' !in p[q..pos] && out == p[q..pos] && Walk(Components(p, q), Bare(first)) == Final(p)
    case Between(st) =>
      AtSlash(p, pos) && Written(st) && out == Out(st) && (pos == |p| ==> !EndsWithSlash(p) && p != "") &&
      Walk(NamesFrom(p, pos), st) == Final(p)
    case Within(st, q) =>
      q < pos && p[q] == '/' && '/' !in p[q + 1..pos] && Written(st) && out == Out(st) + p[q..pos] &&
      (Proper(NameAt(p, q)) || q == |p| - 1) && Walk(NamesFrom(p, q), st) == Final(p)
  }

  predicate IsDot(p: string, pos: nat) { pos + 1 < |p| && p[pos + 1] == '.' && AtSlash(p, pos + 2) }

  predicate IsDotDot(p: string, pos: nat) {
    pos + 2 < |p| && p[pos + 1] == '.' && p[pos + 2] == '.' && AtSlash(p, pos + 3)
  }

  /** What stands after a slash: another slash, `.`, `..`, or a name or nothing. */
  datatype Kind = Empty | Dot | DotDot | Plain

  function KindAt(p: string, pos: nat): Kind {
    if pos + 1 < |p| && p[pos + 1] == '/' then Empty
    else if IsDot(p, pos) then Dot
    else if IsDotDot(p, pos) then DotDot
    else Plain
  }

  lemma NextName(p: string, pos: nat, e: nat, st: State)
    requires pos < e <= |p| && AtSlash(p, pos) && AtSlash(p, e) && '/' !in p[pos + 1..e]
    ensures Walk(NamesFrom(p, pos), st) == Walk(NamesFrom(p, e), Step(st, p[pos + 1..e]))
  {
    NameEndIs(p, pos + 1, e);
    assert NamesFrom(p, pos)[1..] == NamesFrom(p, e);
  }

  lemma FirstName(p: string, q: nat, e: nat, first: bool)
    requires q <= e <= |p| && AtSlash(p, e) && '/' !in p[q..e]
    ensures Walk(Components(p, q), Bare(first)) == Walk(NamesFrom(p, e), Step(Bare(first), p[q..e]))
  {
    NameEndIs(p, q, e);
    assert Components(p, q)[1..] == NamesFrom(p, e);
  }

  // ----- The moves of the loop -----

  /** Nothing is written and the path goes on with a slash. */
  lemma FreshSlash(p: string, pos: nat, first: bool)
    requires OnTheWay(p, pos, "", Fresh(first)) && pos < |p| && p[pos] == '/'
    ensures OnTheWay(p, pos, "", Between(Slash))
  {
    FirstName(p, pos, pos, first);
  }

  lemma BetweenFacts(p: string, pos: nat, out: string, st: State)
    requires OnTheWay(p, pos, out, Between(st))
    ensures pos <= |p| && AtSlash(p, pos) && Written(st) && out == Out(st)
  {
  }

  lemma FreshChar(p: string, pos: nat, first: bool)
    requires OnTheWay(p, pos, "", Fresh(first)) && pos < |p| && p[pos] != '/'
    ensures OnTheWay(p, pos + 1, [p[pos]], Naming(first, pos))
  {
    assert p[pos..pos + 1] == [p[pos]];
  }

  lemma NamingChar(p: string, pos: nat, out: string, first: bool, q: nat)
    requires OnTheWay(p, pos, out, Naming(first, q)) && pos < |p| && p[pos] != '/'
    ensures OnTheWay(p, pos + 1, out + [p[pos]], Naming(first, q))
  {
    hide Walk, Components, Final;
    assert p[q..pos + 1] == p[q..pos] + [p[pos]];
  }

  lemma NamingDone(p: string, pos: nat, out: string, first: bool, q: nat)
    requires OnTheWay(p, pos, out, Naming(first, q)) && AtSlash(p, pos)
    ensures OnTheWay(p, pos, out, Between(Named(out, first, [])))
  {
    FirstName(p, q, pos, first);
    assert out + "" == out;
    assert pos == |p| ==> p[|p| - 1] == out[|out| - 1];
    hide Walk, Components, Final, NamesFrom;
  }

  lemma SkipEmpty(p: string, pos: nat, out: string, st: State)
    requires OnTheWay(p, pos, out, Between(st)) && KindAt(p, pos) == Empty
    ensures OnTheWay(p, pos + 1, out, Between(st))
  {
    NextName(p, pos, pos + 1, st);
    hide Walk, Final, NamesFrom;
  }

  lemma SkipDot(p: string, pos: nat, out: string, st: State)
    requires OnTheWay(p, pos, out, Between(st)) && KindAt(p, pos) == Dot
    ensures OnTheWay(p, pos + 2, out, Between(st))
  {
    assert p[pos + 1..pos + 2] == ".";
    NextName(p, pos, pos + 2, st);
    hide Walk, Final, NamesFrom, Join;
  }

  /** `..` that leaves something written or the root. */
  lemma SkipDotDot(p: string, pos: nat, out: string, st: State)
    requires OnTheWay(p, pos, out, Between(st)) && KindAt(p, pos) == DotDot && !Step(st, "..").Bare?
    ensures OnTheWay(p, pos + 3, Out(Step(st, "..")), Between(Step(st, "..")))
  {
    hide Walk, Final, NamesFrom, Out, Step, Written;
    assert p[pos + 1..pos + 3] == "..";
    NextName(p, pos, pos + 3, st);
    BackWritten(st);
  }

  lemma BackWritten(st: State)
    requires Written(st) && !Step(st, "..").Bare?
    ensures Written(Step(st, ".."))
  {
  }

  /** `..` that drops the first name: the slash after it is stepped over too. At the end
      there is none, and the index passes the NUL. */
  lemma DropFirst(p: string, pos: nat, out: string, st: State)
    requires OnTheWay(p, pos, out, Between(st)) && KindAt(p, pos) == DotDot && Step(st, "..").Bare?
    ensures pos + 3 == |p| ==> Overruns(p)
    ensures pos + 3 < |p| ==> OnTheWay(p, pos + 4, "", Fresh(false))
  {
    assert p[pos + 1..pos + 3] == "..";
    NextName(p, pos, pos + 3, st);
    assert Step(st, "..") == Bare(false);
    if pos + 3 < |p| { assert NamesFrom(p, pos + 3) == Components(p, pos + 4); }
  }

  lemma EnterName(p: string, pos: nat, out: string, st: State)
    requires OnTheWay(p, pos, out, Between(st)) && pos < |p| && KindAt(p, pos) == Plain
    ensures OnTheWay(p, pos + 1, out + "/", Within(st, pos))
  {
    hide Walk, Final, NamesFrom, Out;
    assert p[pos..pos + 1] == "/";
    DotNames(p, pos);
  }

  lemma DotNames(p: string, pos: nat)
    requires pos < |p|
    ensures NameAt(p, pos) == "." ==> IsDot(p, pos)
    ensures NameAt(p, pos) == ".." ==> IsDotDot(p, pos)
    ensures NameAt(p, pos) == "" ==> AtSlash(p, pos + 1)
    ensures '/' !in NameAt(p, pos)
  {
    var e, name := NameEnd(p, pos + 1), NameAt(p, pos);
    assert forall k :: 0 <= k < |name| ==> name[k] == p[pos + 1 + k];
  }

  lemma WithinChar(p: string, pos: nat, out: string, st: State, q: nat)
    requires OnTheWay(p, pos, out, Within(st, q)) && pos < |p| && p[pos] != '/'
    ensures OnTheWay(p, pos + 1, out + [p[pos]], Within(st, q))
  {
    hide Walk, Final, NamesFrom, Out, NameAt, Proper, Written;
    Extend(Out(st), p, q, pos);
    assert p[q + 1..pos + 1] == p[q + 1..pos] + [p[pos]];
  }

  lemma Extend(a: string, p: string, q: nat, pos: nat)
    requires q <= pos < |p|
    ensures a + p[q..pos] + [p[pos]] == a + p[q..pos + 1]
  {
    assert p[q..pos + 1] == p[q..pos] + [p[pos]];
  }

  lemma ProperPush(names: seq<string>, name: string)
    requires AllProper(names) && Proper(name)
    ensures IsName(name) && Push(names, name) == names + [name] && AllProper(names + [name]) && name[|name| - 1] != '/'
  {
  }

  lemma OutName(st: State, name: string)
    requires Written(st) && Proper(name)
    ensures Written(Step(st, name)) && Out(Step(st, name)) == Out(st) + "/" + name && name[|name| - 1] != '/'
  {
    var names := if st.Named? then st.rest else if st.Rooted? then st.stack else [];
    assert AllProper(names) && Join([]) == "";
    hide AllProper, Proper, IsName, Join, Push;
    ProperPush(names, name);
    JoinLast(names, name);
    if st.Named? { Regroup(st.name, Join(st.rest), name); }
    if st.Slash? { assert [] + [name] == [name]; }
  }

  lemma Regroup(a: string, b: string, name: string)
    ensures a + (b + "/" + name) == a + b + "/" + name
  {
  }

  lemma NameIs(p: string, q: nat, pos: nat)
    requires q < pos <= |p| && AtSlash(p, pos) && '/' !in p[q + 1..pos] && p[q] == '/'
    ensures NameAt(p, q) == p[q + 1..pos] && p[q..pos] == "/" + p[q + 1..pos]
  {
    NameEndIs(p, q + 1, pos);
  }

  lemma WithinDone(p: string, pos: nat, out: string, st: State, q: nat)
    requires OnTheWay(p, pos, out, Within(st, q)) && AtSlash(p, pos) && q < |p| - 1
    ensures OnTheWay(p, pos, out, Between(Step(st, NameAt(p, q))))
  {
    hide NameAt, Proper, Written, Step, Out, Walk, NamesFrom, Final;
    var name := p[q + 1..pos];
    NameIs(p, q, pos);
    OutName(st, name);
    NextName(p, q, pos, st);
    assert Out(st) + ("/" + name) == Out(st) + "/" + name;
    assert pos == |p| ==> p[|p| - 1] == name[|name| - 1];
  }

  /** At the end, what was written is the result, or nothing for the root. */
  lemma Done(p: string, out: string, mode: Mode)
    requires OnTheWay(p, |p|, out, mode)
    ensures !Overruns(p) && Result(p) == if out == "" then "/" else out
  {
    match mode
    case Fresh(first) => FirstName(p, |p|, |p|, first); assert p[|p|..|p|] == "";
    case Naming(first, q) => NamingDone(p, |p|, out, first, q); assert out + "" == out;
    case Between(st) => assert out + "" == out;
    case Within(st, q) =>
      if q < |p| - 1 {
        WithinDone(p, |p|, out, st, q);
        assert out + "" == out;
      } else {
        LastSlash(p, out, st);
      }
  }

  lemma LastSlash(p: string, out: string, st: State)
    requires p != "" && OnTheWay(p, |p|, out, Within(st, |p| - 1))
    ensures !Overruns(p) && Result(p) == out != ""
  {
    NextName(p, |p| - 1, |p|, st);
    assert p[|p| - 1..|p|] == "/" && p[|p|..|p|] == "";
  }

  // ----- In place -----

  /** The buffer holds `p` from `pos` on, and a NUL after it. */
  ghost predicate Unread(filename: array<char>, p: string, pos: nat)
    reads filename
  {
    pos <= |p| < filename.Length && filename[|p|] == '\0' && forall k :: pos <= k < |p| ==> filename[k] == p[k]
  }

  /** What the buffer holds at and after the write index, as far as stepping back looks at it. */
  predicate Behind(buffer: string, p: string, pos: nat, mode: Mode)
    requires |buffer| >= 2
  {
    match mode
    case Fresh(first) => if first then pos == 0 && !Absolute(p) else buffer[0] != '/' && buffer[1] != '/'
    case Naming(first, q) => if first then q == 0 else buffer[1] != '/'
    case Between(st) => BehindState(buffer, p, pos, st)
    case Within(st, _) => st.Named? || buffer[0] == '/'
  }

  predicate BehindState(buffer: string, p: string, pos: nat, st: State)
    requires |buffer| >= 2
  {
    match st
    case Bare(_) => false
    case Slash => buffer[0] != '/' && buffer[1] != '/'
    case Named(name, kept, rest) =>
      (!kept ==> rest == []) &&
      (|name| == 1 ==> if kept then pos == |p| || buffer[1] == '/' else buffer[1] != '/')
    case Rooted(_) => buffer[0] == '/'
  }

  /** The write index goes back to the last slash before the last character, or to the
      beginning. */
  method Back(filename: array<char>, pos2: nat) returns (back: nat)
    requires pos2 < filename.Length
    ensures SteppedBack(filename[..], pos2, back)
  {
    back := pos2;
    if back > 1 {
      back := back - 1;
    }
    while back > 0 && filename[back] != '/'
      invariant back <= pos2 && (pos2 > 1 ==> back < pos2) && forall k :: back < k < pos2 ==> filename[k] != '/'
      invariant pos2 == 1 && back == 0 ==> filename[1] != '/'
    {
      back := back - 1;
    }
  }

  /** What was written ends with a slash and the last name, which has no slash. */
  lemma LastName(base: string, names: seq<string>)
    requires AllProper(names) && names != []
    ensures var out, keep := base + Join(names), base + Join(names[..|names| - 1]);
      |keep| + 1 < |out| && keep == out[..|keep|] && out[|keep|] == '/' &&
      forall k :: |keep| < k < |out| ==> out[k] != '/'
  {
    var keep, name := base + Join(names[..|names| - 1]), names[|names| - 1];
    var out := base + Join(names);
    assert out == keep + "/" + name && Proper(name);
    hide Join, AllProper;
    assert forall k :: |keep| < k < |out| ==> out[k] == name[k - |keep| - 1];
  }

  /** `back` is where stepping back from `pos2` leads. */
  predicate SteppedBack(buffer: string, pos2: nat, back: nat) {
    back <= pos2 < |buffer| && (back == 0 || buffer[back] == '/') &&
    (forall k :: back < k < pos2 ==> buffer[k] != '/') &&
    (pos2 == 1 ==> (back == 1 <==> buffer[1] == '/')) && (pos2 > 1 ==> back < pos2)
  }

  lemma BackToName(buffer: string, pos2: nat, base: string, names: seq<string>, back: nat)
    requires SteppedBack(buffer, pos2, back) && AllProper(names) && names != [] && buffer[..pos2] == base + Join(names)
    ensures buffer[..back] == base + Join(names[..|names| - 1]) && buffer[back] == '/'
  {
    hide Join, AllProper;
    LastName(base, names);
    SlashFound(buffer, base + Join(names), pos2, back, base + Join(names[..|names| - 1]));
  }

  lemma BackToStart(buffer: string, pos2: nat, name: string, kept: bool, back: nat)
    requires SteppedBack(buffer, pos2, back) && name != "" && '/' !in name && buffer[..pos2] == name
    requires |name| == 1 ==> (buffer[1] == '/' <==> kept)
    ensures |name| == 1 && kept ==> buffer[..back] == name && buffer[back] == '/'
    ensures !(|name| == 1 && kept) ==> back == 0 && buffer[back] != '/'
  {
    assert forall k :: 0 <= k < pos2 ==> buffer[k] == name[k] && name[k] in name;
  }

  /** Where stepping back leads, and whether it finds a slash there. */
  lemma BackTo(buffer: string, pos2: nat, st: State, back: nat)
    requires SteppedBack(buffer, pos2, back) && Written(st) && buffer[..pos2] == Out(st)
    requires st.Slash? ==> buffer[0] != '/'
    requires st.Rooted? ==> buffer[0] == '/'
    requires st.Named? && |st.name| == 1 && st.rest == [] ==> (buffer[1] == '/' <==> st.kept)
    ensures buffer[..back] == Out(Step(st, "..")) && (buffer[back] == '/' <==> !Step(st, "..").Bare?)
  {
    hide SteppedBack, AllProper, Join;
    match st
    case Slash => NoBack(buffer, pos2, back);
    case Rooted(stack) => RootedBack(buffer, pos2, stack, back);
    case Named(name, kept, rest) => NamedBack(buffer, pos2, name, kept, rest, back);
  }

  /** After stepping back, the buffer is again as the next step expects it. */
  lemma BackPlace(buffer: string, p: string, pos: nat, pos2: nat, st: State, back: nat)
    requires |buffer| >= 2 && pos < |p| && SteppedBack(buffer, pos2, back)
    requires Written(st) && buffer[..pos2] == Out(st) && BehindState(buffer, p, pos, st)
    ensures back <= pos2 && buffer[..back] == Out(Step(st, "..")) && (buffer[back] == '/' <==> !Step(st, "..").Bare?)
    ensures Step(st, "..").Bare? ==> buffer[0] != '/' && buffer[1] != '/'
    ensures !Step(st, "..").Bare? ==> BehindState(buffer, p, pos + 3, Step(st, ".."))
  {
    BackTo(buffer, pos2, st, back);
    Bounded(buffer, pos2, back);
    if st.Named? && st.rest == [] {
      assert Out(st) == st.name;
      assert forall k :: 0 <= k < |st.name| ==> buffer[k] == buffer[..pos2][k] == st.name[k] && st.name[k] in st.name;
    }
    hide Join, SteppedBack, AllProper;
  }

  lemma BareOut(st: State)
    requires st.Bare?
    ensures Out(st) == ""
  {
  }

  lemma NoBack(buffer: string, pos2: nat, back: nat)
    requires SteppedBack(buffer, pos2, back) && buffer[..pos2] == ""
    ensures back == 0 < |buffer| && buffer[..back] == ""
  {
  }

  lemma RootedBack(buffer: string, pos2: nat, stack: seq<string>, back: nat)
    requires SteppedBack(buffer, pos2, back) && AllProper(stack) && buffer[..pos2] == Join(stack) && buffer[0] == '/'
    ensures back < |buffer| && buffer[..back] == Join(Push(stack, "..")) && buffer[back] == '/'
  {
    if stack == [] {
      NoBack(buffer, pos2, back);
    } else {
      hide Join, AllProper, SteppedBack;
      assert "" + Join(stack) == Join(stack) && "" + Join(stack[..|stack| - 1]) == Join(stack[..|stack| - 1]);
      BackToName(buffer, pos2, "", stack, back);
      Bounded(buffer, pos2, back);
    }
  }

  lemma NamedBack(buffer: string, pos2: nat, name: string, kept: bool, rest: seq<string>, back: nat)
    requires SteppedBack(buffer, pos2, back) && name != "" && '/' !in name && AllProper(rest)
    requires buffer[..pos2] == name + Join(rest)
    requires |name| == 1 && rest == [] ==> (buffer[1] == '/' <==> kept)
    ensures back < |buffer| && var st := Step(Named(name, kept, rest), "..");
      buffer[..back] == Out(st) && (buffer[back] == '/' <==> !st.Bare?)
  {
    Bounded(buffer, pos2, back);
    assert rest == [] ==> Join(rest) == "" && name + Join(rest) == name;
    hide Join, AllProper, SteppedBack;
    if rest == [] {
      BackToStart(buffer, pos2, name, kept, back);
    } else {
      BackToName(buffer, pos2, name, rest, back);
    }
  }

  lemma Bounded(buffer: string, pos2: nat, back: nat)
    requires SteppedBack(buffer, pos2, back)
    ensures back <= pos2 < |buffer|
  {
  }

  lemma SlashFound(buffer: string, out: string, pos2: nat, back: nat, keep: string)
    requires SteppedBack(buffer, pos2, back) && buffer[..pos2] == out
    requires |keep| + 1 < |out| && keep == out[..|keep|] && out[|keep|] == '/'
    requires forall k :: |keep| < k < |out| ==> out[k] != '/'
    ensures back == |keep| && buffer[..back] == keep && buffer[back] == '/'
  {
    assert forall k :: 0 <= k < pos2 ==> buffer[k] == out[k];
  }

  /** What the string comparisons after a slash find; none reads past the NUL. */
  method Look(filename: array<char>, pos: nat, ghost p: string) returns (kind: Kind)
    requires '\0' !in p && pos < |p| && Unread(filename, p, pos)
    ensures kind == KindAt(p, pos)
  {
    if filename[pos + 1] == '/' {
      return Empty;
    }
    if filename[pos + 1] == '.' {
      if filename[pos + 2] == '/' || filename[pos + 2] == '\0' {
        return Dot;
      }
      if filename[pos + 2] == '.' && (filename[pos + 3] == '/' || filename[pos + 3] == '\0') {
        return DotDot;
      }
    }
    return Plain;
  }

  /** One character is written at the write index. */
  method Write(filename: array<char>, pos: nat, pos2: nat, c: char, ghost p: string)
    requires pos2 <= pos < |p| && Unread(filename, p, pos) && c == p[pos]
    modifies filename
    ensures filename[..pos2 + 1] == old(filename[..pos2]) + [c] && Unread(filename, p, pos + 1)
    ensures forall k :: 0 <= k < filename.Length && k != pos2 ==> filename[k] == old(filename[k])
  {
    filename[pos2] := c;
  }

  /** The case of `..`. */
  method StepBack(filename: array<char>, pos: nat, pos2: nat, ghost p: string, ghost st: State)
    returns (past: bool, pos': nat, pos2': nat, ghost mode: Mode)
    requires '\0' !in p && pos2 <= pos < |p| && KindAt(p, pos) == DotDot && Unread(filename, p, pos) &&
      filename.Length >= 2
    requires OnTheWay(p, pos, filename[..pos2], Between(st)) && BehindState(filename[..], p, pos, st)
    ensures past ==> pos' == |p| + 1 && Overruns(p)
    ensures !past ==> pos < pos' && pos2' <= pos' && Unread(filename, p, pos')
    ensures !past ==> OnTheWay(p, pos', filename[..pos2'], mode) && Behind(filename[..], p, pos', mode)
  {
    hide OnTheWay, Overruns, Out, Step, Written, SteppedBack, BehindState;
    BetweenFacts(p, pos, filename[..pos2], st);
    pos2' := Back(filename, pos2);
    assert filename[..][..pos2] == filename[..pos2] && filename[..][..pos2'] == filename[..pos2'];
    BackPlace(filename[..], p, pos, pos2, st, pos2');
    past, pos' := false, pos + 3;
    if filename[pos2'] != '/' {
      past := filename[pos'] == '\0';
      pos' := pos' + 1;
      mode := Fresh(false);
      DropFirst(p, pos, filename[..pos2], st);
      BareOut(Step(st, ".."));
    } else {
      mode := Between(Step(st, ".."));
      SkipDotDot(p, pos, filename[..pos2], st);
    }
  }

  /** The case of a slash. */
  method AtASlash(filename: array<char>, pos: nat, pos2: nat, ghost p: string, ghost st: State)
    returns (past: bool, pos': nat, pos2': nat, ghost mode: Mode)
    requires '\0' !in p && pos2 <= pos < |p| && p[pos] == '/' && Unread(filename, p, pos) && filename.Length >= 2
    requires OnTheWay(p, pos, filename[..pos2], Between(st)) && BehindState(filename[..], p, pos, st)
    modifies filename
    ensures past ==> pos' == |p| + 1 && Overruns(p)
    ensures !past ==> pos < pos' && pos2' <= pos' && Unread(filename, p, pos')
    ensures !past ==> OnTheWay(p, pos', filename[..pos2'], mode) && Behind(filename[..], p, pos', mode)
  {
    hide OnTheWay, Overruns, Out, Step, Written;
    var kind := Look(filename, pos, p);
    past, pos2', mode := false, pos2, Between(st);
    match kind {
      case Empty =>
        SkipEmpty(p, pos, filename[..pos2], st);
        pos' := pos + 1;
      case Dot =>
        SkipDot(p, pos, filename[..pos2], st);
        pos' := pos + 2;
      case DotDot =>
        past, pos', pos2', mode := StepBack(filename, pos, pos2, p, st);
      case Plain =>
        EnterName(p, pos, filename[..pos2], st);
        BetweenFacts(p, pos, filename[..pos2], st);
        SlashWritten(filename[..], pos2, st);
        Write(filename, pos, pos2, '/', p);
        pos', pos2', mode := pos + 1, pos2 + 1, Within(st, pos);
    }
  }

  lemma SlashWritten(buffer: string, pos2: nat, st: State)
    requires pos2 <= |buffer| && buffer[..pos2] == Out(st)
    ensures st.Slash? ==> pos2 == 0
  {
  }

  /** A first name ends at a slash. */
  lemma ArriveNaming(buffer: string, p: string, pos: nat, pos2: nat, first: bool, q: nat)
    requires |buffer| >= 2 && pos2 <= pos < |p| && pos < |buffer| && p[pos] == '/' && buffer[pos] == '/'
    requires OnTheWay(p, pos, buffer[..pos2], Naming(first, q)) && Behind(buffer, p, pos, Naming(first, q))
    ensures OnTheWay(p, pos, buffer[..pos2], Between(Named(buffer[..pos2], first, [])))
    ensures BehindState(buffer, p, pos, Named(buffer[..pos2], first, []))
  {
    NamingDone(p, pos, buffer[..pos2], first, q);
    hide Walk, Components, Final;
    assert |p[q..pos]| == pos - q;
  }

  /** Another name ends at a slash. */
  lemma ArriveWithin(buffer: string, p: string, pos: nat, pos2: nat, st: State, q: nat)
    requires |buffer| >= 2 && pos2 <= pos < |p| && pos < |buffer| && p[pos] == '/'
    requires OnTheWay(p, pos, buffer[..pos2], Within(st, q)) && Behind(buffer, p, pos, Within(st, q))
    ensures OnTheWay(p, pos, buffer[..pos2], Between(Step(st, NameAt(p, q))))
    ensures BehindState(buffer, p, pos, Step(st, NameAt(p, q)))
  {
    WithinDone(p, pos, buffer[..pos2], st, q);
    WithinFacts(p, pos, buffer[..pos2], st, q);
    hide OnTheWay, NameAt;
    if st.Named? && |st.name| == 1 {
      SecondIsSlash(st.name, st.rest, p, q, pos);
      assert buffer[1] == buffer[..pos2][1];
    }
    hide Out, Join;
  }

  lemma WithinFacts(p: string, pos: nat, out: string, st: State, q: nat)
    requires OnTheWay(p, pos, out, Within(st, q))
    ensures q < pos <= |p| && p[q] == '/' && out == Out(st) + p[q..pos] && Written(st) && out != ""
    ensures Proper(NameAt(p, q)) || q == |p| - 1
  {
    hide Walk, NamesFrom, Final;
  }

  lemma SecondIsSlash(name: string, rest: seq<string>, p: string, q: nat, pos: nat)
    requires |name| == 1 && q < pos <= |p| && p[q] == '/'
    ensures var out := name + Join(rest) + p[q..pos]; |out| > 1 && out[1] == '/'
  {
    if rest != [] { JoinAbsolute(rest); }
  }

  /** At a slash, names end. */
  lemma Arrive(buffer: string, p: string, pos: nat, pos2: nat, mode: Mode) returns (st: State)
    requires |buffer| >= 2 && pos2 <= pos < |p| && pos < |buffer| && p[pos] == '/' && buffer[pos] == '/'
    requires OnTheWay(p, pos, buffer[..pos2], mode) && Behind(buffer, p, pos, mode)
    ensures OnTheWay(p, pos, buffer[..pos2], Between(st)) && BehindState(buffer, p, pos, st)
  {
    match mode
    case Fresh(first) => ArriveFresh(buffer, p, pos, pos2, first); st := Slash;
    case Naming(first, q) =>
      hide OnTheWay;
      ArriveNaming(buffer, p, pos, pos2, first, q);
      st := Named(buffer[..pos2], first, []);
    case Between(s) => st := s;
    case Within(s, q) =>
      WithinFacts(p, pos, buffer[..pos2], s, q);
      hide OnTheWay;
      ArriveWithin(buffer, p, pos, pos2, s, q);
      st := Step(s, NameAt(p, q));
  }

  lemma ArriveFresh(buffer: string, p: string, pos: nat, pos2: nat, first: bool)
    requires |buffer| >= 2 && pos2 <= pos < |p| && pos < |buffer| && p[pos] == '/'
    requires OnTheWay(p, pos, buffer[..pos2], Fresh(first)) && Behind(buffer, p, pos, Fresh(first))
    ensures OnTheWay(p, pos, buffer[..pos2], Between(Slash)) && BehindState(buffer, p, pos, Slash)
  {
    FreshSlash(p, pos, first);
  }

  /** The mode after one more character of a name. */
  function After(mode: Mode, pos: nat): Mode { if mode.Fresh? then Naming(mode.first, pos) else mode }

  lemma CharRead(p: string, pos: nat, out: string, mode: Mode)
    requires OnTheWay(p, pos, out, mode) && pos < |p| && p[pos] != '/'
    ensures OnTheWay(p, pos + 1, out + [p[pos]], After(mode, pos)) && (mode.Fresh? <==> out == "")
  {
    match mode
    case Fresh(first) =>
      assert out + [p[pos]] == [p[pos]];
      FreshChar(p, pos, first);
    case Naming(first, q) => NamingChar(p, pos, out, first, q);
    case Within(st, q) =>
      WithinFacts(p, pos, out, st, q);
      WithinChar(p, pos, out, st, q);
  }

  lemma CharBehind(was: string, buffer: string, p: string, pos: nat, pos2: nat, mode: Mode)
    requires |buffer| == |was| >= 2 && pos2 < |was| && pos < |p| && p[pos] != '/' && !mode.Between?
    requires buffer == was[pos2 := p[pos]] && Behind(was, p, pos, mode) && (mode.Fresh? <==> pos2 == 0)
    ensures Behind(buffer, p, pos + 1, After(mode, pos))
  {
  }

  /** The mode in which the loop begins. */
  function Begin(p: string): Mode { if Absolute(p) then Between(Rooted([])) else Fresh(true) }

  lemma Begun(p: string, buffer: string)
    requires |buffer| >= 2 && (Absolute(p) ==> buffer[0] == '/')
    ensures OnTheWay(p, 0, "", Begin(p)) && Behind(buffer, p, 0, Begin(p))
  {
  }

  lemma BetweenAtSlash(p: string, pos: nat, out: string, mode: Mode)
    requires OnTheWay(p, pos, out, mode) && pos < |p| && p[pos] != '/'
    ensures !mode.Between?
  {
  }

  /** The case of any other character. */
  method CopyChar(filename: array<char>, pos: nat, pos2: nat, ghost p: string, ghost mode: Mode)
    requires pos2 <= pos < |p| && p[pos] != '/' && Unread(filename, p, pos) && filename.Length >= 2
    requires OnTheWay(p, pos, filename[..pos2], mode) && Behind(filename[..], p, pos, mode)
    modifies filename
    ensures Unread(filename, p, pos + 1) && OnTheWay(p, pos + 1, filename[..pos2 + 1], After(mode, pos))
    ensures Behind(filename[..], p, pos + 1, After(mode, pos))
  {
    hide OnTheWay, Behind, After;
    CharRead(p, pos, filename[..pos2], mode);
    BetweenAtSlash(p, pos, filename[..pos2], mode);
    ghost var was := filename[..];
    assert pos2 == 0 <==> filename[..pos2] == "" by { assert |filename[..pos2]| == pos2; }
    Write(filename, pos, pos2, filename[pos], p);
    assert filename[..] == was[pos2 := p[pos]];
    CharBehind(was, filename[..], p, pos, pos2, mode);
  }

  /** path_simplify on any path. The read index stays inside the string exactly when the last
      component does not drop the first name; then the buffer holds the result. Here the
      loop stops where the index has passed the NUL. */
  method Simplify(filename: array<char>, ghost p: string) returns (inside: bool, pos2: nat)
    requires '\0' !in p && Unread(filename, p, 0) && filename.Length >= 2
    modifies filename
    ensures inside <==> !Overruns(p)
    ensures inside ==> pos2 < filename.Length && filename[..pos2] == Result(p) && filename[pos2] == '\0'
  {
    hide OnTheWay, Behind, Begin, Overruns, Result, BehindState, After, Absolute;
    var pos: nat := 0;
    inside, pos2 := true, 0;
    ghost var mode := Begin(p);
    StartsSame(filename[..], p);
    Begun(p, filename[..]);
    assert filename[..0] == "";
    while inside && filename[pos] != '\0'
      invariant inside ==> pos2 <= pos && Unread(filename, p, pos)
      invariant inside ==> OnTheWay(p, pos, filename[..pos2], mode) && Behind(filename[..], p, pos, mode)
      invariant !inside ==> Overruns(p)
      decreases if inside then |p| + 1 - pos else 0
    {
      if filename[pos] == '/' {
        var past;
        past, pos, pos2, mode := MoveOn(filename, pos, pos2, p, mode);
        inside := !past;
      } else {
        CopyChar(filename, pos, pos2, p, mode);
        mode := After(mode, pos);
        pos, pos2 := pos + 1, pos2 + 1;
      }
    }
    if !inside {
      return;
    }
    Done(p, filename[..pos2], mode);
    pos2 := Finish(filename, pos2);
  }

  lemma StartsSame(buffer: string, p: string)
    requires |p| < |buffer| && forall k :: 0 <= k < |p| ==> buffer[k] == p[k]
    ensures Absolute(p) ==> buffer[0] == '/'
  {
  }

  /** A slash is reached, which ends a name. */
  method MoveOn(filename: array<char>, pos: nat, pos2: nat, ghost p: string, ghost mode: Mode)
    returns (past: bool, pos': nat, pos2': nat, ghost mode': Mode)
    requires '\0' !in p && pos2 <= pos < |p| && p[pos] == '/' && Unread(filename, p, pos) && filename.Length >= 2
    requires OnTheWay(p, pos, filename[..pos2], mode) && Behind(filename[..], p, pos, mode)
    modifies filename
    ensures past ==> Overruns(p)
    ensures !past ==> pos < pos' && pos2' <= pos' && Unread(filename, p, pos')
    ensures !past ==> OnTheWay(p, pos', filename[..pos2'], mode') && Behind(filename[..], p, pos', mode')
  {
    hide OnTheWay, Behind, Overruns, BehindState;
    assert filename[..][..pos2] == filename[..pos2];
    ghost var st := Arrive(filename[..], p, pos, pos2, mode);
    past, pos', pos2', mode' := AtASlash(filename, pos, pos2, p, st);
  }

  /** The end of the text: at least a slash, and the NUL. */
  method Finish(filename: array<char>, end: nat) returns (pos2: nat)
    requires end < filename.Length && filename.Length >= 2
    modifies filename
    ensures pos2 < filename.Length && filename[pos2] == '\0'
    ensures filename[..pos2] == if end == 0 then "/" else old(filename[..end])
  {
    pos2 := end;
    if pos2 == 0 {
      filename[pos2] := '/';
      pos2 := pos2 + 1;
    }
    filename[pos2] := '\0';
  }
}
