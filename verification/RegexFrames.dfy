/** The failure points of the matcher as they lie in its failure stack: the list of
    `RegexMachine` is the contents of the flat array of `RegexFailStack`. */
module RegexFrames {
  import opened RegexMachine
  import opened RegexFailStack

  const NO_HIGHEST_ACTIVE_REG := 256
  const NO_LOWEST_ACTIVE_REG := 257

  /** A failure point without registers. Places are one more than their offsets, since
      NULL is 0; a dummy has neither place. */
  function PointOf(f: Frame): Point {
    match f
    case Dummy => Point(NO_LOWEST_ACTIVE_REG, NO_HIGHEST_ACTIVE_REG, [], NULL, NULL)
    case Frame(place, str) => Point(NO_LOWEST_ACTIVE_REG, NO_HIGHEST_ACTIVE_REG, [], place + 1, str + 1)
  }

  function PointsOf(frames: seq<Frame>): (r: seq<Point>)
    ensures |r| == |frames|
  {
    seq(|frames|, i requires 0 <= i < |frames| => PointOf(frames[i]))
  }

  predicate PlacesOk(frames: seq<Frame>) { forall i :: 0 <= i < |frames| && frames[i].Frame? ==> frames[i].place >= 0 }

  /** The array holds these frames, in `size` slots. */
  ghost predicate Represents(fs: FailStack, frames: seq<Frame>, size: nat)
    reads fs, fs.stack
  {
    fs.Valid() && fs.numRegs == 1 && fs.points == PointsOf(frames) && fs.stack.Length == size
  }

  lemma {:induction false} FourSlots(frames: seq<Frame>)
    ensures |Flat(PointsOf(frames))| == FRAME_SLOTS * |frames|
    decreases |frames|
  {
    if frames != [] {
      var init := frames[..|frames| - 1];
      FourSlots(init);
      assert PointsOf(frames) == PointsOf(init) + [PointOf(frames[|frames| - 1])];
      FlatPushed(PointsOf(init), PointOf(frames[|frames| - 1]));
    }
  }

  /** The array has FRAME_SLOTS items for each frame. */
  lemma SlotsUsed(fs: FailStack, frames: seq<Frame>, size: nat)
    requires Represents(fs, frames, size)
    ensures fs.avail == FRAME_SLOTS * |frames| && fs.MaxItems() == FRAME_SLOTS
  {
    hide Flat;
    FourSlots(frames);
    assert |fs.stack[..fs.avail]| == fs.avail;
  }

  lemma {:induction false} SameRoom(size: nat, used: nat)
    requires size > 0
    ensures Enlarged(size, used, FRAME_SLOTS, MAX_FAILURES * FRAME_SLOTS) == Room(size, used)
    decreases MAX_FAILURES * FRAME_SLOTS + 1 - size
  {
    if used + FRAME_SLOTS > size && size <= MAX_FAILURES * FRAME_SLOTS { SameRoom(2 * size, used); }
  }

  /** PUSH_FAILURE_POINT in the matcher is `Push` of the machine. */
  method PushFrame(fs: FailStack, f: Frame, none: array<int>, ghost st: State, ghost p: int) returns (ok: bool)
    requires Represents(fs, st.stack, st.size) && none.Length == 0 && fs.stack != none
    modifies fs, fs.stack
    ensures fs.Valid() && (fs.stack == old(fs.stack) || fresh(fs.stack))
    ensures ok ==> Represents(fs, st.stack + [f], fs.stack.Length)
    ensures RegexMachine.Push(st, f, p) ==
      if ok then Next(st.(stack := st.stack + [f], size := fs.stack.Length, p := p))
      else Return(INTERNAL_ERROR, st.code)
  {
    hide Enlarged, Room, Flat;
    SlotsUsed(fs, st.stack, st.size);
    SameRoom(st.size, FRAME_SLOTS * |st.stack|);
    var place, str := NULL, NULL;
    if f.Frame? {
      place, str := f.place + 1, f.str + 1;
    }
    ok := fs.Push(place, str, NO_LOWEST_ACTIVE_REG, NO_HIGHEST_ACTIVE_REG, none, none, none);
    assert PointsOf(st.stack + [f]) == PointsOf(st.stack) + [PointOf(f)];
  }

  /** POP_FAILURE_POINT in the matcher takes off the last frame; a dummy has no place. */
  method PopFrame(fs: FailStack, a: array<int>, b: array<int>, c: array<int>, ghost frames: seq<Frame>)
    returns (f: Frame)
    requires frames != [] && PlacesOk(frames) && Represents(fs, frames, fs.stack.Length)
    requires a.Length == b.Length == c.Length == 0 && a != b && a != c && b != c && fs.stack != a && fs.stack != b &&
      fs.stack != c
    modifies fs`avail, fs`points, a, b, c
    ensures f == frames[|frames| - 1] && Represents(fs, frames[..|frames| - 1], fs.stack.Length)
  {
    hide Flat;
    ghost var last := |frames| - 1;
    assert fs.points[last] == PointOf(frames[last]);
    var str, pattern, low, high := fs.Pop(NULL, a, b, c);
    assert PointsOf(frames)[..last] == PointsOf(frames[..last]);
    f := if pattern == NULL then Dummy else Frame(pattern - 1, str - 1);
  }
}
