/** The failure stack of gnu_regex/regex.c as it lies in memory: one array of items in
    which failure points of varying size follow each other without marks between them.

    Places in the pattern and the string, and register contents, are numbers; NULL is 0. */
module RegexFailStack {
  import opened RegexMachine

  const NULL := 0
  const NUM_REG_ITEMS := 3
  const NUM_NONREG_ITEMS := 4

  /** What one register has to be restored to. */
  datatype Register = Register(start: int, end: int, info: int)

  /** A failure point: the active registers `low` to `high` (none if `low` is one more
      than `high`), and the two places. */
  datatype Point = Point(low: nat, high: nat, regs: seq<Register>, pattern: int, str: int)

  predicate PointOk(pt: Point) { 1 <= pt.low <= pt.high + 1 && |pt.regs| == pt.high + 1 - pt.low }

  function RegItems(regs: seq<Register>): (r: seq<int>)
    ensures |r| == NUM_REG_ITEMS * |regs|
  {
    if regs == [] then []
    else
      var n := |regs| - 1;
      RegItems(regs[..n]) + [regs[n].start, regs[n].end, regs[n].info]
  }

  /** The items of a failure point, in the order they are pushed. */
  function Items(pt: Point): seq<int> { RegItems(pt.regs) + [pt.low, pt.high, pt.pattern, pt.str] }

  function Flat(points: seq<Point>): seq<int> {
    if points == [] then [] else Flat(points[..|points| - 1]) + Items(points[|points| - 1])
  }

  /** The registers `low` up to `high` of three register arrays. */
  ghost function Registers(regstart: array<int>, regend: array<int>, reginfo: array<int>, low: nat,
                           high: nat): (r: seq<Register>)
    requires low <= high + 1 && regstart.Length == regend.Length == reginfo.Length &&
      (low <= high ==> high < regstart.Length)
    reads regstart, regend, reginfo
    ensures |r| == high + 1 - low
    ensures forall i :: 0 <= i < |r| ==> r[i] == Register(regstart[low + i], regend[low + i], reginfo[low + i])
    decreases high + 1 - low
  {
    if low == high + 1 then []
    else [Register(regstart[low], regend[low], reginfo[low])] + Registers(regstart, regend, reginfo, low + 1, high)
  }

  /** The size of the array after making room for `needed` items, or 0 when it is over
      the limit before there is room. */
  function Enlarged(size: nat, used: nat, needed: nat, limit: nat): (r: nat)
    requires size > 0
    decreases limit + 1 - size
  {
    if used + needed <= size then size else if size > limit then 0 else Enlarged(2 * size, used, needed, limit)
  }

  lemma FlatPushed(points: seq<Point>, pt: Point)
    ensures Flat(points + [pt]) == Flat(points) + Items(pt)
  {
    assert (points + [pt])[..|points|] == points;
  }

  lemma Regroup(done: seq<int>, pt: Point)
    ensures done + RegItems(pt.regs) + [pt.low] + [pt.high] + [pt.pattern] + [pt.str] == done + Items(pt)
  {
    hide RegItems;
  }

  class FailStack {
    var stack: array<int>
    var avail: nat
    const numRegs: nat
    ghost var points: seq<Point>

    /** MAX_FAILURE_ITEMS. */
    function MaxItems(): nat
      requires numRegs > 0
    {
      (numRegs - 1) * NUM_REG_ITEMS + NUM_NONREG_ITEMS
    }

    /** The array holds whole failure points one after the other, and nothing else up to
        `avail`; it never has more than twice the items the limit allows. */
    ghost predicate Valid()
      reads this, stack
    {
      numRegs > 0 && 0 < stack.Length <= 2 * MAX_FAILURES * MaxItems() &&
      avail <= stack.Length && stack[..avail] == Flat(points) &&
      forall i :: 0 <= i < |points| ==> PointOk(points[i])
    }

    /** INIT_FAIL_STACK. */
    constructor (numRegs: nat)
      requires numRegs > 0
      ensures Valid() && points == [] && this.numRegs == numRegs && fresh(stack)
    {
      stack, avail, points := new int[INIT_FAILURE_ALLOC], 0, [];
      this.numRegs := numRegs;
    }

    /** DOUBLE_FAIL_STACK: fails exactly when the array is over the limit. */
    method Double() returns (ok: bool)
      requires Valid()
      modifies this`stack
      ensures Valid() && ok == (old(stack.Length) <= MAX_FAILURES * MaxItems())
      ensures if ok then fresh(stack) && stack.Length == 2 * old(stack.Length) else stack == old(stack)
    {
      ok := stack.Length <= MAX_FAILURES * MaxItems();
      if ok {
        var was := stack;
        var wider := new int[2 * was.Length];
        var i := 0;
        while i < was.Length
          invariant 0 <= i <= was.Length && stack == was && forall j :: 0 <= j < i ==> wider[j] == was[j]
        {
          wider[i] := was[i];
          i := i + 1;
        }
        assert wider[..avail] == was[..avail];
        stack := wider;
      }
    }

    /** PUSH_FAILURE_ITEM. */
    method PushItem(x: int)
      requires avail < stack.Length
      modifies this`avail, stack
      ensures avail == old(avail) + 1 && stack[..avail] == old(stack[..avail]) + [x]
    {
      stack[avail] := x;
      avail := avail + 1;
    }

    /** POP_FAILURE_ITEM. */
    method PopItem() returns (x: int)
      requires 0 < avail <= stack.Length
      modifies this`avail
      ensures avail == old(avail) - 1 && x == stack[avail] && stack[..avail + 1] == stack[..avail] + [x]
    {
      avail := avail - 1;
      x := stack[avail];
    }

    /** PUSH_FAILURE_POINT: adds one whole failure point, or fails with the array over its
        limit and the failure points as they were. */
    method Push(pattern: int, str: int, low: nat, high: nat, regstart: array<int>, regend: array<int>,
                reginfo: array<int>)
      returns (ok: bool)
      requires Valid() && 1 <= low <= high + 1
      requires regstart.Length == regend.Length == reginfo.Length && (low <= high ==> high < regstart.Length)
      requires high + 1 - low <= numRegs - 1
      requires stack != regstart && stack != regend && stack != reginfo
      modifies this, stack
      ensures Valid() && (stack == old(stack) || fresh(stack))
      ensures ok ==>
        points == old(points) + [Point(low, high, Registers(regstart, regend, reginfo, low, high), pattern, str)]
      ensures !ok ==> points == old(points) && stack.Length > MAX_FAILURES * MaxItems()
      ensures var needed := (high + 1 - low) * NUM_REG_ITEMS + NUM_NONREG_ITEMS;
        Enlarged(old(stack.Length), old(avail), needed, MAX_FAILURES * MaxItems()) == if ok then stack.Length else 0
    {
      hide Flat, Items, RegItems;
      var needed := (high + 1 - low) * NUM_REG_ITEMS + NUM_NONREG_ITEMS;
      ok := MakeRoomFor(needed);
      if !ok {
        return;
      }
      PushPoint(pattern, str, low, high, regstart, regend, reginfo);
    }

    method PushPoint(pattern: int, str: int, low: nat, high: nat, regstart: array<int>, regend: array<int>,
                     reginfo: array<int>)
      requires Valid() && 1 <= low <= high + 1
      requires regstart.Length == regend.Length == reginfo.Length && (low <= high ==> high < regstart.Length)
      requires avail + (high + 1 - low) * NUM_REG_ITEMS + NUM_NONREG_ITEMS <= stack.Length
      requires stack != regstart && stack != regend && stack != reginfo
      modifies this`avail, this`points, stack
      ensures Valid()
      ensures points == old(points) + [Point(low, high, Registers(regstart, regend, reginfo, low, high), pattern, str)]
    {
      hide Flat, Items, RegItems;
      ghost var pt := Point(low, high, Registers(regstart, regend, reginfo, low, high), pattern, str);
      FlatPushed(points, pt);
      PushRegisters(low, high, regstart, regend, reginfo);
      PushPlaces(low, high, pattern, str, Flat(points), pt);
      points := points + [pt];
    }

    method PushPlaces(low: nat, high: nat, pattern: int, str: int, ghost base: seq<int>, ghost pt: Point)
      requires low == pt.low && high == pt.high && pattern == pt.pattern && str == pt.str
      requires avail + NUM_NONREG_ITEMS <= stack.Length && stack[..avail] == base + RegItems(pt.regs)
      modifies this`avail, stack
      ensures avail == old(avail) + NUM_NONREG_ITEMS && stack[..avail] == base + Items(pt)
    {
      hide Items, RegItems;
      Regroup(base, pt);
      PushItem(low);
      PushItem(high);
      PushItem(pattern);
      PushItem(str);
    }

    method MakeRoomFor(needed: nat) returns (ok: bool)
      requires Valid()
      modifies this`stack
      ensures Valid() && (stack == old(stack) || fresh(stack))
      ensures ok ==> avail + needed <= stack.Length
      ensures !ok ==> stack.Length > MAX_FAILURES * MaxItems()
      ensures Enlarged(old(stack.Length), avail, needed, MAX_FAILURES * MaxItems()) == if ok then stack.Length else 0
    {
      hide Flat;
      ghost var limit := MAX_FAILURES * MaxItems();
      while stack.Length - avail < needed
        invariant Valid() && (stack == old(stack) || fresh(stack))
        invariant Enlarged(stack.Length, avail, needed, limit) == Enlarged(old(stack.Length), avail, needed, limit)
        decreases 2 * MAX_FAILURES * MaxItems() - stack.Length
      {
        var grown := Double();
        if !grown {
          return false;
        }
      }
      ok := true;
    }

    method PushRegisters(low: nat, high: nat, regstart: array<int>, regend: array<int>, reginfo: array<int>)
      requires low <= high + 1 && regstart.Length == regend.Length == reginfo.Length &&
        (low <= high ==> high < regstart.Length)
      requires avail + (high + 1 - low) * NUM_REG_ITEMS <= stack.Length
      requires stack != regstart && stack != regend && stack != reginfo
      modifies this`avail, stack
      ensures avail == old(avail) + (high + 1 - low) * NUM_REG_ITEMS
      ensures stack[..avail] == old(stack[..avail]) + RegItems(Registers(regstart, regend, reginfo, low, high))
    {
      hide RegItems;
      ghost var all := Registers(regstart, regend, reginfo, low, high);
      var r := low;
      NoItems(stack[..avail], all);
      while r <= high
        invariant low <= r <= high + 1 && avail == old(avail) + (r - low) * NUM_REG_ITEMS
        invariant Registers(regstart, regend, reginfo, low, high) == all
        invariant stack[..avail] == old(stack[..avail]) + RegItems(all[..r - low])
      {
        PushRegister(regstart[r], regend[r], reginfo[r], old(stack[..avail]), all, r - low);
        r := r + 1;
      }
      assert all[..high + 1 - low] == all;
    }

    method PushRegister(start: int, end: int, info: int, ghost base: seq<int>, ghost regs: seq<Register>, ghost k: nat)
      requires k < |regs| && regs[k] == Register(start, end, info) && avail + NUM_REG_ITEMS <= stack.Length
      requires stack[..avail] == base + RegItems(regs[..k])
      modifies this`avail, stack
      ensures avail == old(avail) + NUM_REG_ITEMS && stack[..avail] == base + RegItems(regs[..k + 1])
    {
      hide RegItems;
      NextItems(base, regs, k);
      PushItem(start);
      PushItem(end);
      PushItem(info);
    }

    /** POP_FAILURE_POINT: takes off the last failure point and restores what it saved; a
        NULL string keeps the current position. */
    method Pop(str0: int, regstart: array<int>, regend: array<int>, reginfo: array<int>)
      returns (str: int, pattern: int, low: nat, high: nat)
      requires Valid() && points != [] && regstart.Length == regend.Length == reginfo.Length
      requires var pt := points[|points| - 1]; pt.low <= pt.high ==> pt.high < regstart.Length
      requires regstart != regend && regstart != reginfo && regend != reginfo
      requires stack != regstart && stack != regend && stack != reginfo
      modifies this`avail, this`points, regstart, regend, reginfo
      ensures Valid() && points == old(points)[..|old(points)| - 1]
      ensures var pt := old(points)[|old(points)| - 1];
        str == (if pt.str == NULL then str0 else pt.str) && pattern == pt.pattern && low == pt.low && high == pt.high &&
        Registers(regstart, regend, reginfo, low, high) == pt.regs
      ensures forall r :: 0 <= r < regstart.Length && !(low <= r <= high) ==>
        regstart[r] == old(regstart[r]) && regend[r] == old(regend[r]) && reginfo[r] == old(reginfo[r])
    {
      hide Flat, Items, RegItems;
      ghost var init, pt := points[..|points| - 1], points[|points| - 1];
      FlatPushed(init, pt);
      assert points == init + [pt] && PointOk(pt);
      var saved: int;
      saved, pattern, low, high := PopPlaces(Flat(init), pt);
      str := if saved != NULL then saved else str0;
      PopRegisters(low, high, regstart, regend, reginfo, Flat(init), pt.regs);
      points := init;
    }

    method PopPlaces(ghost base: seq<int>, ghost pt: Point) returns (str: int, pattern: int, low: nat, high: nat)
      requires avail <= stack.Length && stack[..avail] == base + Items(pt)
      modifies this`avail
      ensures str == pt.str && pattern == pt.pattern && low == pt.low && high == pt.high
      ensures avail <= stack.Length && stack[..avail] == base + RegItems(pt.regs)
    {
      hide Items, RegItems;
      Regroup(base, pt);
      ghost var rest := base + RegItems(pt.regs);
      str := PopItem();
      TopIs(stack[..avail], str, rest + [pt.low] + [pt.high] + [pt.pattern], pt.str);
      pattern := PopItem();
      TopIs(stack[..avail], pattern, rest + [pt.low] + [pt.high], pt.pattern);
      var h := PopItem();
      TopIs(stack[..avail], h, rest + [pt.low], pt.high);
      var l := PopItem();
      TopIs(stack[..avail], l, rest, pt.low);
      low, high := l, h;
    }

    method PopRegisters(low: nat, high: nat, regstart: array<int>, regend: array<int>, reginfo: array<int>,
                        ghost base: seq<int>, ghost regs: seq<Register>)
      requires 1 <= low <= high + 1 && |regs| == high + 1 - low
      requires regstart.Length == regend.Length == reginfo.Length && (low <= high ==> high < regstart.Length)
      requires avail <= stack.Length && stack[..avail] == base + RegItems(regs)
      requires regstart != regend && regstart != reginfo && regend != reginfo
      requires stack != regstart && stack != regend && stack != reginfo
      modifies this`avail, regstart, regend, reginfo
      ensures avail <= stack.Length && stack[..avail] == base
      ensures Registers(regstart, regend, reginfo, low, high) == regs
      ensures forall r :: 0 <= r < regstart.Length && !(low <= r <= high) ==>
        regstart[r] == old(regstart[r]) && regend[r] == old(regend[r]) && reginfo[r] == old(reginfo[r])
    {
      hide RegItems;
      var n := high + 1;
      assert regs[..n - low] == regs;
      while n > low
        invariant low <= n <= high + 1 && avail <= stack.Length && stack[..avail] == base + RegItems(regs[..n - low])
        invariant forall r :: n <= r <= high ==> Register(regstart[r], regend[r], reginfo[r]) == regs[r - low]
        invariant forall r :: 0 <= r < regstart.Length && !(n <= r <= high) ==>
          regstart[r] == old(regstart[r]) && regend[r] == old(regend[r]) && reginfo[r] == old(reginfo[r])
      {
        n := n - 1;
        regstart[n], regend[n], reginfo[n] := PopRegister(base, regs, n - low);
      }
      NoItems(base, regs);
    }

    method PopRegister(ghost base: seq<int>, ghost regs: seq<Register>, ghost k: nat)
      returns (start: int, end: int, info: int)
      requires k < |regs| && avail <= stack.Length && stack[..avail] == base + RegItems(regs[..k + 1])
      modifies this`avail
      ensures avail <= stack.Length && stack[..avail] == base + RegItems(regs[..k])
      ensures Register(start, end, info) == regs[k]
    {
      hide RegItems;
      NextItems(base, regs, k);
      ghost var rest := base + RegItems(regs[..k]);
      info := PopItem();
      TopIs(stack[..avail], info, rest + [regs[k].start] + [regs[k].end], regs[k].info);
      end := PopItem();
      TopIs(stack[..avail], end, rest + [regs[k].start], regs[k].end);
      start := PopItem();
      TopIs(stack[..avail], start, rest, regs[k].start);
    }
  }

  /** A sequence has one last element. */
  lemma TopIs(rest: seq<int>, x: int, rest': seq<int>, x': int)
    requires rest + [x] == rest' + [x']
    ensures rest == rest' && x == x'
  {
    var s := rest + [x];
    assert s[|s| - 1] == x && (rest' + [x'])[|s| - 1] == x';
    assert s[..|s| - 1] == rest && (rest' + [x'])[..|s| - 1] == rest';
  }

  lemma NoItems(done: seq<int>, regs: seq<Register>)
    ensures done == done + RegItems(regs[..0])
  {
  }

  lemma NextItems(done: seq<int>, regs: seq<Register>, k: nat)
    requires k < |regs|
    ensures done + RegItems(regs[..k]) + [regs[k].start] + [regs[k].end] + [regs[k].info] ==
      done + RegItems(regs[..k + 1])
  {
    assert regs[..k + 1][..k] == regs[..k];
  }
}
