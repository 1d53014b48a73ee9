/** The sorted list of cron jobs, and running those that are due
    (_crontab_insert_sorted and cronjob_run, libwzd-core/wzd_crontab.c). */
module CronTab {
  import opened CronDate
  import opened LinkedList

  /** A job, by the number of its hook. */
  datatype Job = Job(hook: nat, nextRun: int, spec: Spec)

  predicate Sorted(jobs: seq<Job>) {
    forall i, j :: 0 <= i < j < |jobs| ==> jobs[i].nextRun <= jobs[j].nextRun
  }

  // ----- Insertion -----

  function PlaceFrom(jobs: seq<Job>, job: Job, k: nat): (p: nat)
    requires k < |jobs|
    ensures k < p <= |jobs|
    decreases |jobs| - k
  {
    if k + 1 < |jobs| && job.nextRun > jobs[k + 1].nextRun then PlaceFrom(jobs, job, k + 1) else k + 1
  }

  /** Where the code inserts: before the head if the job is earlier than it, else
      before the first later entry that is not earlier than the job. */
  function Place(jobs: seq<Job>, job: Job): (p: nat)
    ensures p <= |jobs|
  {
    if jobs == [] || job.nextRun < jobs[0].nextRun then 0 else PlaceFrom(jobs, job, 0)
  }

  function Inserted(jobs: seq<Job>, job: Job): (r: seq<Job>)
    ensures |r| == |jobs| + 1
  {
    jobs[..Place(jobs, job)] + [job] + jobs[Place(jobs, job)..]
  }

  lemma PlaceHead(jobs: seq<Job>, job: Job)
    ensures jobs == [] || job.nextRun < jobs[0].nextRun ==> Place(jobs, job) == 0
    ensures jobs != [] && job.nextRun >= jobs[0].nextRun ==> Place(jobs, job) == PlaceFrom(jobs, job, 0)
  {
  }

  lemma PlaceStep(jobs: seq<Job>, job: Job, k: nat)
    requires k < |jobs|
    ensures PlaceFrom(jobs, job, k) ==
            if k + 1 < |jobs| && job.nextRun > jobs[k + 1].nextRun then PlaceFrom(jobs, job, k + 1) else k + 1
  {
  }

  lemma {:induction false} PlaceFromSplits(jobs: seq<Job>, job: Job, k: nat)
    requires Sorted(jobs) && k < |jobs| && jobs[k].nextRun <= job.nextRun
    ensures var p := PlaceFrom(jobs, job, k);
      jobs[p - 1].nextRun <= job.nextRun && (p < |jobs| ==> job.nextRun <= jobs[p].nextRun)
    decreases |jobs| - k
  {
    if k + 1 < |jobs| && job.nextRun > jobs[k + 1].nextRun { PlaceFromSplits(jobs, job, k + 1); }
  }

  lemma PlaceSplits(jobs: seq<Job>, job: Job)
    requires Sorted(jobs)
    ensures var p := Place(jobs, job);
      (p > 0 ==> jobs[p - 1].nextRun <= job.nextRun) && (p < |jobs| ==> job.nextRun <= jobs[p].nextRun)
  {
    if Place(jobs, job) > 0 { PlaceFromSplits(jobs, job, 0); }
  }

  lemma {:induction false} PlaceFromExactly(jobs: seq<Job>, job: Job, k: nat, i: nat)
    requires Sorted(jobs) && k < |jobs| && k < i < |jobs|
    ensures i < PlaceFrom(jobs, job, k) <==> jobs[i].nextRun < job.nextRun
    decreases |jobs| - k
  {
    if job.nextRun > jobs[k + 1].nextRun && i > k + 1 { PlaceFromExactly(jobs, job, k + 1, i); }
  }

  /** Where in a sorted list a job goes: after the jobs that are earlier, and before those
      that are not, except that it never goes before a head of the same time. */
  lemma PlaceExactly(jobs: seq<Job>, job: Job, i: nat)
    requires Sorted(jobs) && i < |jobs|
    ensures i < Place(jobs, job) <==> jobs[i].nextRun < job.nextRun || (i == 0 && jobs[0].nextRun == job.nextRun)
  {
    if job.nextRun >= jobs[0].nextRun && i > 0 { PlaceFromExactly(jobs, job, 0, i); }
  }

  lemma SortedSplice(a: seq<Job>, job: Job, b: seq<Job>)
    requires Sorted(a + b)
    requires a != [] ==> a[|a| - 1].nextRun <= job.nextRun
    requires b != [] ==> job.nextRun <= b[0].nextRun
    ensures Sorted(a + [job] + b)
  {
    var all, r := a + b, a + [job] + b;
    forall i, j | 0 <= i < j < |r|
      ensures r[i].nextRun <= r[j].nextRun
    {
      var i', j' := if i < |a| then i else i - 1, if j < |a| then j else j - 1;
      if i == |a| {
        assert all[|a|].nextRun <= all[j'].nextRun || j' == |a|;
      } else if j == |a| {
        assert all[i'].nextRun <= all[|a| - 1].nextRun || i' == |a| - 1;
      } else {
        assert all[i'].nextRun <= all[j'].nextRun;
      }
    }
  }

  lemma SpliceContents(a: seq<Job>, job: Job, b: seq<Job>)
    ensures multiset(a + [job] + b) == multiset(a + b) + multiset{job}
  {
  }

  /** Insertion keeps the list sorted. */
  lemma InsertedSorted(jobs: seq<Job>, job: Job)
    requires Sorted(jobs)
    ensures Sorted(Inserted(jobs, job))
  {
    var p := Place(jobs, job);
    PlaceSplits(jobs, job);
    hide Sorted, Place;
    assert jobs == jobs[..p] + jobs[p..];
    SortedSplice(jobs[..p], job, jobs[p..]);
  }

  /** Insertion adds just the job. */
  lemma InsertedContents(jobs: seq<Job>, job: Job)
    ensures multiset(Inserted(jobs, job)) == multiset(jobs) + multiset{job}
  {
    var p := Place(jobs, job);
    hide Place;
    assert jobs == jobs[..p] + jobs[p..];
    SpliceContents(jobs[..p], job, jobs[p..]);
  }

  // ----- Running -----

  /** How many jobs at the head of the list are due. */
  function DueCount(jobs: seq<Job>, now: int): (n: nat)
    ensures n <= |jobs|
  {
    if jobs == [] || now < jobs[0].nextRun then 0 else 1 + DueCount(jobs[1..], now)
  }

  /** In a sorted list those are exactly the due jobs. */
  lemma {:induction false} DueExactly(jobs: seq<Job>, now: int, i: nat)
    requires Sorted(jobs) && i < |jobs|
    ensures i < DueCount(jobs, now) <==> jobs[i].nextRun <= now
  {
    if now >= jobs[0].nextRun && i > 0 { DueExactly(jobs[1..], now, i - 1); }
  }

  function Hooks(jobs: seq<Job>): seq<nat> { seq(|jobs|, i requires 0 <= i < |jobs| => jobs[i].hook) }

  /** The first `n` jobs marked as done. */
  function Marked(jobs: seq<Job>, n: nat): (r: seq<Job>)
    requires n <= |jobs|
    ensures |r| == |jobs|
  {
    seq(|jobs|, i requires 0 <= i < |jobs| => if i < n then jobs[i].(nextRun := 0) else jobs[i])
  }

  lemma NoneDone(jobs: seq<Job>, now: int)
    ensures Hooks(jobs[..0]) == [] && Marked(jobs, 0) == jobs && DueCount(jobs[0..], now) == DueCount(jobs, now)
  {
    assert jobs[0..] == jobs;
  }

  lemma OneMoreDone(jobs: seq<Job>, now: int, k: nat)
    requires k < |jobs|
    ensures Hooks(jobs[..k + 1]) == Hooks(jobs[..k]) + [jobs[k].hook] && Marked(jobs, k)[k] == jobs[k]
    ensures now >= jobs[k].nextRun ==> DueCount(jobs[k..], now) == 1 + DueCount(jobs[k + 1..], now)
  {
    assert jobs[k..][1..] == jobs[k + 1..] && jobs[k..][0] == jobs[k];
    assert jobs[..k + 1] == jobs[..k] + [jobs[k]];
  }

  lemma AllDone(jobs: seq<Job>, now: int, k: nat)
    requires k <= |jobs| && k + DueCount(jobs[k..], now) == DueCount(jobs, now)
    requires k < |jobs| ==> now < Marked(jobs, k)[k].nextRun
    ensures DueCount(jobs, now) == k
  {
  }

  function Zeros(jobs: seq<Job>): nat {
    if jobs == [] then 0 else (if jobs[0].nextRun == 0 then 1 else 0) + Zeros(jobs[1..])
  }

  lemma {:induction false} ZerosConcat(a: seq<Job>, b: seq<Job>)
    ensures Zeros(a + b) == Zeros(a) + Zeros(b)
  {
    if a == [] {
      assert a + b == b;
    } else {
      assert (a + b)[1..] == a[1..] + b;
      ZerosConcat(a[1..], b);
    }
  }

  lemma ZerosInserted(jobs: seq<Job>, job: Job)
    ensures Zeros(Inserted(jobs, job)) == Zeros(jobs) + if job.nextRun == 0 then 1 else 0
  {
    var p := Place(jobs, job);
    ZerosConcat(jobs[..p] + [job], jobs[p..]);
    ZerosConcat(jobs[..p], [job]);
    ZerosConcat(jobs[..p], jobs[p..]);
    assert jobs == jobs[..p] + jobs[p..];
  }

  /** A job as the requeue loop sees it again: with its recomputed date. */
  function Redated(job: Job, now: int, zone: int): Job
    requires DayAt(now, zone) >= 0
  {
    job.(nextRun := NextRun(now, zone, job.spec))
  }

  /** The requeue loop: while the head is marked, take it off, recompute its date, and
      put it back unless that is 0. */
  function Requeued(jobs: seq<Job>, now: int, zone: int): seq<Job>
    requires DayAt(now, zone) >= 0
    decreases Zeros(jobs)
  {
    if jobs == [] || jobs[0].nextRun != 0 then jobs
    else
      var job := Redated(jobs[0], now, zone);
      ZerosInserted(jobs[1..], job);
      if job.nextRun != 0 then Requeued(Inserted(jobs[1..], job), now, zone) else Requeued(jobs[1..], now, zone)
  }

  /** What the loop has left when it has dealt with the head. */
  function AfterHead(jobs: seq<Job>, now: int, zone: int): seq<Job>
    requires DayAt(now, zone) >= 0 && jobs != []
  {
    var job := Redated(jobs[0], now, zone);
    if job.nextRun != 0 then Inserted(jobs[1..], job) else jobs[1..]
  }

  lemma RequeuedStep(jobs: seq<Job>, now: int, zone: int)
    requires DayAt(now, zone) >= 0 && jobs != [] && jobs[0].nextRun == 0
    ensures Requeued(jobs, now, zone) == Requeued(AfterHead(jobs, now, zone), now, zone)
    ensures Zeros(AfterHead(jobs, now, zone)) < Zeros(jobs)
  {
    hide NextRun, Inserted;
    ZerosInserted(jobs[1..], Redated(jobs[0], now, zone));
  }

  lemma RequeuedStops(jobs: seq<Job>, now: int, zone: int)
    requires DayAt(now, zone) >= 0 && (jobs == [] || jobs[0].nextRun != 0)
    ensures Requeued(jobs, now, zone) == jobs
  {
  }

  // ----- What the requeue loop keeps -----

  /** What is to become of one entry: a marked one is redated, or dropped if its date is 0. */
  function Fate(job: Job, now: int, zone: int): multiset<Job>
    requires DayAt(now, zone) >= 0
  {
    if job.nextRun != 0 then multiset{job}
    else if Redated(job, now, zone).nextRun != 0 then multiset{Redated(job, now, zone)}
    else multiset{}
  }

  function Fates(jobs: seq<Job>, now: int, zone: int): multiset<Job>
    requires DayAt(now, zone) >= 0
  {
    if jobs == [] then multiset{} else Fate(jobs[0], now, zone) + Fates(jobs[1..], now, zone)
  }

  lemma {:induction false} FatesConcat(a: seq<Job>, b: seq<Job>, now: int, zone: int)
    requires DayAt(now, zone) >= 0
    ensures Fates(a + b, now, zone) == Fates(a, now, zone) + Fates(b, now, zone)
  {
    hide Fate;
    if a == [] {
      assert a + b == b;
    } else {
      assert (a + b)[1..] == a[1..] + b;
      FatesConcat(a[1..], b, now, zone);
    }
  }

  lemma FatesInserted(jobs: seq<Job>, job: Job, now: int, zone: int)
    requires DayAt(now, zone) >= 0
    ensures Fates(Inserted(jobs, job), now, zone) == Fates(jobs, now, zone) + Fate(job, now, zone)
  {
    hide Fate;
    var p := Place(jobs, job);
    FatesConcat(jobs[..p] + [job], jobs[p..], now, zone);
    FatesConcat(jobs[..p], [job], now, zone);
    FatesConcat(jobs[..p], jobs[p..], now, zone);
    assert jobs == jobs[..p] + jobs[p..];
    assert [job][1..] == [];
  }

  lemma {:induction false} RequeuedKeeps(jobs: seq<Job>, now: int, zone: int)
    requires DayAt(now, zone) >= 0 && Sorted(jobs)
    ensures Sorted(Requeued(jobs, now, zone)) && Fates(Requeued(jobs, now, zone), now, zone) == Fates(jobs, now, zone)
    decreases Zeros(jobs)
  {
    hide NextRun, Inserted;
    if jobs != [] && jobs[0].nextRun == 0 {
      var job := Redated(jobs[0], now, zone);
      ZerosInserted(jobs[1..], job);
      InsertedSorted(jobs[1..], job);
      FatesInserted(jobs[1..], job, now, zone);
      if job.nextRun != 0 {
        RequeuedKeeps(Inserted(jobs[1..], job), now, zone);
      } else {
        RequeuedKeeps(jobs[1..], now, zone);
      }
    }
  }

  /** Nothing is left to do in a list exactly when no entry is marked. */
  lemma {:induction false} FatesSettled(jobs: seq<Job>, now: int, zone: int)
    requires DayAt(now, zone) >= 0
    ensures Zeros(jobs) == 0 ==> Fates(jobs, now, zone) == multiset(jobs)
    ensures forall j :: j in Fates(jobs, now, zone) ==> j.nextRun != 0
  {
    hide NextRun;
    if jobs != [] {
      FatesSettled(jobs[1..], now, zone);
      assert jobs == [jobs[0]] + jobs[1..];
    }
  }

  lemma {:induction false} ZeroInside(jobs: seq<Job>)
    requires Zeros(jobs) > 0
    ensures exists j :: j in multiset(jobs) && j.nextRun == 0
  {
    assert jobs == [jobs[0]] + jobs[1..];
    if jobs[0].nextRun == 0 {
      assert jobs[0] in multiset(jobs);
    } else {
      ZeroInside(jobs[1..]);
      var j :| j in multiset(jobs[1..]) && j.nextRun == 0;
      assert j in multiset(jobs);
    }
  }

  // ----- When the loop gets through -----

  /** A list whose first `n` entries are marked and whose others come later than 0. */
  predicate MarkedList(jobs: seq<Job>, n: nat) {
    n <= |jobs| && Sorted(jobs) &&
    (forall i :: 0 <= i < n ==> jobs[i].nextRun == 0) && (forall i :: n <= i < |jobs| ==> jobs[i].nextRun > 0)
  }

  /** Some marked job but the last is redated to before 1970. */
  predicate Blocked(jobs: seq<Job>, n: nat, now: int, zone: int)
    requires n <= |jobs| && DayAt(now, zone) >= 0
  {
    exists i :: 0 <= i < n - 1 && Redated(jobs[i], now, zone).nextRun < 0
  }

  lemma {:induction false} ZerosMarked(jobs: seq<Job>, n: nat)
    requires MarkedList(jobs, n)
    ensures Zeros(jobs) == n
  {
    if jobs != [] { ZerosMarked(jobs[1..], if n > 0 then n - 1 else 0); }
  }

  lemma {:induction false} PlacePastZeros(jobs: seq<Job>, n: nat, job: Job, k: nat)
    requires MarkedList(jobs, n) && job.nextRun > 0 && k < n
    ensures PlaceFrom(jobs, job, k) >= n
    decreases n - k
  {
    if k + 1 < n { PlacePastZeros(jobs, n, job, k + 1); }
  }

  lemma InsertedMarked(jobs: seq<Job>, n: nat, job: Job)
    requires MarkedList(jobs, n) && job.nextRun > 0
    ensures MarkedList(Inserted(jobs, job), n) && Inserted(jobs, job)[..n] == jobs[..n]
  {
    InsertedSorted(jobs, job);
    if n > 0 { PlacePastZeros(jobs, n, job, 0); }
  }

  lemma HeadDone(jobs: seq<Job>, n: nat, now: int, zone: int)
    requires DayAt(now, zone) >= 0 && MarkedList(jobs, n) && n > 0 && Redated(jobs[0], now, zone).nextRun >= 0
    ensures var rest := AfterHead(jobs, now, zone);
      MarkedList(rest, n - 1) && Requeued(jobs, now, zone) == Requeued(rest, now, zone) &&
      (Blocked(jobs, n, now, zone) <==> Blocked(rest, n - 1, now, zone))
  {
    hide NextRun;
    var job, rest := Redated(jobs[0], now, zone), jobs[1..];
    assert MarkedList(rest, n - 1) && rest[..n - 1] == jobs[1..n];
    if job.nextRun > 0 { InsertedMarked(rest, n - 1, job); }
    hide Inserted;
    BlockedRest(jobs, n, AfterHead(jobs, now, zone), now, zone);
  }

  /** The loop leaves no entry marked exactly when no marked job but the last is
      redated to before 1970; otherwise it stops at that job. */
  lemma {:induction false} RequeuedExact(jobs: seq<Job>, n: nat, now: int, zone: int)
    requires DayAt(now, zone) >= 0 && MarkedList(jobs, n)
    ensures Zeros(Requeued(jobs, now, zone)) == 0 <==> !Blocked(jobs, n, now, zone)
    decreases n
  {
    if n == 0 {
      ZerosMarked(jobs, n);
    } else if Redated(jobs[0], now, zone).nextRun < 0 {
      BlockedHead(jobs, n, now, zone);
    } else {
      HeadDone(jobs, n, now, zone);
      hide Blocked, Requeued, MarkedList;
      RequeuedExact(AfterHead(jobs, now, zone), n - 1, now, zone);
    }
  }

  lemma BlockedRest(jobs: seq<Job>, n: nat, rest: seq<Job>, now: int, zone: int)
    requires 0 < n <= |jobs| && n - 1 <= |rest| && rest[..n - 1] == jobs[1..n] && DayAt(now, zone) >= 0
    requires Redated(jobs[0], now, zone).nextRun >= 0
    ensures Blocked(jobs, n, now, zone) <==> Blocked(rest, n - 1, now, zone)
  {
    hide NextRun;
    assert forall i :: 0 <= i < n - 1 ==> rest[i] == rest[..n - 1][i] == jobs[1..n][i] == jobs[i + 1];
    if Blocked(jobs, n, now, zone) {
      var i :| 0 <= i < n - 1 && Redated(jobs[i], now, zone).nextRun < 0;
      assert Redated(rest[i - 1], now, zone).nextRun < 0;
    }
    if Blocked(rest, n - 1, now, zone) {
      var i :| 0 <= i < n - 1 - 1 && Redated(rest[i], now, zone).nextRun < 0;
      assert Redated(jobs[i + 1], now, zone).nextRun < 0;
    }
  }

  lemma BlockedHead(jobs: seq<Job>, n: nat, now: int, zone: int)
    requires DayAt(now, zone) >= 0 && MarkedList(jobs, n) && n > 0 && Redated(jobs[0], now, zone).nextRun < 0
    ensures Zeros(Requeued(jobs, now, zone)) == n - 1
    ensures Blocked(jobs, n, now, zone) <==> n > 1
  {
    hide NextRun;
    var job, rest := Redated(jobs[0], now, zone), jobs[1..];
    ZerosInserted(rest, job);
    ZerosMarked(rest, n - 1);
    assert Inserted(rest, job)[0] == job;
  }

  /** Running the due jobs of a sorted list leaves a sorted list: the jobs that were
      not due, and those that were with their new dates, without the ones whose new
      date is 0. That is so if and only if the requeue loop is not blocked. */
  lemma RunOutcome(jobs: seq<Job>, now: int, zone: int)
    requires DayAt(now, zone) >= 0 && Sorted(jobs) && 0 <= now
    ensures var marked := Marked(jobs, DueCount(jobs, now));
      Sorted(Requeued(marked, now, zone)) &&
      (multiset(Requeued(marked, now, zone)) == Fates(marked, now, zone) <==>
        !Blocked(marked, DueCount(jobs, now), now, zone))
  {
    var n := DueCount(jobs, now);
    var marked := Marked(jobs, n);
    forall i | 0 <= i < |jobs| { DueExactly(jobs, now, i); }
    assert MarkedList(marked, n);
    hide Requeued, Fates, Blocked;
    RequeuedKeeps(marked, now, zone);
    RequeuedExact(marked, n, now, zone);
    var r := Requeued(marked, now, zone);
    FatesSettled(r, now, zone);
    if Zeros(r) > 0 { ZeroInside(r); }
  }

  /** From the second day of 1970 on, no job whose fields are in range is redated to
      before 1970, so such jobs block nothing. */
  lemma InRangeNotBlocked(jobs: seq<Job>, n: nat, now: int, zone: int)
    requires DayAt(now, zone) >= 0 && n <= |jobs| && 86400 <= now
    requires forall i :: 0 <= i < n ==> jobs[i].spec.minutes == "ONCE" || FieldsInRange(jobs[i].spec)
    ensures !Blocked(jobs, n, now, zone)
  {
    hide FieldsInRange;
    forall i | 0 <= i < n
      ensures Redated(jobs[i], now, zone).nextRun >= 0
    {
      if jobs[i].spec.minutes != "ONCE" { RunsNoDayBefore(now, zone, jobs[i].spec); }
    }
  }

  /** The fields of a job redate it to before 1970: its month field reaches back that far. */
  predicate FieldsReachBack(job: Job, now: int)
    requires DayAt(now, 0) >= 0
  {
    job.spec.minutes != "ONCE" &&
    ReachesBack(Localtime(now, 0), FieldValue(job.spec.day), MonthValue(job.spec.month))
  }

  /** Jobs whose time of day and day are in range block the loop exactly when the month
      field of one of them but the last reaches back before 1970. */
  lemma BlockedByMonth(jobs: seq<Job>, n: nat, now: int)
    requires DayAt(now, 0) >= 0 && n <= |jobs| && 0 <= now
    requires forall i :: 0 <= i < n ==> jobs[i].spec.minutes == "ONCE" || TimeInRange(jobs[i].spec)
    ensures Blocked(jobs, n, now, 0) <==> exists i :: 0 <= i < n - 1 && FieldsReachBack(jobs[i], now)
  {
    hide TimeInRange, ReachesBack, Localtime;
    forall i | 0 <= i < n
      ensures Redated(jobs[i], now, 0).nextRun < 0 <==> FieldsReachBack(jobs[i], now)
    {
      if jobs[i].spec.minutes != "ONCE" { RedatedBack(now, jobs[i].spec); }
    }
    hide Redated;
  }

  /** Up to the year 3000 a due job for month -24000 stops the loop, and a job due after it
      stays marked. */
  lemma FarBackBlocks(job: Job, other: Job, now: int)
    requires job.spec == Spec("*", "*", "*", "-24000") && 0 < job.nextRun <= other.nextRun <= now < YEAR_3000
    ensures DayAt(now, 0) >= 0
    ensures var marked := Marked([job, other], DueCount([job, other], now));
      Blocked(marked, 2, now, 0) && Zeros(Requeued(marked, now, 0)) == 1
  {
    MonthFarBack(now);
    hide NextRun, Requeued, Blocked, Zeros, DayAt, DueCount, Marked, MarkedList;
    BothDue(job, other, now);
    var marked := Marked([job, other], 2);
    BlockedHead(marked, 2, now, 0);
  }

  lemma BothDue(job: Job, other: Job, now: int)
    requires job.nextRun <= now && other.nextRun <= now
    ensures DueCount([job, other], now) == 2 && MarkedList(Marked([job, other], 2), 2)
    ensures Marked([job, other], 2)[0] == job.(nextRun := 0)
  {
    assert [job, other][1..] == [other] && [other][1..] == [];
    assert DueCount([other], now) == 1;
  }

  // ----- The list in place -----

  lemma InsertedAt(jobs: seq<Job>, job: Job)
    ensures Inserted(jobs, job) == InsertAt(jobs, Place(jobs, job), job)
  {
  }

  /** The nodes to be freed are those of jobs that will not run again. */
  ghost predicate Freed(nodes: seq<Node<Job>>)
    reads nodes
  {
    forall i :: 0 <= i < |nodes| ==> nodes[i].data.nextRun == 0
  }

  lemma FreedMore(nodes: seq<Node<Job>>, job: Node<Job>)
    requires Freed(nodes) && job.data.nextRun == 0
    ensures Freed(InsertAt(nodes, 0, job))
  {
  }

  lemma NoNodes()
    ensures Linked<Job>([]) && Freed([])
  {
  }

  lemma InsertNodes(nodes: seq<Node<Job>>, p: nat, job: Node<Job>)
    requires p <= |nodes|
    ensures multiset(InsertAt(nodes, p, job)) == multiset(nodes) + multiset{job}
  {
    assert nodes == nodes[..p] + nodes[p..];
  }

  lemma FirstNode(spine: seq<Node<Job>>, jobs: seq<Job>)
    requires spine != [] && |jobs| == |spine|
    ensures RemoveAt(spine, 0) == spine[1..] && RemoveAt(jobs, 0) == jobs[1..]
    ensures multiset(spine) == multiset(spine[1..]) + multiset{spine[0]}
    ensures Distinct(spine) ==> spine[0] !in spine[1..]
  {
    assert spine == [spine[0]] + spine[1..];
  }

  lemma LinkedDistinct(spine: seq<Node<Job>>)
    requires Linked(spine)
    ensures Distinct(spine)
  {
  }

  /** Two chains made of the nodes of one have no node in common. */
  lemma OneList(spine: seq<Node<Job>>, freed: seq<Node<Job>>, was: seq<Node<Job>>)
    requires multiset(spine) + multiset(freed) == multiset(was) && Distinct(was)
    ensures forall i :: 0 <= i < |freed| ==> freed[i] !in spine
    ensures forall i :: 0 <= i < |spine| ==> spine[i] in was
  {
    forall n | n in spine
      ensures n !in freed
    {
      OnlyOnce(was, n);
      assert multiset(spine)[n] >= 1;
      assert n in freed ==> multiset(freed)[n] >= 1;
    }
    forall i | 0 <= i < |spine|
      ensures spine[i] in was
    {
      assert spine[i] in multiset(was);
    }
  }

  lemma {:induction false} OnlyOnce(was: seq<Node<Job>>, n: Node<Job>)
    requires Distinct(was)
    ensures multiset(was)[n] <= 1
    decreases |was|
  {
    if was != [] {
      OnlyOnce(was[1..], n);
      assert was == [was[0]] + was[1..];
      if was[0] == n { assert n !in was[1..]; }
    }
  }

  /** The jobs as a chain of heap nodes. */
  class Crontab {
    var crontab: Node?<Job>
    ghost var spine: seq<Node<Job>>

    ghost predicate Valid()
      reads this, spine
    {
      Linked(spine) && crontab == NodeAt(spine, 0)
    }

    ghost function Jobs(): (jobs: seq<Job>)
      reads this, spine
      ensures |jobs| == |spine|
    {
      Contents(spine)
    }

    constructor ()
      ensures Valid() && spine == []
    {
      crontab, spine := null, [];
    }

    lemma NodeFacts(k: nat)
      requires Valid() && k < |spine|
      ensures spine[k].next == NodeAt(spine, k + 1) && spine[k].data == Jobs()[k]
    {
    }

    /** The node after which a job belongs, NULL for the head. */
    method FindPlace(job: Job) returns (current: Node?<Job>, ghost p: nat)
      requires Valid()
      ensures p == Place(Jobs(), job) && current == Before(spine, p)
    {
      hide Linked, Contents, Place, PlaceFrom;
      PlaceHead(Jobs(), job);
      if spine != [] { NodeFacts(0); }
      if crontab == null || job.nextRun < crontab.data.nextRun {
        return null, 0;
      }
      current := crontab;
      ghost var k := 0;
      if 1 < |spine| { NodeFacts(1); }
      while current.next != null && job.nextRun > current.next.data.nextRun
        invariant 0 <= k < |spine| && current == spine[k] && current.next == NodeAt(spine, k + 1)
        invariant k + 1 < |spine| ==> spine[k + 1].data == Jobs()[k + 1]
        invariant PlaceFrom(Jobs(), job, k) == Place(Jobs(), job)
        decreases |spine| - k
      {
        PlaceStep(Jobs(), job, k);
        current, k := current.next, k + 1;
        NodeFacts(k);
        if k + 1 < |spine| { NodeFacts(k + 1); }
      }
      PlaceStep(Jobs(), job, k);
      p := k + 1;
    }

    /** _crontab_insert_sorted: relinks the node of a job into the list. */
    method InsertSorted(job: Node<Job>) returns (ghost p: nat)
      requires Valid() && job !in spine
      modifies this, spine, job
      ensures Valid() && p <= |old(spine)| && spine == InsertAt(old(spine), p, job)
      ensures Jobs() == Inserted(old(Jobs()), old(job.data)) && job.data == old(job.data)
    {
      hide InsertAt, Linked, Inserted, Place, Contents;
      ghost var was, jobs := spine, Jobs();
      InsertedAt(jobs, job.data);
      var current;
      current, p := FindPlace(job.data);
      InsertEnds(was, p, job);
      if current == null {
        LinkHead(crontab, job, was);
        crontab := job;
      } else {
        LinkAfter(current, job, was, p);
      }
      spine := InsertAt(was, p, job);
    }

    /** Executes exactly the jobs that are due, each once and in order, and requeues
        them. The nodes of the jobs that will not run again end up in a list to be freed;
        no node is lost. */
    method Run(now: int, zone: int) returns (executed: seq<nat>, jobsToFree: Node?<Job>, ghost freed: seq<Node<Job>>)
      requires Valid() && Sorted(Jobs()) && 0 <= now && DayAt(now, zone) >= 0
      modifies this, spine
      ensures Valid() && Linked(freed) && jobsToFree == NodeAt(freed, 0)
      ensures executed == Hooks(old(Jobs())[..DueCount(old(Jobs()), now)])
      ensures forall i :: 0 <= i < |old(Jobs())| ==> (i < DueCount(old(Jobs()), now) <==> old(Jobs())[i].nextRun <= now)
      ensures var marked := Marked(old(Jobs()), DueCount(old(Jobs()), now));
        Sorted(Jobs()) &&
        (multiset(Jobs()) == Fates(marked, now, zone) <==> !Blocked(marked, DueCount(old(Jobs()), now), now, zone))
      ensures multiset(spine) + multiset(freed) == multiset(old(spine)) && Freed(freed)
    {
      hide NextRun, DayAt, Sorted, Linked, Requeued, Fates, Blocked;
      RunOutcome(Jobs(), now, zone);
      forall i | 0 <= i < |Jobs()| { DueExactly(Jobs(), now, i); }
      executed := RunDue(now);
      jobsToFree, freed := Requeue(now, zone);
    }

    method RunDue(now: int) returns (executed: seq<nat>)
      requires Valid()
      modifies spine
      ensures Valid() && executed == Hooks(old(Jobs())[..DueCount(old(Jobs()), now)])
      ensures Jobs() == Marked(old(Jobs()), DueCount(old(Jobs()), now))
    {
      hide Linked, Contents, Hooks, Marked, DueCount;
      executed := [];
      var job := crontab;
      ghost var k, before := 0, Jobs();
      NoneDone(before, now);
      while job != null && now >= job.data.nextRun
        invariant 0 <= k <= |spine| == |before| && job == NodeAt(spine, k) && Valid()
        invariant executed == Hooks(before[..k]) && Jobs() == Marked(before, k)
        invariant k + DueCount(before[k..], now) == DueCount(before, now)
        decreases |spine| - k
      {
        OneMoreDone(before, now, k);
        NodeFacts(k);
        executed := executed + [job.data.hook];
        MarkNode(job, k, before);
        job, k := job.next, k + 1;
      }
      if k < |spine| { NodeFacts(k); }
      AllDone(before, now, k);
    }

    /** Marks one node as done; the links stay. */
    method MarkNode(job: Node<Job>, ghost k: nat, ghost before: seq<Job>)
      requires Valid() && k < |spine| == |before| && job == spine[k] && Jobs() == Marked(before, k)
      modifies job`data
      ensures Valid() && Jobs() == Marked(before, k + 1) && job.next == NodeAt(spine, k + 1)
    {
      assert job.data == Jobs()[k] == before[k];
      job.data := job.data.(nextRun := 0);
    }

    /** The second loop of cronjob_run. */
    method Requeue(now: int, zone: int) returns (jobsToFree: Node?<Job>, ghost freed: seq<Node<Job>>)
      requires DayAt(now, zone) >= 0 && Valid()
      modifies this, spine
      ensures Valid() && Linked(freed) && jobsToFree == NodeAt(freed, 0)
      ensures Jobs() == Requeued(old(Jobs()), now, zone)
      ensures multiset(spine) + multiset(freed) == multiset(old(spine)) && Freed(freed)
    {
      hide NextRun, Linked, Contents, Requeued, Zeros, DayAt, AfterHead, Distinct;
      jobsToFree, freed := null, [];
      NoNodes();
      ghost var was := spine;
      LinkedDistinct(was);
      while crontab != null && crontab.data.nextRun == 0
        invariant Valid() && Linked(freed) && jobsToFree == NodeAt(freed, 0) && Freed(freed)
        invariant Requeued(Jobs(), now, zone) == Requeued(old(Jobs()), now, zone)
        invariant multiset(spine) + multiset(freed) == multiset(was)
        decreases Zeros(Jobs())
      {
        NodeFacts(0);
        OneList(spine, freed, was);
        RequeuedStep(Jobs(), now, zone);
        jobsToFree, freed := RequeueHead(now, zone, jobsToFree, freed);
      }
      if spine != [] { NodeFacts(0); }
      RequeuedStops(Jobs(), now, zone);
    }

    /** One round: the head is redated and goes back into the list, or to the ones to be freed. */
    method RequeueHead(now: int, zone: int, toFree: Node?<Job>, ghost freed0: seq<Node<Job>>)
      returns (jobsToFree: Node?<Job>, ghost freed: seq<Node<Job>>)
      requires DayAt(now, zone) >= 0 && Valid() && spine != [] && Freed(freed0)
      requires Linked(freed0) && toFree == NodeAt(freed0, 0) && forall i :: 0 <= i < |freed0| ==> freed0[i] !in spine
      modifies this, spine
      ensures Valid() && Linked(freed) && jobsToFree == NodeAt(freed, 0) && Freed(freed)
      ensures Jobs() == AfterHead(old(Jobs()), now, zone)
      ensures multiset(spine) + multiset(freed) == multiset(old(spine)) + multiset(freed0)
    {
      hide NextRun, Inserted, InsertAt, Linked, Contents, Freed, DayAt, Distinct;
      ghost var was := spine;
      assert was[0] !in freed0 && forall i :: 0 <= i < |freed0| ==> freed0[i] !in was[1..];
      var job := TakeHead(now, zone);
      if job.data.nextRun != 0 {
        jobsToFree, freed := toFree, freed0;
        ghost var p := InsertSorted(job);
        InsertNodes(was[1..], p, job);
      } else {
        LinkHead(toFree, job, freed0);
        InsertEnds(freed0, 0, job);
        InsertNodes(freed0, 0, job);
        jobsToFree, freed := job, InsertAt(freed0, 0, job);
        FreedMore(freed0, job);
      }
    }

    /** Takes the head off the list and recomputes its date. */
    method TakeHead(now: int, zone: int) returns (job: Node<Job>)
      requires DayAt(now, zone) >= 0 && Valid() && spine != []
      modifies this, spine[0]
      ensures Valid() && spine == old(spine)[1..] && job == old(spine)[0] && job !in spine
      ensures Jobs() == old(Jobs())[1..] && job.data == Redated(old(Jobs())[0], now, zone)
      ensures multiset(old(spine)) == multiset(spine) + multiset{job}
    {
      hide NextRun, RemoveAt, Linked, Contents, DayAt, Distinct;
      ghost var was := spine;
      UnlinkHead(was);
      NodeFacts(0);
      FirstNode(was, Jobs());
      LinkedDistinct(was);
      job := crontab;
      crontab, spine := job.next, was[1..];
      job.data := Redated(job.data, now, zone);
    }
  }
}
