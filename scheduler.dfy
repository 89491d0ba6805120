/** The scheduler of src/lib.rs: `calc_delay`, the in-place recursive `sort`
    and `solve`, which orders the jobs by due date, decomposes them and
    reports the resulting order with its total tardiness. */
module Scheduler {
  import opened Jobs
  import opened Decomposition
  import opened DueOrder
  import opened Multisets

  /** `calc_delay`: walks the jobs in order, accumulating the completion time
      `t` and the clipped lateness of each job. */
  method CalcDelay(jobs: seq<Job>) returns (delay: nat)
    ensures delay == TotalTardiness(0, jobs)
  {
    delay := 0;
    var t := 0;
    for i := 0 to |jobs|
      invariant t == SumP(jobs[..i])
      invariant delay == TotalTardiness(0, jobs[..i])
    {
      assert jobs[..i + 1][..i] == jobs[..i];
      t := t + jobs[i].pTime;
      delay := delay + Tardiness(t, jobs[i].due);
    }
    assert jobs[..|jobs|] == jobs;
  }

  /** `sort(&mut jobs[lo..hi], start)`: the recursive decomposition, run in
      place on the slice `a[lo..hi]` whose first job starts at `start`.
      Outside the slice nothing changes. */
  method SortRange(a: array<Job>, lo: nat, hi: nat, start: nat)
    requires lo <= hi <= a.Length
    modifies a
    ensures a[..] == old(a[..lo]) + Decompose(old(a[lo..hi]), start) + old(a[hi..])
    decreases hi - lo, 1
  {
    ghost var before, s, after := a[..lo], a[lo..hi], a[hi..];
    assert a[..] == before + s + after;
    var n := hi - lo;
    if n <= 1 {
      DecomposeShort(s, start);
      return;
    }
    var maxIx := LastMaxIndex(a[lo..hi]);
    ghost var target := Slide(s, maxIx, start + SumP(s[..maxIx]), maxIx + 1);
    var tgtIx, curStart := SlideLongest(a, lo, hi, start, maxIx, before, s, after, target);
    ghost var left, right := Rejoin(a[..], before, s, after, start, maxIx, tgtIx, curStart);
    ghost var x := s[maxIx];
    SortSides(a, lo, hi, start, tgtIx, curStart, before, left, x, right, after);
    Assemble(a[..], before, Decompose(left, start), x, Decompose(right, curStart), after, Decompose(s, start));
  }

  /** Lines 81-86 of `sort`: with the longest job fixed just before `tgtIx`,
      the jobs left of it are sorted from `start` and those right of it from
      `curStart`, each only when there are any. */
  method SortSides(a: array<Job>, lo: nat, hi: nat, start: nat, tgtIx: nat, curStart: nat,
                   ghost before: seq<Job>, ghost left: seq<Job>, ghost x: Job,
                   ghost right: seq<Job>, ghost after: seq<Job>)
    requires hi <= a.Length && 0 < tgtIx <= hi - lo
    requires |before| == lo && |left| == tgtIx - 1 && |right| == hi - lo - tgtIx
    requires a[..] == before + left + ([x] + right + after)
    modifies a
    ensures a[..] == (before + Decompose(left, start) + [x]) + Decompose(right, curStart) + after
    decreases hi - lo, 0
  {
    if tgtIx > 1 {
      Slices(before, left, [x] + right + after, lo, lo + tgtIx - 1);
      SortRange(a, lo, lo + tgtIx - 1, start);
    } else {
      DecomposeShort(left, start);
    }
    ghost var dl := Decompose(left, start);
    assert a[..] == before + dl + ([x] + right + after);
    Regroup(before, dl, x, right, after);
    if tgtIx < hi - lo {
      Slices(before + dl + [x], right, after, lo + tgtIx, hi);
      SortRange(a, lo + tgtIx, hi, curStart);
      assert a[..] == (before + dl + [x]) + Decompose(right, curStart) + after;
    } else {
      DecomposeShort(right, curStart);
      assert a[..] == (before + dl + [x]) + Decompose(right, curStart) + after;
    }
  }

  /** Lines 64-80 of `sort`: the longest job at `maxIx` of the slice
      `a[lo..hi]` slides right past every job for which the exchange lowers
      the pair's tardiness, each of those moving one place left; it is then
      written just before `tgtIx`, and `curStart` becomes the time at which
      the jobs from `tgtIx` on start. Indices are relative to the slice. */
  method SlideLongest(a: array<Job>, lo: nat, hi: nat, start: nat, maxIx: nat,
                      ghost before: seq<Job>, ghost s: seq<Job>, ghost after: seq<Job>, ghost target: nat)
    returns (tgtIx: nat, curStart: nat)
    requires lo <= hi <= a.Length && maxIx < hi - lo
    requires before == a[..lo] && s == a[lo..hi] && after == a[hi..]
    requires target == Slide(s, maxIx, start + SumP(s[..maxIx]), maxIx + 1)
    modifies a
    ensures tgtIx == target
    ensures a[..] == before + Moved(s, maxIx, tgtIx) + after
    ensures curStart == start + SumP(s[..tgtIx])
  {
    assert a[..] == before + s + after;
    var n := hi - lo;
    var maxJob := a[lo + maxIx];
    assert a[lo..lo + maxIx] == s[..maxIx];
    curStart := start + SumP(a[lo..lo + maxIx]);
    tgtIx := maxIx + 1;
    assert s[maxIx + 1..tgtIx] == [];
    ShiftingStart(s, maxIx);
    assert target == Slide(s, maxIx, curStart, tgtIx);
    assert |before| == lo && |s| == n && maxJob == s[maxIx];
    while tgtIx < n
      invariant maxIx < tgtIx <= n
      invariant a[..] == before + Shifting(s, maxIx, tgtIx) + after
      invariant curStart == start + SumP(s[..maxIx]) + SumP(s[maxIx + 1..tgtIx])
      invariant Slide(s, maxIx, curStart, tgtIx) == target
      decreases n - tgtIx
    {
      ShiftStep(a[..], before, s, after, lo, maxIx, tgtIx);
      var next := a[lo + tgtIx];
      var swappedDelay := Tardiness(curStart + next.pTime, next.due)
        + Tardiness(curStart + next.pTime + maxJob.pTime, maxJob.due);
      var delay := Tardiness(curStart + maxJob.pTime, maxJob.due)
        + Tardiness(curStart + next.pTime + maxJob.pTime, next.due);
      LoopStop(s, maxIx, start, curStart, tgtIx, maxJob, next, target, swappedDelay, delay);
      if swappedDelay >= delay {
        break;
      }
      ghost var prevStart, prevTgt, prevA := curStart, tgtIx, a[..];
      curStart := curStart + next.pTime;
      a[lo + tgtIx - 1] := next;
      assert a[..] == prevA[lo + tgtIx - 1 := next];
      tgtIx := tgtIx + 1;
      LoopAdvance(s, maxIx, prevStart, curStart, prevTgt, tgtIx, maxJob, next, target, swappedDelay, delay);
      StartAdvance(s, maxIx, start, prevStart, curStart, prevTgt, tgtIx, next);
      ShiftMoved(prevA, before, s, after, lo, maxIx, prevTgt, tgtIx);
    }
    ShiftDone(a[..], before, s, after, lo, maxIx, tgtIx);
    ghost var cur := a[..];
    a[lo + tgtIx - 1] := maxJob;
    assert a[..] == cur[lo + tgtIx - 1 := maxJob];
    EndTime(s, maxIx, tgtIx);
    curStart := curStart + maxJob.pTime;
  }

  /** One iteration of the loop: Rust's test `swapped_delay >= delay` is the
      negation of `ExchangeImproves`, so when it holds the slide ends here. */
  lemma LoopStop(s: seq<Job>, m: nat, start: nat, cur: nat, t: nat, mx: Job, next: Job,
                 target: nat, swappedDelay: nat, delay: nat)
    requires m < t < |s| && mx == s[m] && next == s[t]
    requires Slide(s, m, cur, t) == target
    requires swappedDelay == Tardiness(cur + next.pTime, next.due)
      + Tardiness(cur + next.pTime + mx.pTime, mx.due)
    requires delay == Tardiness(cur + mx.pTime, mx.due)
      + Tardiness(cur + next.pTime + mx.pTime, next.due)
    ensures swappedDelay >= delay ==> target == t
  {
    ExchangeImprovesFormula(cur, mx, next);
  }

  /** Otherwise the slide continues from the next position, with the longest
      job starting `next.pTime` later. */
  lemma LoopAdvance(s: seq<Job>, m: nat, cur: nat, cur': nat, t: nat, t': nat, mx: Job, next: Job,
                    target: nat, swappedDelay: nat, delay: nat)
    requires m < t < |s| && mx == s[m] && next == s[t]
    requires Slide(s, m, cur, t) == target
    requires swappedDelay == Tardiness(cur + next.pTime, next.due)
      + Tardiness(cur + next.pTime + mx.pTime, mx.due)
    requires delay == Tardiness(cur + mx.pTime, mx.due)
      + Tardiness(cur + next.pTime + mx.pTime, next.due)
    requires swappedDelay < delay && cur' == cur + next.pTime && t' == t + 1
    ensures Slide(s, m, cur', t') == target
  {
    ExchangeImprovesFormula(cur, mx, next);
  }

  /** `cur_start` stays the start time of the longest job in its current
      place. */
  lemma StartAdvance(s: seq<Job>, m: nat, start: nat, cur: nat, cur': nat, t: nat, t': nat, next: Job)
    requires m < t < |s| && next == s[t]
    requires cur == start + SumP(s[..m]) + SumP(s[m + 1..t])
    requires cur' == cur + next.pTime && t' == t + 1
    ensures cur' == start + SumP(s[..m]) + SumP(s[m + 1..t'])
  {
    SumPExtend(s, m + 1, t);
  }

  /** During the loop the job at `tgt` is still in its original place. */
  lemma ShiftStep(cur: seq<Job>, before: seq<Job>, s: seq<Job>, after: seq<Job>, lo: nat, m: nat, tgt: nat)
    requires m < tgt < |s| && |before| == lo
    requires cur == before + Shifting(s, m, tgt) + after
    ensures lo + tgt < |cur|
    ensures cur[lo + tgt] == s[tgt]
  {
    ShiftingAt(s, m, tgt);
    Pieces(before, Shifting(s, m, tgt), after, tgt, s[tgt]);
  }

  /** One loop step on the array: the job at `tgt` is copied one place left,
      over the stale copy. */
  lemma ShiftMoved(cur: seq<Job>, before: seq<Job>, s: seq<Job>, after: seq<Job>, lo: nat, m: nat, tgt: nat, tgt': nat)
    requires m < tgt < |s| && |before| == lo && tgt' == tgt + 1
    requires cur == before + Shifting(s, m, tgt) + after
    ensures cur[lo + tgt - 1 := s[tgt]] == before + Shifting(s, m, tgt') + after
  {
    ShiftingAt(s, m, tgt);
    Pieces(before, Shifting(s, m, tgt), after, tgt - 1, s[tgt]);
  }

  /** The slice while the loop runs: the jobs passed so far have shifted left
      by one, and position `tgt - 1` still holds a stale copy of `s[tgt - 1]`. */
  ghost function Shifting(s: seq<Job>, m: nat, tgt: nat): seq<Job>
    requires m < tgt <= |s|
  {
    s[..m] + s[m + 1..tgt] + s[tgt - 1..]
  }

  lemma ShiftingStart(s: seq<Job>, m: nat)
    requires m < |s|
    ensures Shifting(s, m, m + 1) == s
  {
    assert s[m + 1..m + 1] == [];
    assert s == s[..m] + s[m..];
  }

  /** Positions from `tgt` on are untouched; one loop step copies `s[tgt]`
      one place left. */
  lemma ShiftingAt(s: seq<Job>, m: nat, tgt: nat)
    requires m < tgt < |s|
    ensures |Shifting(s, m, tgt)| == |s|
    ensures Shifting(s, m, tgt)[tgt] == s[tgt]
    ensures Shifting(s, m, tgt)[tgt - 1 := s[tgt]] == Shifting(s, m, tgt + 1)
  {
    assert s[m + 1..tgt + 1] == s[m + 1..tgt] + [s[tgt]];
    assert s[tgt - 1..] == [s[tgt - 1]] + s[tgt..];
  }

  /** Writing the longest job into the stale position completes the move. */
  lemma ShiftingDone(s: seq<Job>, m: nat, t: nat)
    requires m < t <= |s|
    ensures |Shifting(s, m, t)| == |s|
    ensures Shifting(s, m, t)[t - 1 := s[m]] == Moved(s, m, t)
  {
    assert s[t - 1..] == [s[t - 1]] + s[t..];
  }

  /** Writing the longest job over the stale copy completes the move. */
  lemma ShiftDone(cur: seq<Job>, before: seq<Job>, s: seq<Job>, after: seq<Job>, lo: nat, m: nat, tgt: nat)
    requires m < tgt <= |s| && |before| == lo
    requires cur == before + Shifting(s, m, tgt) + after
    ensures lo + tgt - 1 < |cur|
    ensures cur[lo + tgt - 1 := s[m]] == before + Moved(s, m, tgt) + after
  {
    ShiftingDone(s, m, tgt);
    Pieces(before, Shifting(s, m, tgt), after, tgt - 1, s[m]);
  }

  /** The jobs before the longest, those it passed, and the longest itself
      together make up the prefix `s[..tgt]`. */
  lemma EndTime(s: seq<Job>, m: nat, tgt: nat)
    requires m < tgt <= |s|
    ensures SumP(s[..m]) + SumP(s[m + 1..tgt]) + s[m].pTime == SumP(s[..tgt])
  {
    SplitAround(s, m, tgt);
    SumPAround(s[..m], s[m], s[m + 1..tgt]);
    assert s[..m] + [s[m]] + s[m + 1..tgt] + [] == s[..m] + [s[m]] + s[m + 1..tgt];
  }

  /** After the slide, the slice is the left part, the longest job and the
      untouched right part. */
  lemma Rejoin(a: seq<Job>, before: seq<Job>, s: seq<Job>, after: seq<Job>, start: nat, m: nat, t: nat, cur: nat)
    returns (left: seq<Job>, right: seq<Job>)
    requires |s| > 1 && m == LastMaxIndex(s)
    requires t == Slide(s, m, start + SumP(s[..m]), m + 1)
    requires cur == start + SumP(s[..t])
    requires a == before + Moved(s, m, t) + after
    ensures 0 < t <= |s| && |left| == t - 1 && |right| == |s| - t
    ensures a == before + left + ([s[m]] + right + after)
    ensures Decompose(s, start) == Decompose(left, start) + [s[m]] + Decompose(right, cur)
  {
    left, right := Left(s, start), Right(s, start);
    TargetAt(s, start, m);
    Parts(s, start);
    Regroup(before, left, s[m], right, after);
    assert cur == RightStart(s, start);
    assert Decompose(s, start)
      == Decompose(left, start) + [s[LastMaxIndex(s)]] + Decompose(right, RightStart(s, start));
  }

  /** The slice in its final order, between the untouched outer parts. */
  lemma Assemble(cur: seq<Job>, p: seq<Job>, l: seq<Job>, x: Job, r: seq<Job>, q: seq<Job>, whole: seq<Job>)
    requires cur == (p + l + [x]) + r + q && whole == l + [x] + r
    ensures cur == p + whole + q
  {
  }

  /** Regrouping a five-part sequence around its middle job. */
  lemma Regroup(p: seq<Job>, l: seq<Job>, x: Job, r: seq<Job>, q: seq<Job>)
    ensures p + (l + [x] + r) + q == p + l + ([x] + r + q)
    ensures p + l + ([x] + r + q) == (p + l + [x]) + r + q
  {
  }

  /** Updating position `i` of the middle part of a three-part sequence. */
  lemma Pieces(p: seq<Job>, mid: seq<Job>, q: seq<Job>, i: nat, x: Job)
    requires i < |mid|
    ensures (p + mid + q)[|p| + i] == mid[i]
    ensures (p + mid + q)[|p| + i := x] == p + mid[i := x] + q
  {
  }

  /** Taking a three-part sequence apart again. */
  lemma Slices(p: seq<Job>, mid: seq<Job>, q: seq<Job>, i: nat, j: nat)
    requires i == |p| && j == |p| + |mid|
    ensures |p + mid + q| == j + |q|
    ensures (p + mid + q)[..i] == p
    ensures (p + mid + q)[i..j] == mid
    ensures (p + mid + q)[j..] == q
  {
  }

  /** The jobs built by `zip`: as many as the shortest of the three inputs. */
  function ZipJobs(ids: seq<nat>, processingTimes: seq<nat>, dueDates: seq<nat>): (jobs: seq<Job>)
    ensures |jobs| <= |ids| && |jobs| <= |processingTimes| && |jobs| <= |dueDates|
    ensures |jobs| == |ids| || |jobs| == |processingTimes| || |jobs| == |dueDates|
    ensures forall k :: 0 <= k < |jobs| ==> jobs[k] == Job(ids[k], processingTimes[k], dueDates[k])
  {
    var n := if |ids| <= |processingTimes| && |ids| <= |dueDates| then |ids|
             else if |processingTimes| <= |dueDates| then |processingTimes| else |dueDates|;
    seq(n, k requires 0 <= k < n => Job(ids[k], processingTimes[k], dueDates[k]))
  }

  /** `jobs.iter().map(|x| x.id)`. */
  function IdsOf(jobs: seq<Job>): (ids: seq<nat>)
    ensures |ids| == |jobs|
    ensures forall k :: 0 <= k < |jobs| ==> ids[k] == jobs[k].id
  {
    Map((x: Job) => x.id, jobs)
  }

  /** The order `solve` produces: the due-date order, decomposed from time 0. */
  function Schedule(jobs: seq<Job>): (order: seq<Job>)
    ensures |order| == |jobs|
  {
    Decompose(SortByDue(jobs), 0)
  }

  /** `solve`: build the jobs, sort them by due date, decompose them in place
      and return their ids in the final order with that order's total
      tardiness. The ids are a permutation of the zipped ids (of the input
      ids when the three inputs have the same length), and the delay is
      never above that of plain due-date order. */
  method Solve(ids: seq<nat>, processingTimes: seq<nat>, dueDates: seq<nat>)
    returns (sortedIds: seq<nat>, delay: nat)
    ensures var jobs := ZipJobs(ids, processingTimes, dueDates);
      sortedIds == IdsOf(Schedule(jobs)) && delay == TotalTardiness(0, Schedule(jobs))
    ensures multiset(sortedIds) == multiset(IdsOf(ZipJobs(ids, processingTimes, dueDates)))
    ensures |ids| == |processingTimes| == |dueDates| ==> multiset(sortedIds) == multiset(ids)
    ensures delay <= TotalTardiness(0, SortByDue(ZipJobs(ids, processingTimes, dueDates)))
  {
    var jobs := ZipJobs(ids, processingTimes, dueDates);
    var sorted := SortByDue(jobs);
    var a := NewArray(sorted);
    SortWhole(a);
    ghost var order := a[..];
    assert order == Schedule(jobs);
    delay := CalcDelay(a[..]);
    sortedIds := IdsOf(a[..]);
    SolveSpec(ids, processingTimes, dueDates);
  }

  /** `sort(&mut jobs, 0)` on the whole vector. */
  method SortWhole(a: array<Job>)
    modifies a
    ensures a[..] == Decompose(old(a[..]), 0)
  {
    ghost var s := a[..];
    assert a[..0] == [] && a[a.Length..] == [] && a[0..a.Length] == s;
    SortRange(a, 0, a.Length, 0);
    assert [] + Decompose(s, 0) + [] == Decompose(s, 0);
  }

  /** The vector the jobs are collected into. */
  method NewArray(s: seq<Job>) returns (a: array<Job>)
    ensures fresh(a) && a[..] == s
  {
    a := new Job[|s|](k => if 0 <= k < |s| then s[k] else Job(0, 0, 0));
  }

  /** What `solve` promises: the returned ids are a permutation of the input
      ids (of the zipped prefix when the inputs differ in length), the delay
      is the total tardiness of exactly the returned order, and that order is
      never worse than plain due-date order. */
  lemma SolveSpec(ids: seq<nat>, processingTimes: seq<nat>, dueDates: seq<nat>)
    ensures var jobs := ZipJobs(ids, processingTimes, dueDates);
      var order := Schedule(jobs);
      multiset(IdsOf(order)) == multiset(IdsOf(jobs))
      && TotalTardiness(0, order) <= TotalTardiness(0, SortByDue(jobs))
      && (|ids| == |processingTimes| == |dueDates| ==> IdsOf(jobs) == ids)
  {
    var jobs := ZipJobs(ids, processingTimes, dueDates);
    DecomposePermutes(SortByDue(jobs), 0);
    SortByDuePermutes(jobs);
    MapPermutes((x: Job) => x.id, Schedule(jobs), jobs);
    DecomposeNoWorse(SortByDue(jobs), 0);
  }
}
