/** The decomposition that src/lib.rs `sort` performs, written as functions
    over sequences: pick the longest job, slide it right while a two-job
    exchange strictly lowers the pair's tardiness, fix it there and recurse
    on both sides. The in-place method in module Scheduler is proved to
    compute exactly `Decompose`. */
module Decomposition {
  import opened Jobs

  /** Index chosen by `max_by_key(|x| x.p_time)`: the fold keeps a later
      element on equal keys (see `LastMaxIndexIsLastLongest`). */
  function LastMaxIndex(s: seq<Job>): (m: nat)
    requires |s| > 0
    ensures m < |s|
  {
    if |s| == 1 then 0
    else
      var m := LastMaxIndex(s[..|s| - 1]);
      if s[|s| - 1].pTime >= s[m].pTime then |s| - 1 else m
  }

  /** The chosen job has maximal processing time, and it is the LAST such job
      when several tie. */
  lemma {:induction false} LastMaxIndexIsLastLongest(s: seq<Job>)
    requires |s| > 0
    ensures forall k :: 0 <= k < |s| ==> s[k].pTime <= s[LastMaxIndex(s)].pTime
    ensures forall k :: LastMaxIndex(s) < k < |s| ==> s[k].pTime < s[LastMaxIndex(s)].pTime
  {
    if |s| > 1 {
      var init := s[..|s| - 1];
      LastMaxIndexIsLastLongest(init);
      assert forall k :: 0 <= k < |init| ==> init[k] == s[k];
    }
  }

  /** The loop test `swapped_delay < delay`: with the longest job `mx`
      starting at `cur`, running `next` first gives the pair a strictly
      smaller total tardiness than running `mx` first (see
      `ExchangeImprovesFormula` for the formula the loop evaluates). */
  predicate ExchangeImproves(cur: nat, mx: Job, next: Job)
  {
    TotalTardiness(cur, [next, mx]) < TotalTardiness(cur, [mx, next])
  }

  /** The loop test, written as src/lib.rs computes it. */
  lemma ExchangeImprovesFormula(cur: nat, mx: Job, next: Job)
    ensures ExchangeImproves(cur, mx, next) <==>
      Tardiness(cur + next.pTime, next.due) + Tardiness(cur + next.pTime + mx.pTime, mx.due)
        < Tardiness(cur + mx.pTime, mx.due) + Tardiness(cur + next.pTime + mx.pTime, next.due)
  {
    PairTotal(cur, next, mx);
    PairTotal(cur, mx, next);
  }

  /** Final value of `tgt_ix` for the job at `m`, starting from `tgt_ix == t`
      with the longest job starting at `cur`. */
  function Slide(s: seq<Job>, m: nat, cur: nat, t: nat): (r: nat)
    requires m < t <= |s|
    ensures t <= r <= |s|
    decreases |s| - t
  {
    if t < |s| && ExchangeImproves(cur, s[m], s[t]) then Slide(s, m, cur + s[t].pTime, t + 1)
    else t
  }

  /** The slice after the longest job at `m` has been moved to position t-1:
      the jobs in between have shifted left by one. */
  function Moved(s: seq<Job>, m: nat, t: nat): (r: seq<Job>)
    requires m < t <= |s|
    ensures |r| == |s|
  {
    s[..m] + s[m + 1..t] + [s[m]] + s[t..]
  }

  /** Moving the longest job only permutes the slice. */
  lemma MovedPermutes(s: seq<Job>, m: nat, t: nat)
    requires m < t <= |s|
    ensures multiset(Moved(s, m, t)) == multiset(s)
  {
    SplitAround(s, m, t);
  }

  /** Rust's final `tgt_ix`: one past the position where the longest job's
      slide stopped. */
  function Target(s: seq<Job>, start: nat): (t: nat)
    requires |s| > 0
    ensures LastMaxIndex(s) < t <= |s|
  {
    var m := LastMaxIndex(s);
    Slide(s, m, start + SumP(s[..m]), m + 1)
  }

  /** `Target` with the index of the longest job named. */
  lemma TargetAt(s: seq<Job>, start: nat, m: nat)
    requires |s| > 0 && m == LastMaxIndex(s)
    ensures Target(s, start) == Slide(s, m, start + SumP(s[..m]), m + 1)
  {
  }

  /** The jobs left of the fixed longest job, `jobs[..tgt_ix - 1]`. */
  function Left(s: seq<Job>, start: nat): (r: seq<Job>)
    requires |s| > 0
    ensures |r| == Target(s, start) - 1
  {
    Moved(s, LastMaxIndex(s), Target(s, start))[..Target(s, start) - 1]
  }

  /** The jobs right of the fixed longest job, `jobs[tgt_ix..]`; the slide
      never touched them. */
  function Right(s: seq<Job>, start: nat): (r: seq<Job>)
    requires |s| > 0
    ensures |r| == |s| - Target(s, start)
  {
    s[Target(s, start)..]
  }

  /** `cur_start` after line 79: when the right part starts. */
  function RightStart(s: seq<Job>, start: nat): nat
    requires |s| > 0
  {
    start + SumP(s[..Target(s, start)])
  }

  /** `sort(jobs, start)`: the order the recursive decomposition leaves in a
      slice whose first job starts at time `start`. */
  function Decompose(s: seq<Job>, start: nat): (r: seq<Job>)
    ensures |r| == |s|
    decreases |s|
  {
    if |s| <= 1 then s
    else
      Decompose(Left(s, start), start) + [s[LastMaxIndex(s)]]
        + Decompose(Right(s, start), RightStart(s, start))
  }

  /** How the slice falls apart around the fixed longest job. */
  lemma Parts(s: seq<Job>, start: nat)
    requires |s| > 0
    ensures var m, t := LastMaxIndex(s), Target(s, start);
      Left(s, start) == s[..m] + s[m + 1..t]
      && Moved(s, m, t) == Left(s, start) + [s[m]] + Right(s, start)
      && multiset(Left(s, start)) + multiset{s[m]} + multiset(Right(s, start)) == multiset(s)
      && SumP(Left(s, start)) + s[m].pTime == SumP(s[..t])
  {
    var m, t := LastMaxIndex(s), Target(s, start);
    PartsAt(s, m, t, Left(s, start), Right(s, start));
  }

  /** `Parts` for any position the longest job may have been moved to. */
  lemma PartsAt(s: seq<Job>, m: nat, t: nat, left: seq<Job>, right: seq<Job>)
    requires m < t <= |s|
    requires left == Moved(s, m, t)[..t - 1] && right == s[t..]
    ensures left == s[..m] + s[m + 1..t]
    ensures Moved(s, m, t) == left + [s[m]] + right
    ensures multiset(left) + multiset{s[m]} + multiset(right) == multiset(s)
    ensures SumP(left) + s[m].pTime == SumP(s[..t])
  {
    MovedPrefix(s, m, t);
    MovedPermutes(s, m, t);
    MovedSumP(s, m, t);
    SumPConcat(left, [s[m]]);
    SingleSumP(s[m]);
  }

  /** The decomposition only reorders the slice: the multiset of jobs is
      preserved. */
  lemma {:induction false} DecomposePermutes(s: seq<Job>, start: nat)
    ensures multiset(Decompose(s, start)) == multiset(s)
    decreases |s|
  {
    if |s| > 1 {
      Parts(s, start);
      DecomposePermutes(Left(s, start), start);
      DecomposePermutes(Right(s, start), RightStart(s, start));
    }
  }

  /** Where the longest job ends up: every job it passes on its slide from
      position t was an exchange that strictly improved the pair's tardiness
      (with the longest job then starting at `cur` plus the time of the jobs
      already passed) ... */
  lemma {:induction false} SlidePassesOnlyImprovements(s: seq<Job>, m: nat, cur: nat, t: nat, k: nat)
    requires m < t <= |s| && t <= k < Slide(s, m, cur, t)
    ensures ExchangeImproves(cur + SumP(s[t..k]), s[m], s[k])
    decreases |s| - t
  {
    if k == t {
      assert s[t..k] == [];
    } else {
      var cur', t' := cur + s[t].pTime, t + 1;
      assert Slide(s, m, cur, t) == Slide(s, m, cur', t');
      SlidePassesOnlyImprovements(s, m, cur', t', k);
      SumPDropFirst(s[t..k]);
      assert s[t..k][1..] == s[t'..k];
    }
  }

  /** ... and it stops at the end of the slice or at the first exchange that
      does not strictly improve. */
  lemma {:induction false} SlideStops(s: seq<Job>, m: nat, cur: nat, t: nat)
    requires m < t <= |s|
    ensures var r := Slide(s, m, cur, t);
      r == |s| || !ExchangeImproves(cur + SumP(s[t..r]), s[m], s[r])
    decreases |s| - t
  {
    var r := Slide(s, m, cur, t);
    if t < |s| && ExchangeImproves(cur, s[m], s[t]) {
      var cur', t' := cur + s[t].pTime, t + 1;
      assert r == Slide(s, m, cur', t');
      SlideStops(s, m, cur', t');
      if r < |s| {
        SumPDropFirst(s[t..r]);
        assert s[t..r][1..] == s[t'..r];
      }
    } else {
      assert s[t..t] == [];
    }
  }

  /** Each step of the slide strictly lowers the total tardiness of the whole
      slice, so the slid order is never worse than the order it started from. */
  lemma {:induction false} SlideNoWorse(s: seq<Job>, m: nat, start: nat, cur: nat, t: nat)
    requires m < t <= |s|
    requires cur == start + SumP(s[..m]) + SumP(s[m + 1..t])
    ensures TotalTardiness(start, Moved(s, m, Slide(s, m, cur, t))) <= TotalTardiness(start, Moved(s, m, t))
    ensures Slide(s, m, cur, t) > t ==>
      TotalTardiness(start, Moved(s, m, Slide(s, m, cur, t))) < TotalTardiness(start, Moved(s, m, t))
    decreases |s| - t
  {
    var r := Slide(s, m, cur, t);
    if t < |s| && ExchangeImproves(cur, s[m], s[t]) {
      var cur', t' := cur + s[t].pTime, t + 1;
      assert r == Slide(s, m, cur', t');
      var pre := s[..m] + s[m + 1..t];
      assert TotalTardiness(start, Moved(s, m, t')) < TotalTardiness(start, Moved(s, m, t)) by {
        MovedStep(s, m, t);
        assert cur == start + SumP(pre) by {
          SumPConcat(s[..m], s[m + 1..t]);
        }
        ExchangeLowers(start, pre, s[m], s[t], s[t + 1..], cur);
      }
      assert cur' == start + SumP(s[..m]) + SumP(s[m + 1..t']) by {
        SumPExtend(s, m + 1, t);
      }
      SlideNoWorse(s, m, start, cur', t');
    } else {
      assert r == t;
    }
  }

  /** An exchange that lowers the pair's tardiness lowers the total. */
  lemma ExchangeLowers(start: nat, pre: seq<Job>, x: Job, y: Job, post: seq<Job>, cur: nat)
    requires cur == start + SumP(pre)
    requires ExchangeImproves(cur, x, y)
    ensures TotalTardiness(start, pre + [y, x] + post) < TotalTardiness(start, pre + [x, y] + post)
  {
    ExchangeAdjacent(start, pre, x, y, post);
  }

  /** One step of the slide exchanges the longest job with its right
      neighbour. */
  lemma MovedStep(s: seq<Job>, m: nat, t: nat)
    requires m < t < |s|
    ensures Moved(s, m, t) == (s[..m] + s[m + 1..t]) + [s[m], s[t]] + s[t + 1..]
    ensures Moved(s, m, t + 1) == (s[..m] + s[m + 1..t]) + [s[t], s[m]] + s[t + 1..]
  {
    assert s[m + 1..t + 1] == s[m + 1..t] + [s[t]];
    assert s[t..] == [s[t]] + s[t + 1..];
  }

  /** Sliding from `m + 1` starts from the input itself. */
  lemma MovedNowhere(s: seq<Job>, m: nat)
    requires m < |s|
    ensures Moved(s, m, m + 1) == s
  {
    assert s[m + 1..m + 1] == [];
    assert s == s[..m] + [s[m]] + s[m + 1..];
  }

  /** Decomposition preserves the total processing time (so the offset passed
      to the right recursion is the same whatever the left part's order). */
  lemma {:induction false} DecomposeSumP(s: seq<Job>, start: nat)
    ensures SumP(Decompose(s, start)) == SumP(s)
    decreases |s|
  {
    if |s| > 1 {
      var m := LastMaxIndex(s);
      var left, right := Left(s, start), Right(s, start);
      var dl, dr := Decompose(left, start), Decompose(right, RightStart(s, start));
      Parts(s, start);
      MovedSumP(s, m, Target(s, start));
      DecomposeSumP(left, start);
      DecomposeSumP(right, RightStart(s, start));
      SumPAround(dl, s[m], dr);
      SumPAround(left, s[m], right);
    }
  }

  /** Moving one job does not change the total processing time, neither of
      the slice nor of its first t positions. */
  lemma MovedSumP(s: seq<Job>, m: nat, t: nat)
    requires m < t <= |s|
    ensures SumP(Moved(s, m, t)) == SumP(s)
    ensures SumP(Moved(s, m, t)[..t]) == SumP(s[..t])
  {
    SumPSwap(s[..m], [s[m]], s[m + 1..t], s[t..]);
    SumPSwap(s[..m], [s[m]], s[m + 1..t], []);
    SplitAround(s, m, t);
    MovedPrefix(s, m, t);
  }

  lemma SplitAround(s: seq<Job>, m: nat, t: nat)
    requires m < t <= |s|
    ensures s == s[..m] + [s[m]] + s[m + 1..t] + s[t..]
    ensures s[..t] == s[..m] + [s[m]] + s[m + 1..t] + []
  {
  }

  lemma MovedPrefix(s: seq<Job>, m: nat, t: nat)
    requires m < t <= |s|
    ensures Moved(s, m, t)[..t] == s[..m] + s[m + 1..t] + [s[m]] + []
    ensures Moved(s, m, t)[..t - 1] == s[..m] + s[m + 1..t]
    ensures Moved(s, m, t)[t - 1] == s[m]
    ensures Moved(s, m, t)[t..] == s[t..]
    ensures Moved(s, m, t) == Moved(s, m, t)[..t - 1] + [s[m]] + Moved(s, m, t)[t..]
  {
  }

  /** Slices of length 0 or 1 are returned unchanged. */
  lemma DecomposeShort(s: seq<Job>, start: nat)
    requires |s| <= 1
    ensures Decompose(s, start) == s
  {
  }

  /** The longest job is fixed at position `tgt_ix - 1`, and it is a job of
      maximal processing time of the whole slice; the two recursive calls act
      on the disjoint, strictly shorter parts before and after it, and only
      permute them. */
  lemma DecomposePlacesLongest(s: seq<Job>, start: nat)
    requires |s| > 1
    ensures var m, t, r := LastMaxIndex(s), Target(s, start), Decompose(s, start);
      |Left(s, start)| < |s| && |Right(s, start)| < |s|
      && r[t - 1] == s[m]
      && (forall k :: 0 <= k < |r| ==> r[k].pTime <= r[t - 1].pTime)
      && multiset(r[..t - 1]) == multiset(s[..m]) + multiset(s[m + 1..t])
      && multiset(r[t..]) == multiset(s[t..])
  {
    var m, t, r := LastMaxIndex(s), Target(s, start), Decompose(s, start);
    var dl, dr := Decompose(Left(s, start), start), Decompose(Right(s, start), RightStart(s, start));
    assert r == dl + [s[m]] + dr;
    assert r[..t - 1] == dl;
    assert r[t..] == dr;
    Parts(s, start);
    DecomposePermutes(Left(s, start), start);
    DecomposePermutes(Right(s, start), RightStart(s, start));
    DecomposePermutes(s, start);
    LastMaxIndexIsLastLongest(s);
    forall k | 0 <= k < |r|
      ensures r[k].pTime <= r[t - 1].pTime
    {
      assert r[k] in multiset(s);
    }
  }

  /** The decomposition never makes the order it is given worse: its total
      tardiness is at most that of the input order run from the same start.
      (It is a greedy heuristic; nothing here says it is optimal.) */
  lemma {:induction false} DecomposeNoWorse(s: seq<Job>, start: nat)
    ensures TotalTardiness(start, Decompose(s, start)) <= TotalTardiness(start, s)
    decreases |s|
  {
    if |s| > 1 {
      var m, t := LastMaxIndex(s), Target(s, start);
      var left, right, mid := Left(s, start), Right(s, start), RightStart(s, start);
      var dl, dr := Decompose(left, start), Decompose(right, mid);
      Parts(s, start);
      DecomposeSumP(left, start);
      DecomposeNoWorse(left, start);
      DecomposeNoWorse(right, mid);
      SlideNoWorseFromPivot(s, m, start);
      TargetAt(s, start, m);
      NoWorseAround(start, dl, left, s[m], dr, right, mid);
    }
  }

  /** The slide of a job from its original place. */
  lemma SlideNoWorseFromPivot(s: seq<Job>, m: nat, start: nat)
    requires m < |s|
    ensures TotalTardiness(start, Moved(s, m, Slide(s, m, start + SumP(s[..m]), m + 1))) <= TotalTardiness(start, s)
  {
    var cur, t := start + SumP(s[..m]), m + 1;
    assert s[m + 1..t] == [];
    SlideNoWorse(s, m, start, cur, t);
    MovedNowhere(s, m);
    assert Moved(s, m, t) == s;
  }

  /** Both orders run the left part (or its decomposition), then the longest
      job, then the right part (or its decomposition) from the same instant
      `mid`; each part does no worse, so neither does the whole. */
  lemma NoWorseAround(start: nat, dl: seq<Job>, left: seq<Job>, x: Job,
                      dr: seq<Job>, right: seq<Job>, mid: nat)
    requires SumP(dl) == SumP(left) && start + SumP(left) + x.pTime == mid
    requires TotalTardiness(start, dl) <= TotalTardiness(start, left)
    requires TotalTardiness(mid, dr) <= TotalTardiness(mid, right)
    ensures TotalTardiness(start, dl + [x] + dr) <= TotalTardiness(start, left + [x] + right)
  {
    TotalTardinessAround(start, dl, x, dr, mid);
    TotalTardinessAround(start, left, x, right, mid);
  }
}
