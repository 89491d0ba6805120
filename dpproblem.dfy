/** `solve_dp_problem` in python/solve.py: the scheduler is called with the
    table's index labels, its order selects the table's rows, and the
    columns `end_time`, `start_time` and `delay` are computed column-wise
    before the rows are keyed by `job_id`. Every step is a whole-column
    expression, so the model is a set of functions over sequences. */
module DpProblem {
  import opened Jobs
  import opened Decomposition
  import opened DueOrder
  import opened Multisets
  import opened Scheduler

  /** One row of the input table: columns `job_id`, `p_time` and `due`. */
  datatype Row = Row(jobId: string, pTime: nat, due: nat)

  /** The value stored for one job: `{'start_time': ..., 'delay': ...}`. */
  datatype Entry = Entry(startTime: nat, delay: nat)

  /** The returned dictionary. */
  datatype Report = Report(objectiveValue: nat, jobs: map<string, Entry>)

  /** `IndexError` raised by `iloc` for a position past the end, and the
      `ValueError` raised by `to_dict(orient='index')` when the new index
      (`job_id`) has a repeated value. */
  datatype Error = IndexOutOfRange | DuplicateJobId

  datatype Result<T> = Ok(value: T) | Err(error: Error)

  /** Column `p_time`. */
  function PTimes(rows: seq<Row>): (r: seq<nat>)
    ensures |r| == |rows|
    ensures forall k :: 0 <= k < |rows| ==> r[k] == rows[k].pTime
  {
    Map((x: Row) => x.pTime, rows)
  }

  /** Column `due`. */
  function Dues(rows: seq<Row>): (r: seq<nat>)
    ensures |r| == |rows|
    ensures forall k :: 0 <= k < |rows| ==> r[k] == rows[k].due
  {
    Map((x: Row) => x.due, rows)
  }

  /** Column `job_id`. */
  function JobIds(rows: seq<Row>): (r: seq<string>)
    ensures |r| == |rows|
    ensures forall k :: 0 <= k < |rows| ==> r[k] == rows[k].jobId
  {
    Map((x: Row) => x.jobId, rows)
  }

  /** `df.iloc[ix, :]`: the rows at the positions `ix`, in that order; any
      position past the end raises. */
  function Reorder(rows: seq<Row>, ix: seq<nat>): (r: Result<seq<Row>>)
    ensures r.Ok? <==> forall k :: 0 <= k < |ix| ==> ix[k] < |rows|
    ensures r.Err? ==> r.error == IndexOutOfRange
    ensures r.Ok? ==> |r.value| == |ix| && forall k :: 0 <= k < |ix| ==> r.value[k] == rows[ix[k]]
  {
    if ix == [] then Ok([])
    else if ix[0] >= |rows| then Err(IndexOutOfRange)
    else
      match Reorder(rows, ix[1..])
      case Err(e) => Err(e)
      case Ok(rest) => Ok([rows[ix[0]]] + rest)
  }

  /** Sum of a column. */
  function Sum(xs: seq<nat>): nat
  {
    if xs == [] then 0 else Sum(xs[..|xs| - 1]) + xs[|xs| - 1]
  }

  /** `cumsum()`: running totals, each the previous total plus the next
      value. */
  function CumSum(xs: seq<nat>): (r: seq<nat>)
    ensures |r| == |xs|
  {
    if xs == [] then []
    else
      var c := CumSum(xs[..|xs| - 1]);
      c + [(if c == [] then 0 else c[|c| - 1]) + xs[|xs| - 1]]
  }

  /** Each running total is the sum of the column up to and including its
      row. */
  lemma {:induction false} CumSumIsPrefixSum(xs: seq<nat>)
    ensures forall k :: 0 <= k < |xs| ==> CumSum(xs)[k] == Sum(xs[..k + 1])
  {
    if xs != [] {
      var n := |xs|;
      var init := xs[..n - 1];
      CumSumIsPrefixSum(init);
      forall k | 0 <= k < n
        ensures CumSum(xs)[k] == Sum(xs[..k + 1])
      {
        if k < n - 1 {
          assert init[..k + 1] == xs[..k + 1];
        } else {
          assert xs[..k + 1] == xs && xs[..k + 1][..k] == init;
          if k > 0 {
            assert init[..k] == init;
          }
        }
      }
    }
  }

  /** `shift(1, fill_value=fill)`: every value moves one row down, the first
      row gets `fill` and the last value drops out. */
  function Shift(xs: seq<nat>, fill: nat): (r: seq<nat>)
    ensures |r| == |xs|
    ensures |xs| > 0 ==> r[0] == fill
    ensures forall k :: 0 < k < |xs| ==> r[k] == xs[k - 1]
  {
    if xs == [] then [] else [fill] + xs[..|xs| - 1]
  }

  /** `clip(0)` of one value: negative values become 0, others stay. */
  function Clip(x: int): (r: nat)
    ensures r >= x
    ensures r == 0 || r == x
  {
    if x < 0 then 0 else x
  }

  /** `(end_time - due).clip(0)`, row by row. */
  function Delays(ends: seq<nat>, dues: seq<nat>): (r: seq<nat>)
    requires |ends| == |dues|
    ensures |r| == |ends|
    ensures forall k :: 0 <= k < |r| ==> r[k] == Clip(ends[k] as int - dues[k] as int)
  {
    seq(|ends|, k requires 0 <= k < |ends| => Clip(ends[k] as int - dues[k] as int))
  }

  /** The three columns added to the reordered table. */
  datatype Columns = Columns(endTime: seq<nat>, startTime: seq<nat>, delay: seq<nat>)

  /** Lines 114-116: end times, start times and delays of the rows in their
      new order, from their processing times and due dates. */
  function AddColumns(pTimes: seq<nat>, dues: seq<nat>): (c: Columns)
    requires |pTimes| == |dues|
    ensures |c.endTime| == |c.startTime| == |c.delay| == |pTimes|
  {
    var ends := CumSum(pTimes);
    Columns(ends, Shift(ends, 0), Delays(ends, dues))
  }

  /** The job at row k ends once the jobs of rows 0..k have run. */
  lemma EndTimesArePrefixSums(pTimes: seq<nat>, dues: seq<nat>)
    requires |pTimes| == |dues|
    ensures forall k :: 0 <= k < |pTimes| ==> AddColumns(pTimes, dues).endTime[k] == Sum(pTimes[..k + 1])
  {
    CumSumIsPrefixSum(pTimes);
  }

  /** The schedule is contiguous: the first job starts at 0, each later job
      starts when the one before it ends, and each job ends its processing
      time after it starts. */
  lemma NoIdleNoOverlap(pTimes: seq<nat>, dues: seq<nat>)
    requires |pTimes| == |dues|
    ensures var c := AddColumns(pTimes, dues);
      (|pTimes| > 0 ==> c.startTime[0] == 0)
      && (forall k :: 0 < k < |pTimes| ==> c.startTime[k] == c.endTime[k - 1])
      && (forall k :: 0 <= k < |pTimes| ==> c.endTime[k] == c.startTime[k] + pTimes[k])
  {
    var c := AddColumns(pTimes, dues);
    CumSumIsPrefixSum(pTimes);
    forall k | 0 <= k < |pTimes|
      ensures c.endTime[k] == c.startTime[k] + pTimes[k]
    {
      assert pTimes[..k + 1][..k] == pTimes[..k];
      assert Sum(pTimes[..k + 1]) == Sum(pTimes[..k]) + pTimes[k];
      if k == 0 {
        assert pTimes[..0] == [];
      } else {
        assert c.startTime[k] == Sum(pTimes[..k]);
      }
    }
  }

  /** Each delay is the job's tardiness: how far its end time is past its
      due date, and 0 when it is on time. */
  lemma DelayIsTardiness(pTimes: seq<nat>, dues: seq<nat>)
    requires |pTimes| == |dues|
    ensures var c := AddColumns(pTimes, dues);
      forall k :: 0 <= k < |pTimes| ==> c.delay[k] == Tardiness(c.endTime[k], dues[k])
  {
  }

  /** The value column of the result, row by row. */
  function Entries(starts: seq<nat>, delays: seq<nat>): (r: seq<Entry>)
    requires |starts| == |delays|
    ensures |r| == |starts|
    ensures forall k :: 0 <= k < |r| ==> r[k] == Entry(starts[k], delays[k])
  {
    seq(|starts|, k requires 0 <= k < |starts| => Entry(starts[k], delays[k]))
  }

  /** `set_index('job_id').to_dict(orient='index')`: one entry per row, keyed
      by the row's job id; a repeated job id raises. */
  function ToIndexDict(ids: seq<string>, entries: seq<Entry>): (r: Result<map<string, Entry>>)
    requires |ids| == |entries|
    ensures r.Ok? <==> Distinct(ids)
    ensures r.Err? ==> r.error == DuplicateJobId
    ensures r.Ok? ==> (forall id :: id in r.value <==> id in ids)
    ensures r.Ok? ==> forall k :: 0 <= k < |ids| ==> r.value[ids[k]] == entries[k]
  {
    if ids == [] then Ok(map[])
    else
      match ToIndexDict(ids[1..], entries[1..])
      case Err(e) => Err(e)
      case Ok(m) => if ids[0] in m then Err(DuplicateJobId) else Ok(m[ids[0] := entries[0]])
  }

  /** Lines 113-121 of `solve_dp_problem`, given the scheduler's order
      `sortedIx` and objective value. */
  function Derive(rows: seq<Row>, sortedIx: seq<nat>, objectiveValue: nat): (r: Result<Report>)
    ensures Reorder(rows, sortedIx).Err? ==> r == Err(IndexOutOfRange)
    ensures Reorder(rows, sortedIx).Ok? ==>
      var ordered := Reorder(rows, sortedIx).value;
      var c := AddColumns(PTimes(ordered), Dues(ordered));
      (r.Ok? <==> Distinct(JobIds(ordered)))
      && (r.Err? ==> r.error == DuplicateJobId)
      && (r.Ok? ==>
            r.value.objectiveValue == objectiveValue
            && (forall id :: id in r.value.jobs <==> id in JobIds(ordered))
            && forall k :: 0 <= k < |ordered| ==>
                 r.value.jobs[ordered[k].jobId] == Entry(c.startTime[k], c.delay[k]))
  {
    match Reorder(rows, sortedIx)
    case Err(e) => Err(e)
    case Ok(ordered) =>
      var c := AddColumns(PTimes(ordered), Dues(ordered));
      match ToIndexDict(JobIds(ordered), Entries(c.startTime, c.delay))
      case Err(e) => Err(e)
      case Ok(jobs) => Ok(Report(objectiveValue, jobs))
  }

  /** The delay column sums to the total tardiness of the job order whose
      processing times and due dates it was computed from. */
  lemma {:induction false} TotalDelay(s: seq<Job>, pTimes: seq<nat>, dues: seq<nat>)
    requires |pTimes| == |dues| == |s|
    requires forall k :: 0 <= k < |s| ==> pTimes[k] == s[k].pTime && dues[k] == s[k].due
    ensures Sum(AddColumns(pTimes, dues).delay) == TotalTardiness(0, s)
  {
    if s != [] {
      var n := |s|;
      var s', p', d' := s[..n - 1], pTimes[..n - 1], dues[..n - 1];
      TotalDelay(s', p', d');
      var total, due := Sum(pTimes), dues[n - 1];
      DelaysSnoc(pTimes, dues, p', d', total, due);
      SumSnoc(AddColumns(p', d').delay, Clip(total as int - due as int));
      SumOfPTimes(s, pTimes);
    }
  }

  /** Adding a row to the table adds one delay at the end of the column. */
  lemma DelaysSnoc(pTimes: seq<nat>, dues: seq<nat>, p': seq<nat>, d': seq<nat>, total: nat, due: nat)
    requires |pTimes| == |dues| > 0
    requires p' == pTimes[..|pTimes| - 1] && d' == dues[..|dues| - 1]
    requires total == Sum(pTimes) && due == dues[|dues| - 1]
    ensures AddColumns(pTimes, dues).delay == AddColumns(p', d').delay + [Clip(total as int - due as int)]
  {
    CumSumLast(pTimes);
    assert CumSum(pTimes) == CumSum(p') + [total];
    assert dues == d' + [due];
    DelaysAppend(CumSum(p'), d', total, due);
  }

  lemma CumSumLast(xs: seq<nat>)
    requires |xs| > 0
    ensures CumSum(xs)[|xs| - 1] == Sum(xs)
  {
    CumSumIsPrefixSum(xs);
    assert xs[..|xs|] == xs;
  }

  lemma DelaysAppend(ends: seq<nat>, dues: seq<nat>, end: nat, due: nat)
    requires |ends| == |dues|
    ensures Delays(ends + [end], dues + [due]) == Delays(ends, dues) + [Clip(end as int - due as int)]
  {
  }

  lemma SumSnoc(xs: seq<nat>, x: nat)
    ensures Sum(xs + [x]) == Sum(xs) + x
  {
    assert (xs + [x])[..|xs|] == xs;
  }

  lemma {:induction false} SumConcat(a: seq<nat>, b: seq<nat>)
    ensures Sum(a + b) == Sum(a) + Sum(b)
    decreases |b|
  {
    if b == [] {
      assert a + b == a;
    } else {
      var b', y := b[..|b| - 1], b[|b| - 1];
      assert a + b == (a + b') + [y];
      SumConcat(a, b');
      SumSnoc(a + b', y);
    }
  }

  /** A column's sum does not depend on the order of its rows. */
  lemma {:induction false} SumPermutes(a: seq<nat>, b: seq<nat>)
    requires multiset(a) == multiset(b)
    ensures Sum(a) == Sum(b)
    decreases |a|
  {
    if a == [] {
      assert |b| == |multiset(b)| == 0;
    } else {
      var x := a[|a| - 1];
      var a' := a[..|a| - 1];
      assert a == a' + [x];
      assert x in multiset(b);
      var i :| 0 <= i < |b| && b[i] == x;
      var b' := b[..i] + b[i + 1..];
      assert b == b[..i] + [x] + b[i + 1..];
      Cancel(multiset(a'), multiset(b'), x);
      SumPermutes(a', b');
      SumConcat(b[..i] + [x], b[i + 1..]);
      SumConcat(b[..i], [x]);
      SumConcat(b[..i], b[i + 1..]);
      SumSnoc([], x);
      assert [] + [x] == [x];
    }
  }

  /** A processing-time column sums to the total processing time. */
  lemma {:induction false} SumOfPTimes(s: seq<Job>, pTimes: seq<nat>)
    requires |pTimes| == |s|
    requires forall k :: 0 <= k < |s| ==> pTimes[k] == s[k].pTime
    ensures Sum(pTimes) == SumP(s)
  {
    if s != [] {
      SumOfPTimes(s[..|s| - 1], pTimes[..|s| - 1]);
    }
  }

  /** `df.index.values` of a table with the default index: the row
      positions. */
  function Positions(n: nat): (r: seq<nat>)
    ensures |r| == n
    ensures forall k :: 0 <= k < n ==> r[k] == k
  {
    seq(n, k requires 0 <= k < n => k)
  }

  /** The order the scheduler returns for a table whose index labels are the
      row positions: its ids are a permutation of the positions, and the job
      at each place carries the processing time and due date of the row its
      id names. */
  lemma ScheduledRows(rows: seq<Row>)
    ensures var order := Schedule(ZipJobs(Positions(|rows|), PTimes(rows), Dues(rows)));
      multiset(IdsOf(order)) == multiset(Positions(|rows|))
      && forall k :: 0 <= k < |order| ==>
           order[k].id < |rows| && order[k].pTime == rows[order[k].id].pTime
           && order[k].due == rows[order[k].id].due
  {
    var n := |rows|;
    var jobs := ZipJobs(Positions(n), PTimes(rows), Dues(rows));
    var order := Schedule(jobs);
    SolveSpec(Positions(n), PTimes(rows), Dues(rows));
    DecomposePermutes(SortByDue(jobs), 0);
    SortByDuePermutes(jobs);
    forall k | 0 <= k < |order|
      ensures order[k].id < n && order[k].pTime == rows[order[k].id].pTime
              && order[k].due == rows[order[k].id].due
    {
      assert order[k] in multiset(jobs);
      var j :| 0 <= j < |jobs| && jobs[j] == order[k];
    }
  }

  /** Selecting rows by a permutation of their positions only reorders the
      table. */
  lemma ReorderPermutes(rows: seq<Row>, ix: seq<nat>)
    requires multiset(ix) == multiset(Positions(|rows|))
    ensures Reorder(rows, ix).Ok?
    ensures multiset(Reorder(rows, ix).value) == multiset(rows)
  {
    var n := |rows|;
    forall k | 0 <= k < |ix|
      ensures ix[k] < n
    {
      assert ix[k] in multiset(Positions(n));
    }
    var pick := (k: nat) => if k < n then rows[k] else Row("", 0, 0);
    MapPermutes(pick, ix, Positions(n));
    assert Map(pick, ix) == Reorder(rows, ix).value;
    assert Map(pick, Positions(n)) == rows;
  }

  /** Deriving the report from any permutation of the row positions: no
      position is out of range, so the call raises exactly when a job id
      repeats, and otherwise has one entry per job id of the table. */
  lemma DeriveFromPermutation(rows: seq<Row>, ix: seq<nat>, objectiveValue: nat)
    requires multiset(ix) == multiset(Positions(|rows|))
    ensures var r := Derive(rows, ix, objectiveValue);
      (r.Ok? <==> Distinct(JobIds(rows)))
      && (r.Ok? ==> forall id :: id in r.value.jobs <==> id in JobIds(rows))
  {
    ReorderPermutes(rows, ix);
    var ordered := Reorder(rows, ix).value;
    MapPermutes((x: Row) => x.jobId, ordered, rows);
    SameElements(JobIds(ordered), JobIds(rows));
    if Distinct(JobIds(rows)) {
      DistinctPermutes(JobIds(rows), JobIds(ordered));
    }
    if Distinct(JobIds(ordered)) {
      DistinctPermutes(JobIds(ordered), JobIds(rows));
    }
  }

  /** What `solve_dp_problem` promises for a table with the default index:
      the scheduler's order selects every row once, the call raises exactly
      when a job id repeats, the result has one entry per job id, and the
      objective value reported by the scheduler is the sum of the delay
      column. */
  lemma DpSolutionSpec(rows: seq<Row>)
    ensures var order := Schedule(ZipJobs(Positions(|rows|), PTimes(rows), Dues(rows)));
      var sel := Reorder(rows, IdsOf(order));
      var r := Derive(rows, IdsOf(order), TotalTardiness(0, order));
      sel.Ok? && multiset(sel.value) == multiset(rows)
      && (r.Ok? <==> Distinct(JobIds(rows)))
      && (r.Ok? ==>
            (forall id :: id in r.value.jobs <==> id in JobIds(rows))
            && r.value.objectiveValue == Sum(AddColumns(PTimes(sel.value), Dues(sel.value)).delay))
  {
    var order := Schedule(ZipJobs(Positions(|rows|), PTimes(rows), Dues(rows)));
    ScheduledRows(rows);
    DeriveFromOrder(rows, order);
  }

  /** `DpSolutionSpec` for any job order with the properties `ScheduledRows`
      establishes. */
  lemma DeriveFromOrder(rows: seq<Row>, order: seq<Job>)
    requires multiset(IdsOf(order)) == multiset(Positions(|rows|))
    requires forall k :: 0 <= k < |order| ==>
      order[k].id < |rows| && order[k].pTime == rows[order[k].id].pTime
      && order[k].due == rows[order[k].id].due
    ensures var sel := Reorder(rows, IdsOf(order));
      var r := Derive(rows, IdsOf(order), TotalTardiness(0, order));
      sel.Ok? && multiset(sel.value) == multiset(rows)
      && (r.Ok? <==> Distinct(JobIds(rows)))
      && (r.Ok? ==>
            (forall id :: id in r.value.jobs <==> id in JobIds(rows))
            && r.value.objectiveValue == Sum(AddColumns(PTimes(sel.value), Dues(sel.value)).delay))
  {
    ReorderPermutes(rows, IdsOf(order));
    DeriveFromPermutation(rows, IdsOf(order), TotalTardiness(0, order));
    OrderedDelays(rows, order);
  }

  /** The rows selected by the order carry the order's processing times and
      due dates, so their delay column sums to the order's total
      tardiness. */
  lemma OrderedDelays(rows: seq<Row>, order: seq<Job>)
    requires forall k :: 0 <= k < |order| ==>
      order[k].id < |rows| && order[k].pTime == rows[order[k].id].pTime
      && order[k].due == rows[order[k].id].due
    ensures var sel := Reorder(rows, IdsOf(order));
      sel.Ok? && Sum(AddColumns(PTimes(sel.value), Dues(sel.value)).delay) == TotalTardiness(0, order)
  {
    var ix := IdsOf(order);
    assert Reorder(rows, ix).Ok?;
    var ordered := Reorder(rows, ix).value;
    var pTimes, dues := PTimes(ordered), Dues(ordered);
    forall k | 0 <= k < |order|
      ensures pTimes[k] == order[k].pTime && dues[k] == order[k].due
    {
      assert ix[k] == order[k].id;
      assert ordered[k] == rows[ix[k]];
    }
    TotalDelay(order, pTimes, dues);
  }

  /** The `delay` values of a returned mapping, looked up job id by job id
      (0 for an id the mapping lacks). */
  function ReportedDelays(jobs: map<string, Entry>, ids: seq<string>): (r: seq<nat>)
    ensures |r| == |ids|
    ensures forall k :: 0 <= k < |ids| ==> r[k] == if ids[k] in jobs then jobs[ids[k]].delay else 0
  {
    Map((id: string) => if id in jobs then jobs[id].delay else 0, ids)
  }

  /** Looking up two orderings of the same ids gives two orderings of the
      same delays. */
  lemma ReportedDelaysPermute(jobs: map<string, Entry>, a: seq<string>, b: seq<string>)
    requires multiset(a) == multiset(b)
    ensures multiset(ReportedDelays(jobs, a)) == multiset(ReportedDelays(jobs, b))
  {
    var f := (id: string) => if id in jobs then jobs[id].delay else 0;
    MapPermutes(f, a, b);
    assert Map(f, a) == ReportedDelays(jobs, a);
    assert Map(f, b) == ReportedDelays(jobs, b);
  }

  /** Read back in the order of the reordered table, the returned delays are
      its delay column. */
  lemma ReportedInOrder(rows: seq<Row>, ix: seq<nat>, objectiveValue: nat)
    requires Reorder(rows, ix).Ok?
    ensures var sel := Reorder(rows, ix).value;
      var r := Derive(rows, ix, objectiveValue);
      r.Ok? ==> ReportedDelays(r.value.jobs, JobIds(sel)) == AddColumns(PTimes(sel), Dues(sel)).delay
  {
    var ordered := Reorder(rows, ix).value;
    var r := Derive(rows, ix, objectiveValue);
    if r.Ok? {
      var ids := JobIds(ordered);
      var delay := AddColumns(PTimes(ordered), Dues(ordered)).delay;
      forall k | 0 <= k < |ids|
        ensures ReportedDelays(r.value.jobs, ids)[k] == delay[k]
      {
        assert ids[k] == ordered[k].jobId;
        assert ids[k] in r.value.jobs;
      }
    }
  }

  /** For any permutation of the row positions, the delays stored in the
      returned mapping, read back in input order, sum to the delay column of
      the reordered table. */
  lemma ReportedObjective(rows: seq<Row>, ix: seq<nat>, objectiveValue: nat)
    requires multiset(ix) == multiset(Positions(|rows|))
    ensures Reorder(rows, ix).Ok?
    ensures var sel := Reorder(rows, ix).value;
      var r := Derive(rows, ix, objectiveValue);
      r.Ok? ==> Sum(ReportedDelays(r.value.jobs, JobIds(rows)))
                == Sum(AddColumns(PTimes(sel), Dues(sel)).delay)
  {
    ReorderPermutes(rows, ix);
    var ordered := Reorder(rows, ix).value;
    var r := Derive(rows, ix, objectiveValue);
    if r.Ok? {
      MapPermutes((x: Row) => x.jobId, rows, ordered);
      ReportedDelaysPermute(r.value.jobs, JobIds(rows), JobIds(ordered));
      ReportedInOrder(rows, ix, objectiveValue);
      SumPermutes(ReportedDelays(r.value.jobs, JobIds(rows)), ReportedDelays(r.value.jobs, JobIds(ordered)));
    }
  }

  /** With the default index, the reported objective value is the sum of the
      delays the returned mapping holds. */
  lemma ObjectiveIsSumOfDelays(rows: seq<Row>)
    ensures var order := Schedule(ZipJobs(Positions(|rows|), PTimes(rows), Dues(rows)));
      var r := Derive(rows, IdsOf(order), TotalTardiness(0, order));
      r.Ok? ==> r.value.objectiveValue == Sum(ReportedDelays(r.value.jobs, JobIds(rows)))
  {
    var order := Schedule(ZipJobs(Positions(|rows|), PTimes(rows), Dues(rows)));
    ScheduledRows(rows);
    DpSolutionSpec(rows);
    ReportedObjective(rows, IdsOf(order), TotalTardiness(0, order));
  }

  /** `solve_dp_problem`: the scheduler receives the index labels `index`,
      the processing times and the due dates, and its answer is turned into
      the report. */
  method SolveDpProblem(rows: seq<Row>, index: seq<nat>) returns (r: Result<Report>)
    ensures var order := Schedule(ZipJobs(index, PTimes(rows), Dues(rows)));
      r == Derive(rows, IdsOf(order), TotalTardiness(0, order))
    ensures index == Positions(|rows|) ==> (r.Ok? <==> Distinct(JobIds(rows)))
    ensures index == Positions(|rows|) && r.Ok? ==> forall id :: id in r.value.jobs <==> id in JobIds(rows)
  {
    var sortedIx, objectiveValue := Solve(index, PTimes(rows), Dues(rows));
    r := Derive(rows, sortedIx, objectiveValue);
    if index == Positions(|rows|) {
      DpSolutionSpec(rows);
    }
  }

  /** The index labels are used as row positions: a one-row table labelled
      1 instead of 0 makes `iloc` raise. */
  lemma NonPositionalIndexRaises()
    ensures var rows := [Row("a", 1, 1)];
      var order := Schedule(ZipJobs([1], PTimes(rows), Dues(rows)));
      Derive(rows, IdsOf(order), TotalTardiness(0, order)) == Err(IndexOutOfRange)
  {
    var rows := [Row("a", 1, 1)];
    var jobs := ZipJobs([1], PTimes(rows), Dues(rows));
    assert jobs == [Job(1, 1, 1)];
    assert SortByDue(jobs) == jobs;
    DecomposeShort(jobs, 0);
  }

  /** `solve_dp_problem` with the row positions, rather than the index
      labels, passed as ids: for every table it raises exactly when a job id
      repeats, and otherwise has one entry per job id and reports as
      objective value the sum of the delays it returns. */
  method SolveDpProblemByPosition(rows: seq<Row>) returns (r: Result<Report>)
    ensures r.Ok? <==> Distinct(JobIds(rows))
    ensures r.Ok? ==> forall id :: id in r.value.jobs <==> id in JobIds(rows)
    ensures r.Ok? ==> r.value.objectiveValue == Sum(ReportedDelays(r.value.jobs, JobIds(rows)))
  {
    r := SolveDpProblem(rows, Positions(|rows|));
    ObjectiveIsSumOfDelays(rows);
  }

  /** The index labels are used as row positions: for a table whose labels
      are the positions in another order, `iloc` succeeds but selects rows
      that do not match the jobs the scheduler ordered, and the objective
      value (1) differs from the sum of the returned delays (6). */
  lemma LabelIndexMisreports()
    ensures var rows := [Row("a", 1, 0), Row("b", 5, 100)];
      var order := Schedule(ZipJobs([1, 0], PTimes(rows), Dues(rows)));
      var r := Derive(rows, IdsOf(order), TotalTardiness(0, order));
      r.Ok? && r.value.objectiveValue == 1
      && Sum(ReportedDelays(r.value.jobs, JobIds(rows))) == 6
  {
    var rows := [Row("a", 1, 0), Row("b", 5, 100)];
    assert PTimes(rows) == [1, 5] && Dues(rows) == [0, 100];
    LabelSchedule();
    LabelReport();
  }

  /** The scheduler's answer for labels [1, 0], processing times [1, 5] and
      due dates [0, 100]: the due-date order is already final, label 1 comes
      first, and its job is one time unit late. */
  lemma LabelSchedule()
    ensures var order := Schedule(ZipJobs([1, 0], [1, 5], [0, 100]));
      IdsOf(order) == [1, 0] && TotalTardiness(0, order) == 1
  {
    var jobs := ZipJobs([1, 0], [1, 5], [0, 100]);
    assert jobs == [Job(1, 1, 0), Job(0, 5, 100)];
    assert SortByDue(jobs[1..]) == [Job(0, 5, 100)];
    assert SortByDue(jobs) == jobs;
    assert LastMaxIndex(jobs[..1]) == 0;
    assert LastMaxIndex(jobs) == 1;
    assert Target(jobs, 0) == 2;
    assert Left(jobs, 0) == [Job(1, 1, 0)];
    assert Right(jobs, 0) == [];
    DecomposeShort([Job(1, 1, 0)], 0);
    DecomposeShort([], RightStart(jobs, 0));
    assert Schedule(jobs) == jobs;
    assert TotalTardiness(0, jobs[..1]) == 1;
    assert IdsOf(jobs) == [1, 0];
  }

  /** Positions [1, 0] select row b before row a: b runs from 0 to 5 and is
      on time, a runs from 5 to 6 and is 6 late. */
  lemma LabelReport()
    ensures var rows := [Row("a", 1, 0), Row("b", 5, 100)];
      var r := Derive(rows, [1, 0], 1);
      r.Ok? && r.value.objectiveValue == 1
      && Sum(ReportedDelays(r.value.jobs, JobIds(rows))) == 6
  {
    var rows := [Row("a", 1, 0), Row("b", 5, 100)];
    var ordered := [rows[1], rows[0]];
    ReorderSwapped(rows);
    assert PTimes(ordered) == [5, 1] && Dues(ordered) == [100, 0];
    SwappedColumns();
    DeriveTwo(rows, [1, 0], 1, ordered, [0, 6]);
    ReportedTwo(Derive(rows, [1, 0], 1).value.jobs, JobIds(rows));
  }

  /** The reported delays of two job ids the mapping holds sum to their two
      delays. */
  lemma ReportedTwo(jobs: map<string, Entry>, ids: seq<string>)
    requires |ids| == 2 && ids[0] in jobs && ids[1] in jobs
    ensures Sum(ReportedDelays(jobs, ids)) == jobs[ids[0]].delay + jobs[ids[1]].delay
  {
    var reported := ReportedDelays(jobs, ids);
    assert reported[..1] == [reported[0]] && reported[..1][..0] == [];
    assert Sum(reported) == Sum(reported[..1]) + reported[1];
  }

  /** The report for a selection of two rows with different job ids: each
      id holds its row's delay. */
  lemma DeriveTwo(rows: seq<Row>, ix: seq<nat>, objectiveValue: nat, ordered: seq<Row>, delay: seq<nat>)
    requires Reorder(rows, ix) == Ok(ordered) && |ordered| == 2
    requires ordered[0].jobId != ordered[1].jobId
    requires AddColumns(PTimes(ordered), Dues(ordered)).delay == delay
    ensures var r := Derive(rows, ix, objectiveValue);
      r.Ok? && r.value.objectiveValue == objectiveValue
      && ordered[0].jobId in r.value.jobs && r.value.jobs[ordered[0].jobId].delay == delay[0]
      && ordered[1].jobId in r.value.jobs && r.value.jobs[ordered[1].jobId].delay == delay[1]
  {
    assert Distinct(JobIds(ordered));
  }

  /** Positions [1, 0] of a two-row table select its rows swapped. */
  lemma ReorderSwapped(rows: seq<Row>)
    requires |rows| == 2
    ensures Reorder(rows, [1, 0]) == Ok([rows[1], rows[0]])
  {
    var ix: seq<nat>, ix': seq<nat>, none: seq<nat> := [1, 0], [0], [];
    assert ix'[1..] == none;
    assert Reorder(rows, ix') == Ok([rows[0]] + []);
    assert ix[1..] == ix';
    assert [rows[1]] + ([rows[0]] + []) == [rows[1], rows[0]];
  }

  /** The delay column of the swapped table: b ends at 5, before its due
      date 100; a ends at 6, 6 past its due date 0. */
  lemma SwappedColumns()
    ensures AddColumns([5, 1], [100, 0]).delay == [0, 6]
  {
    assert CumSum([5]) == [5];
    assert CumSum([5, 1]) == [5, 6];
  }
}
