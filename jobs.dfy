/** Jobs on a single machine: the job record of src/lib.rs and the timing
    arithmetic that the scheduler and the schedule derivation share.
    Times are unbounded naturals; Rust's `saturating_sub` is `Tardiness`. */
module Jobs {

  /** One job: an identifier, a processing time and a due date. */
  datatype Job = Job(id: nat, pTime: nat, due: nat)

  /** `completion.saturating_sub(due)`: how late a job finishing at
      `completion` is, floored at zero. */
  function Tardiness(completion: nat, due: nat): (r: nat)
    ensures r >= completion - due
    ensures r == 0 || r == completion - due
  {
    if completion > due then completion - due else 0
  }

  /** Total processing time of a sequence of jobs (a prefix sum when applied
      to `s[..k]`). */
  function SumP(s: seq<Job>): nat
  {
    if s == [] then 0 else SumP(s[..|s| - 1]) + s[|s| - 1].pTime
  }

  /** Sum over positions k of the tardiness of job k when the jobs run back to
      back from time `start`: job k completes at start + p_0 + ... + p_k. */
  function TotalTardiness(start: nat, s: seq<Job>): (r: nat)
    ensures s == [] ==> r == 0
  {
    if s == [] then 0
    else TotalTardiness(start, s[..|s| - 1]) + Tardiness(start + SumP(s), s[|s| - 1].due)
  }

  /** The total tardiness is 0 exactly when every job completes by its due
      date. */
  lemma {:induction false} NoTardinessIffOnTime(start: nat, s: seq<Job>)
    ensures TotalTardiness(start, s) == 0
      <==> forall k :: 0 <= k < |s| ==> start + SumP(s[..k + 1]) <= s[k].due
  {
    if s != [] {
      var n := |s|;
      var init := s[..n - 1];
      NoTardinessIffOnTime(start, init);
      assert s[..n] == s;
      forall k | 0 <= k < n - 1
        ensures init[..k + 1] == s[..k + 1] && init[k] == s[k]
      {
      }
    }
  }

  lemma {:induction false} SumPConcat(a: seq<Job>, b: seq<Job>)
    ensures SumP(a + b) == SumP(a) + SumP(b)
    decreases |b|
  {
    if b == [] {
      assert a + b == a;
    } else {
      assert (a + b)[..|a + b| - 1] == a + b[..|b| - 1];
      SumPConcat(a, b[..|b| - 1]);
    }
  }

  /** Processing time is additive: the total of a sequence is its first job's
      time plus the total of the rest. */
  lemma SumPCons(x: Job, s: seq<Job>)
    ensures SumP([x] + s) == x.pTime + SumP(s)
  {
    SumPConcat([x], s);
    assert [x][..0] == [];
  }

  /** The total processing time, taken from the front. */
  lemma SumPDropFirst(s: seq<Job>)
    requires |s| > 0
    ensures SumP(s) == s[0].pTime + SumP(s[1..])
  {
    assert s == [s[0]] + s[1..];
    SumPCons(s[0], s[1..]);
  }

  /** Extending a window of a sequence by one job. */
  lemma SumPExtend(s: seq<Job>, i: nat, j: nat)
    requires i <= j < |s|
    ensures SumP(s[i..j + 1]) == SumP(s[i..j]) + s[j].pTime
  {
    assert s[i..j + 1][..j - i] == s[i..j];
  }

  /** Running a sequence split in two: the second half starts when the first
      half's processing time has elapsed. */
  lemma {:induction false} TotalTardinessConcat(start: nat, a: seq<Job>, b: seq<Job>)
    ensures TotalTardiness(start, a + b) == TotalTardiness(start, a) + TotalTardiness(start + SumP(a), b)
    decreases |b|
  {
    if b == [] {
      assert a + b == a;
    } else {
      var b' := b[..|b| - 1];
      assert (a + b)[..|a + b| - 1] == a + b';
      TotalTardinessConcat(start, a, b');
      SumPConcat(a, b);
      SumPConcat(a, b');
    }
  }

  /** Total processing time around one job. */
  lemma SumPAround(a: seq<Job>, x: Job, b: seq<Job>)
    ensures SumP(a + [x] + b) == SumP(a) + x.pTime + SumP(b)
  {
    SumPConcat(a + [x], b);
    SumPConcat(a, [x]);
    SingleSumP(x);
  }

  /** Total tardiness around one job: the part before it, the job itself
      completing at `mid`, after the part before it, and the part after it,
      starting at `mid`. */
  lemma TotalTardinessAround(start: nat, a: seq<Job>, x: Job, b: seq<Job>, mid: nat)
    requires mid == start + SumP(a) + x.pTime
    ensures TotalTardiness(start, a + [x] + b)
         == TotalTardiness(start, a) + Tardiness(mid, x.due) + TotalTardiness(mid, b)
  {
    TotalTardinessConcat(start, a + [x], b);
    SumPConcat(a, [x]);
    SingleSumP(x);
    assert (a + [x])[..|a + [x]| - 1] == a;
  }

  /** Two jobs run back to back from `cur`: the first completes at
      cur + p_x, the second at cur + p_x + p_y. */
  lemma PairTotal(cur: nat, x: Job, y: Job)
    ensures TotalTardiness(cur, [x, y])
         == Tardiness(cur + x.pTime, x.due) + Tardiness(cur + x.pTime + y.pTime, y.due)
  {
    SingleSumP(x);
    PairSumP(x, y);
    assert [x, y][..1] == [x];
    assert [x][..0] == [];
    assert TotalTardiness(cur, [x]) == Tardiness(cur + x.pTime, x.due);
  }

  /** Exchanging two adjacent jobs only changes the tardiness of that pair:
      everything before keeps its times and everything after starts at the
      same instant either way. */
  lemma ExchangeAdjacent(start: nat, pre: seq<Job>, x: Job, y: Job, post: seq<Job>)
    ensures TotalTardiness(start, pre + [x, y] + post) + TotalTardiness(start + SumP(pre), [y, x])
         == TotalTardiness(start, pre + [y, x] + post) + TotalTardiness(start + SumP(pre), [x, y])
  {
    var cur := start + SumP(pre);
    var xy, yx := pre + [x, y], pre + [y, x];
    assert SumP(xy) == SumP(yx) by {
      SumPConcat(pre, [x, y]);
      SumPConcat(pre, [y, x]);
      PairSumP(x, y);
      PairSumP(y, x);
    }
    var rest := TotalTardiness(start + SumP(xy), post);
    assert TotalTardiness(start, xy + post) == TotalTardiness(start, xy) + rest by {
      TotalTardinessConcat(start, xy, post);
    }
    assert TotalTardiness(start, yx + post) == TotalTardiness(start, yx) + rest by {
      TotalTardinessConcat(start, yx, post);
    }
    TotalTardinessConcat(start, pre, [x, y]);
    TotalTardinessConcat(start, pre, [y, x]);
  }

  lemma PairSumP(x: Job, y: Job)
    ensures SumP([x, y]) == x.pTime + y.pTime
  {
    SingleSumP(x);
    assert [x, y][..1] == [x];
  }

  lemma SingleSumP(x: Job)
    ensures SumP([x]) == x.pTime
  {
    assert [x][..0] == [];
  }

  /** Exchanging two consecutive blocks does not change the total
      processing time. */
  lemma SumPSwap(a: seq<Job>, b: seq<Job>, c: seq<Job>, d: seq<Job>)
    ensures SumP(a + c + b + d) == SumP(a + b + c + d)
  {
    SumPConcat(a, b); SumPConcat(a + b, c); SumPConcat(a + b + c, d);
    SumPConcat(a, c); SumPConcat(a + c, b); SumPConcat(a + c + b, d);
  }
}
