/** `jobs.sort_by_key(|x| x.due)` in src/lib.rs: Rust's slice sort is
    stable, so jobs with equal due dates keep their input order. The library
    routine is modelled as a stable insertion sort on sequences. */
module DueOrder {
  import opened Jobs

  predicate SortedByDue(s: seq<Job>)
  {
    forall i, j :: 0 <= i < j < |s| ==> s[i].due <= s[j].due
  }

  /** The jobs of `s` due at `d`, in their order in `s`. */
  function WithDue(s: seq<Job>, d: nat): seq<Job>
  {
    if s == [] then []
    else (if s[0].due == d then [s[0]] else []) + WithDue(s[1..], d)
  }

  /** Insert `x` before the first job due no earlier than it. */
  function InsertByDue(x: Job, s: seq<Job>): (r: seq<Job>)
    ensures |r| == |s| + 1
  {
    if s == [] || x.due <= s[0].due then [x] + s
    else [s[0]] + InsertByDue(x, s[1..])
  }

  function SortByDue(s: seq<Job>): (r: seq<Job>)
    ensures |r| == |s|
  {
    if s == [] then [] else InsertByDue(s[0], SortByDue(s[1..]))
  }

  lemma {:induction false} InsertPermutes(x: Job, s: seq<Job>)
    ensures multiset(InsertByDue(x, s)) == multiset(s) + multiset{x}
  {
    if s != [] && x.due > s[0].due {
      InsertPermutes(x, s[1..]);
      assert s == [s[0]] + s[1..];
    }
  }

  lemma {:induction false} InsertSorted(x: Job, s: seq<Job>)
    requires SortedByDue(s)
    ensures SortedByDue(InsertByDue(x, s))
  {
    if s != [] && x.due > s[0].due {
      var r' := InsertByDue(x, s[1..]);
      InsertSorted(x, s[1..]);
      InsertPermutes(x, s[1..]);
      forall k | 0 <= k < |r'|
        ensures s[0].due <= r'[k].due
      {
        assert r'[k] in multiset(s[1..]) + multiset{x};
        if r'[k] != x {
          assert r'[k] in s[1..];
        }
      }
    }
  }

  /** Inserting `x` adds it to the jobs of its due date, in front of those
      already there; other due dates are untouched. */
  lemma {:induction false} InsertWithDue(x: Job, s: seq<Job>, d: nat)
    ensures WithDue(InsertByDue(x, s), d) == (if x.due == d then [x] else []) + WithDue(s, d)
  {
    if s == [] || x.due <= s[0].due {
      WithDueCons(x, s, d);
    } else {
      var rest := InsertByDue(x, s[1..]);
      assert InsertByDue(x, s) == [s[0]] + rest;
      WithDueCons(s[0], rest, d);
      InsertWithDue(x, s[1..], d);
      assert s == [s[0]] + s[1..];
      WithDueCons(s[0], s[1..], d);
      if x.due == d {
        assert s[0].due != d;
      }
    }
  }

  /** `WithDue` of a sequence with a known first job. */
  lemma WithDueCons(y: Job, rest: seq<Job>, d: nat)
    ensures WithDue([y] + rest, d) == (if y.due == d then [y] else []) + WithDue(rest, d)
  {
    assert ([y] + rest)[1..] == rest;
  }

  /** The result is ordered by due date. */
  lemma {:induction false} SortByDueSorted(s: seq<Job>)
    ensures SortedByDue(SortByDue(s))
  {
    if s != [] {
      SortByDueSorted(s[1..]);
      InsertSorted(s[0], SortByDue(s[1..]));
    }
  }

  /** The result is a permutation of the input. */
  lemma {:induction false} SortByDuePermutes(s: seq<Job>)
    ensures multiset(SortByDue(s)) == multiset(s)
  {
    if s != [] {
      SortByDuePermutes(s[1..]);
      InsertPermutes(s[0], SortByDue(s[1..]));
      assert s == [s[0]] + s[1..];
    }
  }

  /** Stability: for every due date, the jobs due then appear in the same
      relative order as in the input. */
  lemma {:induction false} SortByDueStable(s: seq<Job>, d: nat)
    ensures WithDue(SortByDue(s), d) == WithDue(s, d)
  {
    if s != [] {
      SortByDueStable(s[1..], d);
      InsertWithDue(s[0], SortByDue(s[1..]), d);
    }
  }
}
