/** Assignments of jobs to machines, and the approximation theorem for greedy scheduling of jobs
    in descending order of size.

    Jobs are the positions of a sequence of sizes `p`; an assignment `a` names a machine for every
    job. Everything is stated for the first `t` jobs, so that the run of the greedy loop and its
    prefixes are the same kind of object. */
module Scheduling {

  /** Size of the first `t` jobs together. */
  ghost function Total(p: seq<nat>, t: nat): nat
    requires t <= |p|
  {
    if t == 0 then 0 else Total(p, t - 1) + p[t - 1]
  }

  /** Load of machine `k` after the first `t` jobs. */
  ghost function Load(p: seq<nat>, a: seq<nat>, k: nat, t: nat): nat
    requires t <= |p| == |a|
  {
    if t == 0 then 0 else Load(p, a, k, t - 1) + if a[t - 1] == k then p[t - 1] else 0
  }

  /** Number of the first `t` jobs on machine `k`. */
  ghost function Count(a: seq<nat>, k: nat, t: nat): nat
    requires t <= |a|
  {
    if t == 0 then 0 else Count(a, k, t - 1) + if a[t - 1] == k then 1 else 0
  }

  ghost predicate Assigns(a: seq<nat>, n: nat, t: nat) {
    t <= |a| && forall i :: 0 <= i < t ==> a[i] < n
  }

  ghost predicate Descending(p: seq<nat>) {
    forall i, j :: 0 <= i < j < |p| ==> p[i] >= p[j]
  }

  /** Job `i` went to a machine whose load was minimal when it was placed (ties in any way). */
  ghost predicate PlacedOnLightest(p: seq<nat>, a: seq<nat>, n: nat, i: nat)
    requires i < |p| == |a|
  {
    forall k: nat :: k < n ==> Load(p, a, a[i], i) <= Load(p, a, k, i)
  }

  ghost predicate Greedy(p: seq<nat>, a: seq<nat>, n: nat, t: nat) {
    && t <= |p| == |a|
    && Assigns(a, n, t)
    && forall i: nat :: i < t ==> PlacedOnLightest(p, a, n, i)
  }

  /** All `n` machines carry at most `c`. */
  ghost predicate Within(p: seq<nat>, a: seq<nat>, n: nat, t: nat, c: nat) {
    && t <= |p| == |a|
    && Assigns(a, n, t)
    && forall k: nat :: k < n ==> Load(p, a, k, t) <= c
  }

  // ---- sums over the machines

  ghost function LoadSum(p: seq<nat>, a: seq<nat>, n: nat, t: nat): nat
    requires t <= |p| == |a|
  {
    if n == 0 then 0 else LoadSum(p, a, n - 1, t) + Load(p, a, n - 1, t)
  }

  ghost function CountSum(a: seq<nat>, n: nat, t: nat): nat
    requires t <= |a|
  {
    if n == 0 then 0 else CountSum(a, n - 1, t) + Count(a, n - 1, t)
  }

  lemma {:induction false} LoadSumStep(p: seq<nat>, a: seq<nat>, n: nat, t: nat)
    requires 0 < t <= |p| == |a|
    ensures LoadSum(p, a, n, t) == LoadSum(p, a, n, t - 1) + if a[t - 1] < n then p[t - 1] else 0
  {
    if n > 0 { LoadSumStep(p, a, n - 1, t); }
  }

  lemma {:induction false} LoadSumIsTotal(p: seq<nat>, a: seq<nat>, n: nat, t: nat)
    requires t <= |p| == |a| && Assigns(a, n, t)
    ensures LoadSum(p, a, n, t) == Total(p, t)
  {
    if t == 0 {
      LoadSumAtMost(p, a, n, 0, 0);
    } else {
      LoadSumStep(p, a, n, t);
      LoadSumIsTotal(p, a, n, t - 1);
    }
  }

  lemma {:induction false} CountSumStep(a: seq<nat>, n: nat, t: nat)
    requires 0 < t <= |a|
    ensures CountSum(a, n, t) == CountSum(a, n, t - 1) + if a[t - 1] < n then 1 else 0
  {
    if n > 0 { CountSumStep(a, n - 1, t); }
  }

  lemma {:induction false} CountSumZero(a: seq<nat>, n: nat)
    ensures CountSum(a, n, 0) == 0
  {
    if n > 0 { CountSumZero(a, n - 1); }
  }

  lemma {:induction false} CountSumIsTime(a: seq<nat>, n: nat, t: nat)
    requires Assigns(a, n, t)
    ensures CountSum(a, n, t) == t
  {
    if t == 0 {
      CountSumZero(a, n);
    } else {
      CountSumStep(a, n, t);
      CountSumIsTime(a, n, t - 1);
    }
  }

  lemma {:induction false} LoadSumAtMost(p: seq<nat>, a: seq<nat>, n: nat, t: nat, c: nat)
    requires t <= |p| == |a|
    requires forall k: nat :: k < n ==> Load(p, a, k, t) <= c
    ensures LoadSum(p, a, n, t) <= n * c
  {
    if n > 0 {
      LoadSumAtMost(p, a, n - 1, t, c);
      assert n * c == (n - 1) * c + c;
    }
  }

  lemma {:induction false} LoadSumAtLeast(p: seq<nat>, a: seq<nat>, n: nat, t: nat, c: nat)
    requires t <= |p| == |a|
    requires forall k: nat :: k < n ==> c <= Load(p, a, k, t)
    ensures n * c <= LoadSum(p, a, n, t)
  {
    if n > 0 {
      LoadSumAtLeast(p, a, n - 1, t, c);
      assert n * c == (n - 1) * c + c;
    }
  }

  lemma {:induction false} LoadMonotone(p: seq<nat>, a: seq<nat>, k: nat, t: nat, u: nat)
    requires t <= u <= |p| == |a|
    ensures Load(p, a, k, t) <= Load(p, a, k, u)
  {
    if t < u { LoadMonotone(p, a, k, t, u - 1); }
  }

  // ---- single jobs on a machine

  lemma {:induction false} LoadHasJob(p: seq<nat>, a: seq<nat>, k: nat, t: nat, i: nat)
    requires i < t <= |p| == |a| && a[i] == k
    ensures p[i] <= Load(p, a, k, t)
  {
    if i < t - 1 { LoadHasJob(p, a, k, t - 1, i); }
  }

  lemma {:induction false} LoadHasTwoJobs(p: seq<nat>, a: seq<nat>, k: nat, t: nat, i: nat, j: nat)
    requires i < j < t <= |p| == |a| && a[i] == k && a[j] == k
    ensures p[i] + p[j] <= Load(p, a, k, t)
  {
    if j < t - 1 {
      LoadHasTwoJobs(p, a, k, t - 1, i, j);
    } else {
      LoadHasJob(p, a, k, t - 1, i);
    }
  }

  lemma {:induction false} EmptyMachine(p: seq<nat>, a: seq<nat>, k: nat, t: nat)
    requires t <= |p| == |a| && Count(a, k, t) == 0
    ensures Load(p, a, k, t) == 0
  {
    if t > 0 { EmptyMachine(p, a, k, t - 1); }
  }

  /** The only job on a machine, when there is exactly one. */
  lemma {:induction false} OnlyJob(p: seq<nat>, a: seq<nat>, k: nat, t: nat) returns (i: nat)
    requires t <= |p| == |a| && Count(a, k, t) == 1
    ensures i < t && a[i] == k && Load(p, a, k, t) == p[i]
  {
    if a[t - 1] == k {
      i := t - 1;
      EmptyMachine(p, a, k, t - 1);
    } else {
      i := OnlyJob(p, a, k, t - 1);
    }
  }

  lemma {:induction false} AJob(a: seq<nat>, k: nat, t: nat) returns (i: nat)
    requires t <= |a| && Count(a, k, t) > 0
    ensures i < t && a[i] == k
  {
    if a[t - 1] == k {
      i := t - 1;
    } else {
      i := AJob(a, k, t - 1);
    }
  }

  lemma {:induction false} AnotherJob(a: seq<nat>, k: nat, t: nat, i: nat) returns (j: nat)
    requires i < t <= |a| && a[i] == k && Count(a, k, t) >= 2
    ensures j < t && j != i && a[j] == k
  {
    if a[t - 1] == k && i != t - 1 {
      j := t - 1;
    } else if a[t - 1] == k {
      j := AJob(a, k, t - 1);
    } else {
      j := AnotherJob(a, k, t - 1, i);
    }
  }

  lemma {:induction false} CountPositive(a: seq<nat>, k: nat, t: nat, i: nat)
    requires i < t <= |a| && a[i] == k
    ensures Count(a, k, t) > 0
  {
    if i < t - 1 { CountPositive(a, k, t - 1, i); }
  }

  /** Jobs each larger than a third of `c`: three of them exceed `c`. */
  lemma {:induction false} CountTimesThird(p: seq<nat>, a: seq<nat>, k: nat, t: nat, c: nat)
    requires t <= |p| == |a|
    requires forall i :: 0 <= i < t ==> 3 * p[i] > c
    ensures 3 * Load(p, a, k, t) >= Count(a, k, t) * (c + 1)
  {
    if t > 0 {
      CountTimesThird(p, a, k, t - 1, c);
      if a[t - 1] == k {
        assert Count(a, k, t) * (c + 1) == Count(a, k, t - 1) * (c + 1) + (c + 1);
      }
    }
  }

  lemma AtMostTwo(p: seq<nat>, a: seq<nat>, k: nat, t: nat, c: nat)
    requires t <= |p| == |a|
    requires forall i :: 0 <= i < t ==> 3 * p[i] > c
    requires Load(p, a, k, t) <= c
    ensures Count(a, k, t) <= 2
  {
    CountTimesThird(p, a, k, t, c);
    var extra := Count(a, k, t) - 3;
    assert Count(a, k, t) * (c + 1) == 3 * (c + 1) + extra * (c + 1);
  }

  // ---- counting the machines with one job

  ghost function Singles(a: seq<nat>, n: nat, t: nat): set<nat>
    requires t <= |a|
  {
    set k: nat | k < n && Count(a, k, t) == 1
  }

  lemma {:induction false} CountSumAndSingles(a: seq<nat>, n: nat, t: nat)
    requires t <= |a|
    requires forall k: nat :: k < n ==> Count(a, k, t) <= 2
    ensures CountSum(a, n, t) + |Singles(a, n, t)| <= 2 * n
    ensures (forall k: nat :: k < n ==> Count(a, k, t) >= 1) ==> CountSum(a, n, t) + |Singles(a, n, t)| == 2 * n
  {
    if n == 0 {
      assert Singles(a, n, t) == {};
    } else {
      CountSumAndSingles(a, n - 1, t);
      if Count(a, n - 1, t) == 1 {
        assert Singles(a, n, t) == Singles(a, n - 1, t) + {n - 1};
      } else {
        assert Singles(a, n, t) == Singles(a, n - 1, t);
      }
    }
  }

  ghost predicate Injection(f: map<nat, nat>, to: set<nat>) {
    && (forall x :: x in f ==> f[x] in to)
    && (forall x, y :: x in f && y in f && f[x] == f[y] ==> x == y)
  }

  lemma {:induction false} InjectionCardinality(f: map<nat, nat>, to: set<nat>)
    requires Injection(f, to)
    ensures |f.Keys| <= |to|
    decreases |to|
  {
    if x :| x in f {
      var rest := f - {x};
      assert rest.Keys == f.Keys - {x};
      InjectionCardinality(rest, to - {f[x]});
    }
  }

  /** Machines that carry one job under the greedy assignment `g`, when one more job no longer fits
      anywhere, are no more numerous than machines with one job under `o`: their jobs must be alone
      under `o` as well. */
  lemma {:induction false} SinglesStaySingle(p: seq<nat>, g: seq<nat>, o: seq<nat>, n: nat, j: nat, c: nat)
    requires j < |p| == |g| == |o| && Descending(p)
    requires Assigns(g, n, j) && Within(p, o, n, j + 1, c)
    requires forall k: nat :: k < n ==> Load(p, g, k, j) + p[j] > c
    ensures |Singles(g, n, j)| <= |Singles(o, n, j + 1)|
  {
    forall k: nat | k < n && Count(g, k, j) == 1
      ensures exists i: nat :: i < j && g[i] == k && o[i] in Singles(o, n, j + 1)
    {
      var i := OnlyJob(p, g, k, j);
      CountPositive(o, o[i], j + 1, i);
      if Count(o, o[i], j + 1) >= 2 {
        var x := AnotherJob(o, o[i], j + 1, i);
        assert p[x] >= p[j];
        LoadHasTwoJobs(p, o, o[i], j + 1, if i < x then i else x, if i < x then x else i);
        assert false;
      }
    }
    var job := map k: nat | k in Singles(g, n, j) ::
      var i: nat :| i < j && g[i] == k && o[i] in Singles(o, n, j + 1); i;
    var f := map k: nat | k in Singles(g, n, j) :: o[job[k]];
    forall x, y | x in f && y in f && f[x] == f[y]
      ensures x == y
    {
      if job[x] != job[y] {
        TwoJobsCounted(o, f[x], j + 1, job[x], job[y]);
      }
    }
    assert f.Keys == Singles(g, n, j);
    InjectionCardinality(f, Singles(o, n, j + 1));
  }

  lemma {:induction false} TwoJobsCounted(a: seq<nat>, k: nat, t: nat, i: nat, j: nat)
    requires i < t <= |a| && j < t && i != j && a[i] == k && a[j] == k
    ensures Count(a, k, t) >= 2
  {
    if i == t - 1 {
      CountPositive(a, k, t - 1, j);
    } else if j == t - 1 {
      CountPositive(a, k, t - 1, i);
    } else {
      TwoJobsCounted(a, k, t - 1, i, j);
    }
  }

  /** Greedy scheduling in descending order is optimal as long as every job is larger than a third
      of what some other assignment achieves. */
  lemma {:induction false} LargeJobsOptimal(p: seq<nat>, g: seq<nat>, o: seq<nat>, n: nat, t: nat, c: nat)
    requires Descending(p) && |o| == |p|
    requires Greedy(p, g, n, t) && Within(p, o, n, t, c)
    requires forall i :: 0 <= i < t ==> 3 * p[i] > c
    ensures Within(p, g, n, t, c)
  {
    if t == 0 { return; }
    var j := t - 1;
    forall k: nat | k < n { LoadMonotone(p, o, k, j, t); }
    LargeJobsOptimal(p, g, o, n, j, c);
    assert PlacedOnLightest(p, g, n, j);
    if Load(p, g, g[j], j) + p[j] > c {
      forall k: nat | k < n
        ensures 1 <= Count(g, k, j) <= 2 && Count(o, k, t) <= 2
      {
        AtMostTwo(p, g, k, j, c);
        AtMostTwo(p, o, k, t, c);
        if Count(g, k, j) == 0 {
          EmptyMachine(p, g, k, j);
          LoadHasJob(p, o, o[j], t, j);
        }
      }
      SinglesStaySingle(p, g, o, n, j, c);
      CountSumAndSingles(g, n, j);
      CountSumAndSingles(o, n, t);
      CountSumIsTime(g, n, j);
      CountSumIsTime(o, n, t);
      assert false;
    }
  }

  // ---- the bounds

  lemma AveragePlusJob(n: nat, x: nat, y: nat, total: nat)
    requires n * x <= total
    ensures n * (x + y) <= total + y + (n - 1) * y
  {}

  lemma FourThirds(n: nat, load: nat, c: nat, y: nat, total: nat)
    requires n > 0 && 3 * y <= c && total <= n * c
    requires n * load <= total + (n - 1) * y
    ensures 3 * n * load <= (4 * n - 1) * c
  {
    MulMonotone(n - 1, 3 * y, c);
    assert 3 * n * load == 3 * (n * load) <= 3 * (n * c) + (n - 1) * (3 * y);
  }

  lemma MulMonotone(n: nat, x: nat, y: nat)
    requires x <= y
    ensures n * x <= n * y
  {}

  /** Graham: the machine that receives job `j` is at most the average load plus what remains of `j`. */
  lemma {:induction false} GrahamBound(p: seq<nat>, g: seq<nat>, n: nat, j: nat)
    requires j < |p| && Greedy(p, g, n, j + 1)
    ensures n * Load(p, g, g[j], j + 1) <= Total(p, j + 1) + (n - 1) * p[j]
  {
    var before := Load(p, g, g[j], j);
    assert PlacedOnLightest(p, g, n, j);
    LoadSumAtLeast(p, g, n, j, before);
    LoadSumIsTotal(p, g, n, j);
    AveragePlusJob(n, before, p[j], Total(p, j));
  }

  lemma {:induction false} LastJob(p: seq<nat>, a: seq<nat>, k: nat, t: nat) returns (j: nat)
    requires t <= |p| == |a| && Count(a, k, t) > 0
    ensures j < t && a[j] == k && Load(p, a, k, t) == Load(p, a, k, j + 1)
  {
    if a[t - 1] == k {
      j := t - 1;
    } else {
      j := LastJob(p, a, k, t - 1);
    }
  }

  /** The load of a machine right after it received job `j`. */
  lemma {:induction false} BoundAfterJob(p: seq<nat>, g: seq<nat>, o: seq<nat>, n: nat, c: nat, j: nat)
    requires Descending(p) && |o| == |p| && j < |p|
    requires Greedy(p, g, n, j + 1) && Within(p, o, n, j + 1, c)
    ensures 3 * n * Load(p, g, g[j], j + 1) <= (4 * n - 1) * c
  {
    var load := Load(p, g, g[j], j + 1);
    if 3 * p[j] > c {
      LargeJobsOptimal(p, g, o, n, j + 1, c);
      MulMonotone(n, load, c);
      FourThirds(n, load, c, 0, n * c);
    } else {
      GrahamBound(p, g, n, j);
      LoadSumIsTotal(p, o, n, j + 1);
      LoadSumAtMost(p, o, n, j + 1, c);
      FourThirds(n, load, c, p[j], Total(p, j + 1));
    }
  }

  /** Graham's theorem for longest-processing-time-first: every machine's load is at most
      4/3 - 1/(3n) times the largest load `c` of any assignment of the same jobs. */
  lemma {:induction false} LongestFirstBound(p: seq<nat>, g: seq<nat>, o: seq<nat>, n: nat, c: nat, k: nat)
    requires Descending(p) && |o| == |p|
    requires Greedy(p, g, n, |p|) && Within(p, o, n, |p|, c)
    requires k < n
    ensures 3 * n * Load(p, g, k, |p|) <= (4 * n - 1) * c
  {
    if Count(g, k, |p|) == 0 {
      EmptyMachine(p, g, k, |p|);
      MulMonotone(c, 0, 4 * n - 1);
    } else {
      var j := LastJob(p, g, k, |p|);
      var t := j + 1;
      forall x: nat | x < n
        ensures Load(p, o, x, t) <= c
      {
        LoadMonotone(p, o, x, t, |p|);
      }
      BoundAfterJob(p, g, o, n, c, j);
    }
  }

  /** With positive sizes and at least as many jobs as machines, no machine stays empty. */
  lemma {:induction false} NoIdleMachine(p: seq<nat>, g: seq<nat>, n: nat, k: nat)
    requires Greedy(p, g, n, |p|) && k < n <= |p|
    requires forall i :: 0 <= i < |p| ==> p[i] > 0
    ensures Count(g, k, |p|) > 0
  {
    if Count(g, k, |p|) == 0 {
      EmptyMachine(p, g, k, |p|);
      forall x: nat | x < n
        ensures Count(g, x, |p|) <= 1
      {
        if Count(g, x, |p|) >= 2 {
          var j := LastJobOf(p, g, x, |p|);
          assert PlacedOnLightest(p, g, n, j);
          LoadMonotone(p, g, k, j, |p|);
          var i := AJob(g, x, j);
          LoadHasJob(p, g, x, j, i);
          assert false;
        }
      }
      CountSumOneEmpty(g, n, |p|, k);
      CountSumIsTime(g, n, |p|);
    }
  }

  lemma {:induction false} LastJobOf(p: seq<nat>, a: seq<nat>, k: nat, t: nat) returns (j: nat)
    requires t <= |p| == |a| && Count(a, k, t) >= 2
    ensures j < t && a[j] == k && Count(a, k, j) >= 1
  {
    if a[t - 1] == k {
      j := t - 1;
    } else {
      j := LastJobOf(p, a, k, t - 1);
    }
  }

  lemma {:induction false} CountSumOneEmpty(a: seq<nat>, n: nat, t: nat, k: nat)
    requires t <= |a|
    requires forall x: nat :: x < n ==> Count(a, x, t) <= 1
    requires Count(a, k, t) == 0
    ensures CountSum(a, n, t) <= if k < n then n - 1 else n
  {
    if n > 0 { CountSumOneEmpty(a, n - 1, t, k); }
  }
}
