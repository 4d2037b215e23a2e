/** `srpt.py`: a processor that always works on the job with the shortest remaining time.

    Jobs are numbered in order of arrival; a job is unfinished while its remaining time is positive.
    The guarantee: after every tick no other way of doing one unit of work per tick has fewer
    unfinished jobs, so the sum of the lifetimes is as small as any policy can make it. */
module Srpt {

  function Rem(x: int): nat {
    if x > 0 then x else 0
  }

  /** How many jobs are unfinished. */
  function Unfinished(jobs: seq<int>): (n: nat)
    ensures n <= |jobs|
  {
    if jobs == [] then 0 else Unfinished(jobs[..|jobs| - 1]) + (if jobs[|jobs| - 1] > 0 then 1 else 0)
  }

  function Min(a: nat, b: nat): nat {
    if a <= b then a else b
  }

  /** The least work left after striking out at most `k` jobs: the sum of all but the `k` longest remaining times. */
  ghost function Tail(jobs: seq<int>, k: nat): nat {
    if jobs == [] then 0
    else
      var front, x := jobs[..|jobs| - 1], Rem(jobs[|jobs| - 1]);
      if k == 0 then Tail(front, 0) + x else Min(Tail(front, k - 1), Tail(front, k) + x)
  }

  // ---------------------------------------------------------------- tails

  /** Nothing is left beyond `k` jobs exactly when at most `k` are unfinished. */
  lemma {:induction false} TailZero(jobs: seq<int>, k: nat)
    ensures Tail(jobs, k) == 0 <==> Unfinished(jobs) <= k
  {
    if jobs != [] {
      var front := jobs[..|jobs| - 1];
      TailZero(front, k);
      if k > 0 { TailZero(front, k - 1); }
    }
  }

  /** One unit of work anywhere takes at most one unit off every tail. */
  lemma {:induction false} AnyWork(jobs: seq<int>, i: nat, k: nat)
    requires i < |jobs|
    ensures Tail(jobs, k) <= Tail(jobs[i := jobs[i] - 1], k) + 1
  {
    var front, jobs' := jobs[..|jobs| - 1], jobs[i := jobs[i] - 1];
    if i < |front| {
      assert jobs'[..|jobs| - 1] == front[i := front[i] - 1];
      AnyWork(front, i, k);
      if k > 0 { AnyWork(front, i, k - 1); }
    } else {
      assert jobs'[..|jobs| - 1] == front;
    }
  }

  /** Job `i` has the shortest remaining time of all unfinished jobs. */
  ghost predicate Shortest(jobs: seq<int>, i: nat) {
    i < |jobs| && jobs[i] > 0 && forall j | 0 <= j < |jobs| && jobs[j] > 0 :: jobs[i] <= jobs[j]
  }

  /** Striking out one more job removes at least `x` when no unfinished job is shorter than that. */
  lemma {:induction false} StrikeOneMore(jobs: seq<int>, k: nat, x: nat)
    requires forall j | 0 <= j < |jobs| && jobs[j] > 0 :: x <= jobs[j]
    requires Tail(jobs, k) > 0
    ensures Tail(jobs, k + 1) + x <= Tail(jobs, k)
  {
    var front, y := jobs[..|jobs| - 1], jobs[|jobs| - 1];
    if Tail(front, k) > 0 { StrikeOneMore(front, k, x); }
    if k > 0 && Tail(front, k - 1) > 0 { StrikeOneMore(front, k - 1, x); }
  }

  /** If `k` jobs are all there is, striking out all but `i` of them leaves no more than job `i`. */
  lemma {:induction false} LeaveOne(jobs: seq<int>, k: nat, i: nat)
    requires i < |jobs| && jobs[i] > 0 && Tail(jobs, k) == 0
    ensures k > 0 && Tail(jobs, k - 1) <= jobs[i]
  {
    var front := jobs[..|jobs| - 1];
    if i < |front| {
      if Tail(front, k) == 0 { LeaveOne(front, k, i); }
      if k > 0 && Tail(front, k - 1) == 0 { LeaveOne(front, k - 1, i); }
    }
  }

  /** Work on the shortest job takes one unit off every tail that has any. */
  lemma {:induction false} ShortestWork(jobs: seq<int>, i: nat, k: nat)
    requires Shortest(jobs, i) && Tail(jobs, k) > 0
    ensures Tail(jobs[i := jobs[i] - 1], k) < Tail(jobs, k)
    decreases |jobs|, 0
  {
    var front, jobs' := jobs[..|jobs| - 1], jobs[i := jobs[i] - 1];
    if i == |front| {
      assert jobs'[..|jobs| - 1] == front;
      if k > 0 && Tail(front, k - 1) > 0 { StrikeOneMore(front, k - 1, jobs[i]); }
    } else {
      assert jobs'[..|jobs| - 1] == front[i := front[i] - 1];
      ShortestInFront(front, i, k);
    }
  }

  lemma {:induction false} ShortestInFront(front: seq<int>, i: nat, k: nat)
    requires Shortest(front, i)
    ensures Tail(front, k) > 0 ==> Tail(front[i := front[i] - 1], k) < Tail(front, k)
    ensures k > 0 && Tail(front, k - 1) > 0 ==> Tail(front[i := front[i] - 1], k - 1) < Tail(front, k - 1)
    ensures Tail(front, k) == 0 ==> k > 0 && Tail(front, k - 1) <= front[i]
    decreases |front|, 1
  {
    if Tail(front, k) > 0 { ShortestWork(front, i, k); }
    if k > 0 && Tail(front, k - 1) > 0 { ShortestWork(front, i, k - 1); }
    if Tail(front, k) == 0 { LeaveOne(front, k, i); }
  }

  // ---------------------------------------------------------------- policies

  /** A nonzero entry of the schedule brings a job. */
  function Arrive(jobs: seq<int>, current: int): (r: seq<int>)
    ensures |r| == |jobs| + (if current != 0 then 1 else 0)
  {
    if current != 0 then jobs + [current] else jobs
  }

  /** One unit of work on job `choice`, or on nothing if there is no such job. */
  function Work(jobs: seq<int>, choice: int): (r: seq<int>)
    ensures |r| == |jobs|
  {
    if 0 <= choice < |jobs| then jobs[choice := jobs[choice] - 1] else jobs
  }

  function Arrival(schedule: seq<int>, t: nat): int {
    if t < |schedule| then schedule[t] else 0
  }

  /** Remaining times after `t` ticks when tick `u` works on job `choices[u]`. */
  ghost function Remaining(schedule: seq<int>, choices: seq<int>, t: nat): seq<int>
    requires t <= |choices|
  {
    if t == 0 then []
    else Work(Arrive(Remaining(schedule, choices, t - 1), Arrival(schedule, t - 1)), choices[t - 1])
  }

  /** The job present at tick `t`, before its work is done. */
  ghost function Present(schedule: seq<int>, choices: seq<int>, t: nat): seq<int>
    requires t < |choices|
  {
    Arrive(Remaining(schedule, choices, t), Arrival(schedule, t))
  }

  /** How many ticks each job has been seen unfinished, over the first `t` ticks. */
  ghost function Lifetimes(schedule: seq<int>, choices: seq<int>, t: nat): (l: seq<nat>)
    requires t <= |choices|
    ensures |l| == |Remaining(schedule, choices, t)|
  {
    if t == 0 then []
    else Aged(Present(schedule, choices, t - 1), Lifetimes(schedule, choices, t - 1))
  }

  /** One tick older: new jobs start at zero, unfinished jobs live on. */
  function Aged(jobs: seq<int>, lifetimes: seq<nat>): (l: seq<nat>)
    requires |lifetimes| <= |jobs|
    ensures |l| == |jobs|
  {
    seq(|jobs|, j requires 0 <= j < |jobs| =>
      (if j < |lifetimes| then lifetimes[j] else 0) + (if jobs[j] > 0 then 1 else 0))
  }

  function Sum(s: seq<nat>): nat {
    if s == [] then 0 else Sum(s[..|s| - 1]) + s[|s| - 1]
  }

  /** Every tick works on a shortest job whenever there is an unfinished one. */
  ghost predicate ShortestFirst(schedule: seq<int>, choices: seq<int>) {
    forall t: nat | t < |choices| :: TickShortest(Present(schedule, choices, t), choices[t])
  }

  ghost predicate TickShortest(jobs: seq<int>, choice: int) {
    Unfinished(jobs) > 0 ==> choice >= 0 && Shortest(jobs, choice)
  }

  /** The first of the shortest unfinished jobs; when every job is finished the last one. -1 stands for no
      job at all. */
  ghost predicate FirstShortest(jobs: seq<int>, choice: int) {
    if Unfinished(jobs) > 0 then
      choice >= 0 && Shortest(jobs, choice) && forall j | 0 <= j < choice && jobs[j] > 0 :: jobs[choice] < jobs[j]
    else
      choice == |jobs| - 1
  }

  /** Every tick works as the program does. */
  ghost predicate AsProgrammed(schedule: seq<int>, choices: seq<int>) {
    forall t: nat | t < |choices| :: FirstShortest(Present(schedule, choices, t), choices[t])
  }

  lemma FirstIsShortest(schedule: seq<int>, choices: seq<int>)
    requires AsProgrammed(schedule, choices)
    ensures ShortestFirst(schedule, choices) && Busy(schedule, choices)
  {
    hide Present;
  }

  // ---------------------------------------------------------------- what policies leave, without following the run

  /** The ticks before `t` that bring a job. */
  ghost function Arrivals(schedule: seq<int>, t: nat): seq<nat> {
    if t == 0 then []
    else Arrivals(schedule, t - 1) + if t - 1 < |schedule| && schedule[t - 1] != 0 then [t - 1] else []
  }

  lemma {:induction false} ArrivalsAre(schedule: seq<int>, t: nat)
    ensures forall k | 0 <= k < |Arrivals(schedule, t)| ::
              var a := Arrivals(schedule, t)[k]; a < t && a < |schedule| && schedule[a] != 0
    ensures forall j, k | 0 <= j < k < |Arrivals(schedule, t)| :: Arrivals(schedule, t)[j] < Arrivals(schedule, t)[k]
    ensures forall u: nat | u < t && u < |schedule| && schedule[u] != 0 :: u in Arrivals(schedule, t)
  {
    if t > 0 { ArrivalsAre(schedule, t - 1); }
  }

  /** Those before an earlier tick come first. */
  lemma {:induction false} ArrivalsFirst(schedule: seq<int>, t: nat, n: nat)
    requires t <= n
    ensures Arrivals(schedule, t) <= Arrivals(schedule, n)
    ensures forall k | 0 <= k < |Arrivals(schedule, n)| ::
              k < |Arrivals(schedule, t)| <==> Arrivals(schedule, n)[k] < t
    decreases n
  {
    ArrivalsAre(schedule, t);
    if t < n { ArrivalsFirst(schedule, t, n - 1); }
  }

  /** What the ticks from `a` to `t` leave of job `k`: its entry less the ticks that chose it. */
  ghost function Left(entry: int, choices: seq<int>, a: nat, t: nat, k: nat): int
    requires a <= t <= |choices|
  {
    entry - multiset(choices[a..t])[k]
  }

  lemma LeftNext(entry: int, choices: seq<int>, a: nat, t: nat, k: nat)
    requires a <= t < |choices|
    ensures Left(entry, choices, a, a, k) == entry
    ensures Left(entry, choices, a, t + 1, k) == Left(entry, choices, a, t, k) - if choices[t] == k then 1 else 0
  {
    assert choices[a..t + 1] == choices[a..t] + [choices[t]];
  }

  /** `jobs` are the jobs that came with `arrivals`, after the ticks before `t`. */
  ghost predicate AreLeft(jobs: seq<int>, schedule: seq<int>, choices: seq<int>, arrivals: seq<nat>, t: nat) {
    && |jobs| == |arrivals| && t <= |choices|
    && forall k | 0 <= k < |jobs| ::
         && arrivals[k] <= t && arrivals[k] < |schedule|
         && jobs[k] == Left(schedule[arrivals[k]], choices, arrivals[k], t, k)
  }

  /** Each job is its entry of the schedule less the ticks since its arrival that chose it; whatever the policy. */
  lemma {:induction false} JobsAre(schedule: seq<int>, choices: seq<int>, t: nat)
    requires t <= |choices|
    ensures AreLeft(Remaining(schedule, choices, t), schedule, choices, Arrivals(schedule, t), t)
    ensures t < |choices| ==>
              AreLeft(Present(schedule, choices, t), schedule, choices, Arrivals(schedule, t + 1), t)
    decreases t
  {
    hide Left;
    if t > 0 {
      JobsAre(schedule, choices, t - 1);
      WorkLeft(schedule, choices, t - 1);
    }
    if t < |choices| { ArriveLeft(schedule, choices, t); }
  }

  lemma WorkLeft(schedule: seq<int>, choices: seq<int>, t: nat)
    requires t < |choices| && AreLeft(Present(schedule, choices, t), schedule, choices, Arrivals(schedule, t + 1), t)
    ensures AreLeft(Remaining(schedule, choices, t + 1), schedule, choices, Arrivals(schedule, t + 1), t + 1)
  {
    hide Left, Arrivals, Arrive;
    var present, arrivals := Present(schedule, choices, t), Arrivals(schedule, t + 1);
    assert Remaining(schedule, choices, t + 1) == Work(present, choices[t]);
    hide Remaining, Present;
    forall k | 0 <= k < |present| { LeftNext(schedule[arrivals[k]], choices, arrivals[k], t, k); }
  }

  lemma ArriveLeft(schedule: seq<int>, choices: seq<int>, t: nat)
    requires t < |choices| && AreLeft(Remaining(schedule, choices, t), schedule, choices, Arrivals(schedule, t), t)
    ensures AreLeft(Present(schedule, choices, t), schedule, choices, Arrivals(schedule, t + 1), t)
  {
    hide Left, Remaining;
    if t < |schedule| { LeftNext(schedule[t], choices, t, t, |Arrivals(schedule, t)|); }
  }

  /** The ticks before `t`, from the arrival `a` of job `k` on, that found it unfinished. */
  ghost function Alive(entry: int, choices: seq<int>, a: nat, t: nat, k: nat): set<nat>
    requires a <= t <= |choices|
  {
    set u | a <= u < t && Left(entry, choices, a, u, k) > 0
  }

  ghost predicate AreAges(lifetimes: seq<nat>, schedule: seq<int>, choices: seq<int>, arrivals: seq<nat>, t: nat) {
    && |lifetimes| == |arrivals| && t <= |choices|
    && forall k | 0 <= k < |lifetimes| ::
         && arrivals[k] <= t && arrivals[k] < |schedule|
         && lifetimes[k] == |Alive(schedule[arrivals[k]], choices, arrivals[k], t, k)|
  }

  /** The lifetime of a job is the number of ticks that found it unfinished; whatever the policy. */
  lemma {:induction false} LifetimesAre(schedule: seq<int>, choices: seq<int>, t: nat)
    requires t <= |choices|
    ensures AreAges(Lifetimes(schedule, choices, t), schedule, choices, Arrivals(schedule, t), t)
    decreases t
  {
    hide *;
    if t == 0 {
      NoAges(schedule, choices);
    } else {
      LifetimesAre(schedule, choices, t - 1);
      JobsAre(schedule, choices, t - 1);
      AgesNext(schedule, choices, t - 1);
    }
  }

  lemma NoAges(schedule: seq<int>, choices: seq<int>)
    ensures AreAges(Lifetimes(schedule, choices, 0), schedule, choices, Arrivals(schedule, 0), 0)
  {}

  lemma AgesNext(schedule: seq<int>, choices: seq<int>, t: nat)
    requires t < |choices|
    requires AreAges(Lifetimes(schedule, choices, t), schedule, choices, Arrivals(schedule, t), t)
    requires AreLeft(Present(schedule, choices, t), schedule, choices, Arrivals(schedule, t + 1), t)
    ensures AreAges(Lifetimes(schedule, choices, t + 1), schedule, choices, Arrivals(schedule, t + 1), t + 1)
  {
    hide Left, Alive;
    var present, before, arrivals := Present(schedule, choices, t), Lifetimes(schedule, choices, t),
        Arrivals(schedule, t + 1);
    assert Lifetimes(schedule, choices, t + 1) == Aged(present, before);
    hide Lifetimes, Present;
    forall k | 0 <= k < |arrivals| { AliveNext(schedule[arrivals[k]], choices, arrivals[k], t, k); }
  }

  lemma AliveNext(entry: int, choices: seq<int>, a: nat, t: nat, k: nat)
    requires a <= t < |choices|
    ensures |Alive(entry, choices, a, a, k)| == 0
    ensures |Alive(entry, choices, a, t + 1, k)|
         == |Alive(entry, choices, a, t, k)| + if Left(entry, choices, a, t, k) > 0 then 1 else 0
  {
    hide Left;
    assert Alive(entry, choices, a, a, k) == {};
    assert Alive(entry, choices, a, t + 1, k)
        == Alive(entry, choices, a, t, k) + if Left(entry, choices, a, t, k) > 0 then {t} else {};
  }

  function Total(s: seq<int>): int {
    if s == [] then 0 else Total(s[..|s| - 1]) + s[|s| - 1]
  }

  /** The entries that brought the jobs. */
  ghost function Entries(schedule: seq<int>, t: nat): seq<int> {
    ArrivalsAre(schedule, t);
    seq(|Arrivals(schedule, t)|, k requires 0 <= k < |Arrivals(schedule, t)| => schedule[Arrivals(schedule, t)[k]])
  }

  /** Every tick that finds a job works on one. */
  ghost predicate Busy(schedule: seq<int>, choices: seq<int>) {
    forall t: nat | t < |choices| && Present(schedule, choices, t) != [] ::
      0 <= choices[t] < |Present(schedule, choices, t)|
  }

  /** Work is conserved: from the first arrival on every tick takes one unit off what has arrived. */
  lemma {:induction false} WorkConserved(schedule: seq<int>, choices: seq<int>, t: nat)
    requires t <= |choices| && Busy(schedule, choices)
    ensures Total(Remaining(schedule, choices, t)) == Total(Entries(schedule, t)) - SinceFirst(schedule, t)
    decreases t
  {
    hide *;
    if t == 0 {
      NothingYet(schedule, choices);
    } else {
      var n := t - 1;
      WorkConserved(schedule, choices, n);
      NewEntry(schedule, choices, n);
      OneUnit(schedule, choices, n);
    }
  }

  /** How many ticks before `t` found a job: all from the first arrival on. */
  ghost function SinceFirst(schedule: seq<int>, t: nat): int {
    if Arrivals(schedule, t) == [] then 0 else t - Arrivals(schedule, t)[0]
  }

  lemma NothingYet(schedule: seq<int>, choices: seq<int>)
    ensures Total(Remaining(schedule, choices, 0)) == Total(Entries(schedule, 0)) - SinceFirst(schedule, 0)
  {}

  lemma NewEntry(schedule: seq<int>, choices: seq<int>, n: nat)
    requires n < |choices|
    ensures Total(Present(schedule, choices, n)) - Total(Remaining(schedule, choices, n))
         == Total(Entries(schedule, n + 1)) - Total(Entries(schedule, n))
  {
    hide Remaining, Total;
    ArrivalsAre(schedule, n);
    ArrivalsAre(schedule, n + 1);
    if n < |schedule| && schedule[n] != 0 {
      assert Entries(schedule, n + 1) == Entries(schedule, n) + [schedule[n]];
      TotalAppend(Entries(schedule, n), schedule[n]);
      TotalAppend(Remaining(schedule, choices, n), schedule[n]);
    } else {
      assert Entries(schedule, n + 1) == Entries(schedule, n);
    }
  }

  lemma OneUnit(schedule: seq<int>, choices: seq<int>, n: nat)
    requires n < |choices| && Busy(schedule, choices)
    ensures Total(Present(schedule, choices, n)) - Total(Remaining(schedule, choices, n + 1))
         == SinceFirst(schedule, n + 1) - SinceFirst(schedule, n)
  {
    hide *;
    PresentWorked(schedule, choices, n);
    WorkTotal(Present(schedule, choices, n), choices[n]);
    SinceNext(schedule, n);
  }

  lemma PresentWorked(schedule: seq<int>, choices: seq<int>, n: nat)
    requires n < |choices| && Busy(schedule, choices)
    ensures Remaining(schedule, choices, n + 1) == Work(Present(schedule, choices, n), choices[n])
    ensures |Present(schedule, choices, n)| == |Arrivals(schedule, n + 1)|
    ensures Present(schedule, choices, n) != [] ==> 0 <= choices[n] < |Present(schedule, choices, n)|
  {
    JobsAre(schedule, choices, n);
  }

  lemma WorkTotal(jobs: seq<int>, choice: int)
    requires jobs != [] ==> 0 <= choice < |jobs|
    ensures Total(Work(jobs, choice)) == Total(jobs) - if jobs == [] then 0 else 1
  {
    if jobs != [] { TotalLess(jobs, choice); }
  }

  lemma SinceNext(schedule: seq<int>, n: nat)
    ensures SinceFirst(schedule, n + 1) - SinceFirst(schedule, n) == if Arrivals(schedule, n + 1) == [] then 0 else 1
  {}

  lemma TotalAppend(s: seq<int>, x: int)
    ensures Total(s + [x]) == Total(s) + x
  {
    assert (s + [x])[..|s|] == s;
  }

  lemma {:induction false} TotalLess(s: seq<int>, i: nat)
    requires i < |s|
    ensures Total(s[i := s[i] - 1]) == Total(s) - 1
  {
    var n := |s| - 1;
    if i < n {
      assert s[i := s[i] - 1][..n] == s[..n][i := s[..n][i] - 1];
      TotalLess(s[..n], i);
    } else {
      assert s[i := s[i] - 1][..n] == s[..n];
    }
  }

  // ---------------------------------------------------------------- optimality

  /** `a` is ahead of `b`: every tail is at most as heavy. */
  ghost predicate Ahead(a: seq<int>, b: seq<int>) {
    forall k: nat :: Tail(a, k) <= Tail(b, k)
  }

  lemma AheadArrive(a: seq<int>, b: seq<int>, current: int)
    requires Ahead(a, b)
    ensures Ahead(Arrive(a, current), Arrive(b, current))
  {
    if current != 0 {
      assert (a + [current])[..|a|] == a && (b + [current])[..|b|] == b;
      forall k: nat ensures Tail(a + [current], k) <= Tail(b + [current], k) {
        assert Tail(a, k) <= Tail(b, k);
        if k > 0 { assert Tail(a, k - 1) <= Tail(b, k - 1); }
      }
    }
  }

  lemma AheadWork(a: seq<int>, b: seq<int>, i: int, j: int)
    requires Ahead(a, b) && TickShortest(a, i)
    ensures Ahead(Work(a, i), Work(b, j))
  {
    forall k: nat ensures Tail(Work(a, i), k) <= Tail(Work(b, j), k) {
      assert Tail(a, k) <= Tail(b, k);
      if 0 <= j < |b| { AnyWork(b, j, k); }
      TailZero(a, k);
      if Unfinished(a) > 0 {
        if Tail(a, k) > 0 {
          ShortestWork(a, i, k);
        } else {
          WorkFinishes(a, i);
          TailZero(Work(a, i), k);
        }
      } else {
        WorkFinishes(a, i);
        TailZero(Work(a, i), k);
      }
    }
  }

  /** Work never makes a finished job unfinished. */
  lemma {:induction false} WorkFinishes(jobs: seq<int>, i: int)
    ensures Unfinished(Work(jobs, i)) <= Unfinished(jobs)
  {
    if 0 <= i < |jobs| {
      var front, jobs' := jobs[..|jobs| - 1], Work(jobs, i);
      if i < |front| {
        assert jobs'[..|jobs| - 1] == Work(front, i);
        WorkFinishes(front, i);
      } else {
        assert jobs'[..|jobs| - 1] == front;
      }
    }
  }

  /** After every tick shortest-first is ahead of any other choices. */
  lemma {:induction false} StaysAhead(schedule: seq<int>, choices: seq<int>, others: seq<int>, t: nat)
    requires ShortestFirst(schedule, choices) && t <= |choices| <= |others|
    ensures Ahead(Remaining(schedule, choices, t), Remaining(schedule, others, t))
  {
    hide Ahead, Tail, Arrive, Work, TickShortest, Arrival;
    if t == 0 {
      AheadSelf();
    } else {
      StaysAhead(schedule, choices, others, t - 1);
      AheadArrive(Remaining(schedule, choices, t - 1), Remaining(schedule, others, t - 1), Arrival(schedule, t - 1));
      assert TickShortest(Present(schedule, choices, t - 1), choices[t - 1]);
      AheadWork(Present(schedule, choices, t - 1), Present(schedule, others, t - 1), choices[t - 1], others[t - 1]);
    }
  }

  lemma AheadSelf()
    ensures Ahead([], [])
  {}

  lemma FewerUnfinished(a: seq<int>, b: seq<int>)
    requires Ahead(a, b)
    ensures Unfinished(a) <= Unfinished(b)
  {
    TailZero(b, Unfinished(b));
    TailZero(a, Unfinished(b));
    assert Tail(a, Unfinished(b)) <= Tail(b, Unfinished(b));
  }

  /** Never more unfinished jobs than under any other policy, at any tick of any schedule. */
  lemma NeverMoreUnfinished(schedule: seq<int>, choices: seq<int>, others: seq<int>, t: nat)
    requires ShortestFirst(schedule, choices) && t <= |choices| <= |others|
    ensures Unfinished(Remaining(schedule, choices, t)) <= Unfinished(Remaining(schedule, others, t))
  {
    StaysAhead(schedule, choices, others, t);
    FewerUnfinished(Remaining(schedule, choices, t), Remaining(schedule, others, t));
  }

  lemma {:induction false} SumAged(jobs: seq<int>, lifetimes: seq<nat>)
    requires |lifetimes| <= |jobs|
    ensures Sum(Aged(jobs, lifetimes)) == Sum(lifetimes) + Unfinished(jobs)
    decreases |jobs|
  {
    if jobs != [] {
      var front, aged := jobs[..|jobs| - 1], Aged(jobs, lifetimes);
      var before := if |lifetimes| == |jobs| then lifetimes[..|jobs| - 1] else lifetimes;
      SumAged(front, before);
      AgedFront(jobs, lifetimes, before);
    }
  }

  lemma AgedFront(jobs: seq<int>, lifetimes: seq<nat>, before: seq<nat>)
    requires jobs != [] && |lifetimes| <= |jobs|
    requires before == if |lifetimes| == |jobs| then lifetimes[..|jobs| - 1] else lifetimes
    ensures Aged(jobs, lifetimes)[..|jobs| - 1] == Aged(jobs[..|jobs| - 1], before)
  {}

  /** The sum of all lifetimes is as small as any policy can make it. */
  lemma {:induction false} LeastTotalLifetime(schedule: seq<int>, choices: seq<int>, others: seq<int>, t: nat)
    requires ShortestFirst(schedule, choices) && t <= |choices| <= |others|
    ensures |Lifetimes(schedule, choices, t)| == |Lifetimes(schedule, others, t)|
    ensures Sum(Lifetimes(schedule, choices, t)) <= Sum(Lifetimes(schedule, others, t))
  {
    hide Ahead, Tail, Arrive, Work, Arrival, ShortestFirst, Sum, Aged, Unfinished;
    SumEmpty();
    if t > 0 {
      LeastTotalLifetime(schedule, choices, others, t - 1);
      var p, q := Present(schedule, choices, t - 1), Present(schedule, others, t - 1);
      SumAged(p, Lifetimes(schedule, choices, t - 1));
      SumAged(q, Lifetimes(schedule, others, t - 1));
      StaysAhead(schedule, choices, others, t - 1);
      AheadArrive(Remaining(schedule, choices, t - 1), Remaining(schedule, others, t - 1), Arrival(schedule, t - 1));
      FewerUnfinished(p, q);
    }
  }

  lemma SumEmpty()
    ensures Sum([]) == 0
  {}

  lemma {:induction false} UnfinishedExists(jobs: seq<int>)
    ensures Unfinished(jobs) > 0 <==> exists j :: 0 <= j < |jobs| && jobs[j] > 0
  {
    if jobs != [] {
      var front := jobs[..|jobs| - 1];
      UnfinishedExists(front);
      if Unfinished(front) > 0 {
        var j :| 0 <= j < |front| && front[j] > 0;
        assert jobs[j] > 0;
      }
      if j :| 0 <= j < |jobs| && jobs[j] > 0 {
        assert j < |front| ==> front[j] > 0;
      }
    }
  }

  // ---------------------------------------------------------------- the program

  /** The global lists of the script. */
  class Simulation {
    var jobs: seq<int>
    var lifetimes: seq<nat>

    constructor ()
      ensures jobs == [] && lifetimes == []
    {
      jobs, lifetimes := [], [];
    }

    /** The first shortest unfinished job; the last job when all are finished. */
    method FindShortest() returns (shortest: nat)
      requires jobs != []
      ensures shortest < |jobs|
      ensures if Unfinished(jobs) > 0
              then Shortest(jobs, shortest) && forall j | 0 <= j < shortest && jobs[j] > 0 :: jobs[shortest] < jobs[j]
              else shortest == |jobs| - 1
    {
      shortest := 0;
      for j := 0 to |jobs|
        invariant shortest < |jobs| && (j > 0 ==> shortest < j)
        invariant if exists i :: 0 <= i < j && jobs[i] > 0
                  then jobs[shortest] > 0
                    && forall i | 0 <= i < j && jobs[i] > 0 ::
                         if i < shortest then jobs[shortest] < jobs[i] else jobs[shortest] <= jobs[i]
                  else shortest == if j == 0 then 0 else j - 1
      {
        if jobs[shortest] < 1 { shortest := j; }
        if jobs[j] > 0 && jobs[j] < jobs[shortest] { shortest := j; }
      }
      UnfinishedExists(jobs);
    }

    method Age()
      requires |jobs| == |lifetimes|
      modifies this`lifetimes
      ensures lifetimes == Aged(jobs, old(lifetimes))
    {
      ghost var before := lifetimes;
      for l := 0 to |lifetimes|
        invariant |lifetimes| == |before|
        invariant forall i | 0 <= i < |before| :: lifetimes[i] == before[i] + (if i < l && jobs[i] > 0 then 1 else 0)
      {
        if jobs[l] > 0 { lifetimes := lifetimes[l := lifetimes[l] + 1]; }
      }
    }

    /** One tick: arrival, ageing, one unit of work on the first of the shortest unfinished jobs. With every job
        finished the last one still loses a unit; without any job nothing is done. */
    method Tick(schedule: seq<int>, t: nat) returns (ghost choice: int)
      requires |jobs| == |lifetimes|
      modifies this
      ensures var present := if t < |schedule| && schedule[t] != 0 then old(jobs) + [schedule[t]] else old(jobs);
              && |jobs| == |lifetimes| == |present| && -1 <= choice < |present| && (choice == -1 <==> present == [])
              && (forall k | 0 <= k < |present| :: jobs[k] == present[k] - if k == choice then 1 else 0)
              && (forall k | 0 <= k < |present| ::
                    lifetimes[k]
                    == (if k < |old(jobs)| then old(lifetimes)[k] else 0) + if present[k] > 0 then 1 else 0)
              && (forall k | 0 <= k < |present| && present[k] > 0 ::
                    0 < present[choice] <= present[k] && (k < choice ==> present[choice] < present[k]))
              && (choice >= 0 && present[choice] <= 0 ==> choice == |present| - 1)
    {
      var current := if t >= |schedule| then 0 else schedule[t];
      if current != 0 {
        jobs := jobs + [current];
        lifetimes := lifetimes + [0];
      }
      Age();
      choice := -1;
      if |jobs| > 0 {
        var shortest := FindShortest();
        UnfinishedExists(jobs);
        choice := shortest;
        jobs := jobs[shortest := jobs[shortest] - 1];
      }
    }

    /** The whole run. `arrivals` are the ticks that brought a job; a job is its entry less the ticks that chose it, and
        has lived as many ticks as found it unfinished. Every tick after the first arrival works, always on the first of
        the shortest unfinished jobs. No choices whatever leave fewer jobs unfinished or a smaller sum of lifetimes. */
    method Run(schedule: seq<int>, ticks: nat) returns (ghost choices: seq<int>, ghost arrivals: seq<nat>)
      requires jobs == [] && lifetimes == []
      modifies this
      ensures |choices| == ticks && |jobs| == |lifetimes| == |arrivals|
      ensures forall k | 0 <= k < |arrivals| ::
                arrivals[k] < ticks && arrivals[k] < |schedule| && schedule[arrivals[k]] != 0
      ensures forall j, k | 0 <= j < k < |arrivals| :: arrivals[j] < arrivals[k]
      ensures forall t: nat | t < ticks && t < |schedule| && schedule[t] != 0 :: t in arrivals
      ensures forall k | 0 <= k < |jobs| ::
                jobs[k] == schedule[arrivals[k]] - multiset(choices[arrivals[k]..ticks])[k]
      ensures forall k | 0 <= k < |jobs| ::
                lifetimes[k]
                == |set t | arrivals[k] <= t < ticks && schedule[arrivals[k]] > multiset(choices[arrivals[k]..t])[k]|
      ensures Total(jobs) == Total(seq(|arrivals|, k requires 0 <= k < |arrivals| => schedule[arrivals[k]]))
                             - if arrivals == [] then 0 else ticks - arrivals[0]
      ensures forall t: nat | t < ticks :: RightChoice(schedule, choices, arrivals, t)
      ensures jobs == Remaining(schedule, choices, ticks) && lifetimes == Lifetimes(schedule, choices, ticks)
      ensures forall others: seq<int> | |others| == ticks ::
                && Unfinished(jobs) <= Unfinished(Remaining(schedule, others, ticks))
                && Sum(lifetimes) <= Sum(Lifetimes(schedule, others, ticks))
    {
      hide *;
      choices := [];
      Initially(schedule);
      for t := 0 to ticks
        invariant |choices| == t && AsProgrammed(schedule, choices)
        invariant jobs == Remaining(schedule, choices, t) && lifetimes == Lifetimes(schedule, choices, t)
      {
        SameLengths(schedule, choices, t);
        ghost var before, ages := jobs, lifetimes;
        ghost var choice := Tick(schedule, t);
        TickIs(before, ages, jobs, lifetimes, schedule, t, choice);
        OneMore(schedule, choices, choice);
        choices := choices + [choice];
      }
      FirstIsShortest(schedule, choices);
      forall others: seq<int> | |others| == ticks
        ensures Unfinished(jobs) <= Unfinished(Remaining(schedule, others, ticks))
        ensures Sum(lifetimes) <= Sum(Lifetimes(schedule, others, ticks))
      {
        NeverMoreUnfinished(schedule, choices, others, ticks);
        LeastTotalLifetime(schedule, choices, others, ticks);
      }
      arrivals := Arrivals(schedule, ticks);
      ArrivalsAre(schedule, ticks);
      JobsAre(schedule, choices, ticks);
      LifetimesAre(schedule, choices, ticks);
      LeftUnfolded(jobs, lifetimes, schedule, choices, arrivals, ticks);
      WorkConserved(schedule, choices, ticks);
      TotalUnfolded(schedule, ticks);
      forall t: nat | t < ticks ensures RightChoice(schedule, choices, arrivals, t) {
        ChoiceIsRight(schedule, choices, t, ticks);
      }
    }
  }

  /** Tick `t` works on an unfinished job that has arrived, of those on one with the least left, of those on the first;
      on the last arrival when none is unfinished, and on nothing (-1) when none has arrived. */
  ghost predicate RightChoice(schedule: seq<int>, choices: seq<int>, arrivals: seq<nat>, t: nat)
    requires t < |choices| && forall k | 0 <= k < |arrivals| :: arrivals[k] < |schedule|
  {
    var c := choices[t];
    && -1 <= c < |arrivals| && (c >= 0 ==> arrivals[c] <= t)
    && (c == -1 ==> forall k | 0 <= k < |arrivals| :: arrivals[k] > t)
    && (forall k | 0 <= k < |arrivals| && arrivals[k] <= t
          && Left(schedule[arrivals[k]], choices, arrivals[k], t, k) > 0 ::
          && c >= 0
          && 0 < Left(schedule[arrivals[c]], choices, arrivals[c], t, c)
               <= Left(schedule[arrivals[k]], choices, arrivals[k], t, k)
          && (k < c ==> Left(schedule[arrivals[c]], choices, arrivals[c], t, c)
                        < Left(schedule[arrivals[k]], choices, arrivals[k], t, k)))
    && (c >= 0 && Left(schedule[arrivals[c]], choices, arrivals[c], t, c) <= 0 ==>
          forall k | c < k < |arrivals| :: arrivals[k] > t)
  }

  lemma ChoiceIsRight(schedule: seq<int>, choices: seq<int>, t: nat, n: nat)
    requires t < n == |choices| && AsProgrammed(schedule, choices)
    ensures forall k | 0 <= k < |Arrivals(schedule, n)| :: Arrivals(schedule, n)[k] < |schedule|
    ensures RightChoice(schedule, choices, Arrivals(schedule, n), t)
  {
    hide Arrivals, Left, Present;
    ArrivalsAre(schedule, n);
    ArrivalsFirst(schedule, t + 1, n);
    JobsAre(schedule, choices, t);
    var present := Present(schedule, choices, t);
    assert FirstShortest(present, choices[t]);
    UnfinishedExists(present);
  }

  lemma LeftUnfolded(jobs: seq<int>, lifetimes: seq<nat>, schedule: seq<int>, choices: seq<int>, arrivals: seq<nat>,
                     t: nat)
    requires AreLeft(jobs, schedule, choices, arrivals, t) && AreAges(lifetimes, schedule, choices, arrivals, t)
    ensures |jobs| == |lifetimes| == |arrivals| && t <= |choices|
    ensures forall k | 0 <= k < |arrivals| :: arrivals[k] <= t && arrivals[k] < |schedule|
    ensures forall k | 0 <= k < |jobs| :: jobs[k] == schedule[arrivals[k]] - multiset(choices[arrivals[k]..t])[k]
    ensures forall k | 0 <= k < |jobs| ::
              lifetimes[k]
              == |set u | arrivals[k] <= u < t && schedule[arrivals[k]] > multiset(choices[arrivals[k]..u])[k]|
  {
    forall k | 0 <= k < |jobs|
      ensures lifetimes[k]
           == |set u | arrivals[k] <= u < t && schedule[arrivals[k]] > multiset(choices[arrivals[k]..u])[k]|
    {
      assert Alive(schedule[arrivals[k]], choices, arrivals[k], t, k)
          == set u | arrivals[k] <= u < t && schedule[arrivals[k]] > multiset(choices[arrivals[k]..u])[k];
    }
  }

  lemma TotalUnfolded(schedule: seq<int>, t: nat)
    ensures forall k | 0 <= k < |Arrivals(schedule, t)| :: Arrivals(schedule, t)[k] < |schedule|
    ensures var a := Arrivals(schedule, t);
            Total(Entries(schedule, t)) - SinceFirst(schedule, t)
            == Total(seq(|a|, k requires 0 <= k < |a| => schedule[a[k]])) - if a == [] then 0 else t - a[0]
  {
    ArrivalsAre(schedule, t);
    var a := Arrivals(schedule, t);
    assert Entries(schedule, t) == seq(|a|, k requires 0 <= k < |a| => schedule[a[k]]);
  }

  lemma SameLengths(schedule: seq<int>, choices: seq<int>, t: nat)
    requires t <= |choices|
    ensures |Remaining(schedule, choices, t)| == |Lifetimes(schedule, choices, t)|
  {}

  /** A tick of the program is arrival, ageing and work. */
  lemma TickIs(before: seq<int>, ages: seq<nat>, jobs: seq<int>, lifetimes: seq<nat>, schedule: seq<int>, t: nat,
               choice: int)
    requires |before| == |ages|
    requires var present := if t < |schedule| && schedule[t] != 0 then before + [schedule[t]] else before;
             && |jobs| == |lifetimes| == |present| && -1 <= choice < |present| && (choice == -1 <==> present == [])
             && (forall k | 0 <= k < |present| :: jobs[k] == present[k] - if k == choice then 1 else 0)
             && (forall k | 0 <= k < |present| ::
                   lifetimes[k] == (if k < |before| then ages[k] else 0) + if present[k] > 0 then 1 else 0)
             && (forall k | 0 <= k < |present| && present[k] > 0 ::
                   0 < present[choice] <= present[k] && (k < choice ==> present[choice] < present[k]))
             && (choice >= 0 && present[choice] <= 0 ==> choice == |present| - 1)
    ensures var present := Arrive(before, Arrival(schedule, t));
            && jobs == Work(present, choice) && lifetimes == Aged(present, ages) && FirstShortest(present, choice)
  {
    UnfinishedExists(Arrive(before, Arrival(schedule, t)));
  }

  lemma Initially(schedule: seq<int>)
    ensures AsProgrammed(schedule, []) && Remaining(schedule, [], 0) == [] && Lifetimes(schedule, [], 0) == []
  {}

  /** Later choices do not change what happened before. */
  lemma {:induction false} SamePrefix(schedule: seq<int>, choices: seq<int>, choice: int, t: nat)
    requires t <= |choices|
    ensures Remaining(schedule, choices + [choice], t) == Remaining(schedule, choices, t)
    ensures Lifetimes(schedule, choices + [choice], t) == Lifetimes(schedule, choices, t)
  {
    hide Arrive, Work, Arrival, Aged;
    if t > 0 {
      SamePrefix(schedule, choices, choice, t - 1);
      assert (choices + [choice])[t - 1] == choices[t - 1];
    }
  }

  lemma OneMore(schedule: seq<int>, choices: seq<int>, choice: int)
    requires AsProgrammed(schedule, choices)
    requires FirstShortest(Arrive(Remaining(schedule, choices, |choices|), Arrival(schedule, |choices|)), choice)
    ensures var n, all := |choices|, choices + [choice];
            var present := Arrive(Remaining(schedule, choices, n), Arrival(schedule, n));
            && AsProgrammed(schedule, all) && Remaining(schedule, all, n + 1) == Work(present, choice)
            && Lifetimes(schedule, all, n + 1) == Aged(present, Lifetimes(schedule, choices, n))
  {
    hide FirstShortest, Remaining, Lifetimes, Present, Work, Arrive, Arrival, Aged;
    var n, all := |choices|, choices + [choice];
    NextTick(schedule, all, n);
    SamePrefix(schedule, choices, choice, n);
    forall t: nat | t < |all| ensures FirstShortest(Present(schedule, all, t), all[t]) {
      SamePrefix(schedule, choices, choice, t);
      PresentIs(schedule, all, t);
      if t < n {
        PresentIs(schedule, choices, t);
        assert FirstShortest(Present(schedule, choices, t), choices[t]);
      }
    }
  }

  lemma PresentIs(schedule: seq<int>, choices: seq<int>, t: nat)
    requires t < |choices|
    ensures Present(schedule, choices, t) == Arrive(Remaining(schedule, choices, t), Arrival(schedule, t))
  {}

  lemma NextTick(schedule: seq<int>, choices: seq<int>, t: nat)
    requires t < |choices|
    ensures var present := Arrive(Remaining(schedule, choices, t), Arrival(schedule, t));
            && Remaining(schedule, choices, t + 1) == Work(present, choices[t])
            && |Lifetimes(schedule, choices, t)| <= |present|
            && Lifetimes(schedule, choices, t + 1) == Aged(present, Lifetimes(schedule, choices, t))
  {
    hide Work, Arrival, Aged;
  }
}
