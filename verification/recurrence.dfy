/** The date walk of `generate_recurring_events`: the interval a pattern names, the dates
    the loop passes through, and the 52-occurrence cap on successful inserts.

    The walk is stated over any type of dates with a `step` (`$date->add($interval)`) and
    a `key` that orders dates (the day number `DateTime` comparisons follow), so that the
    loop's reasoning never needs the calendar's arithmetic; `Occurrences` instantiates it
    with civil dates and the four PHP intervals. */
module Recurrence {
  import opened Civil

  /** `step` moves every date strictly later. */
  ghost predicate Advances<T(!new)>(step: T -> T, key: T -> int) {
    forall x {:trigger step(x)} :: key(x) < key(step(x))
  }

  /** `key` strictly increases along `s`. */
  ghost predicate IncreasingBy<T>(s: seq<T>, key: T -> int) {
    forall i, j :: 0 <= i < j < |s| ==> key(s[i]) < key(s[j])
  }

  /** Every date the loop reaches after `cur` without passing `end`: the dates it would
      emit if every insert succeeded and there were no cap. */
  function Walk<T(!new)>(cur: T, end: T, step: T -> T, key: T -> int): (r: seq<T>)
    requires Advances(step, key)
    ensures r == [] <==> key(end) < key(step(cur))
    ensures |r| > 0 ==> r[0] == step(cur)
    decreases key(end) - key(cur)
  {
    var next := step(cur);
    if key(end) < key(next) then []
    else [next] + Walk(next, end, step, key)
  }

  /** Consecutive dates of the walk are one step apart, and one more step would pass the end. */
  lemma {:induction false} WalkChain<T(!new)>(cur: T, end: T, step: T -> T, key: T -> int)
    requires Advances(step, key)
    ensures var r := Walk(cur, end, step, key);
      && (forall k :: 0 <= k < |r| - 1 ==> r[k + 1] == step(r[k]))
      && (|r| > 0 ==> key(end) < key(step(r[|r| - 1])))
    decreases key(end) - key(cur)
  {
    var r := Walk(cur, end, step, key);
    if r != [] {
      var next := step(cur);
      var rest := Walk(next, end, step, key);
      WalkChain(next, end, step, key);
      assert r == [next] + rest;
      forall k | 0 <= k < |r| - 1
        ensures r[k + 1] == step(r[k])
      {
        if k > 0 {
          assert r[k] == rest[k - 1] && r[k + 1] == rest[k];
        }
      }
    }
  }

  /** Every date of the walk lies strictly after `cur` and no later than `end`, in increasing order. */
  lemma {:induction false} WalkBounded<T(!new)>(cur: T, end: T, step: T -> T, key: T -> int)
    requires Advances(step, key)
    ensures var r := Walk(cur, end, step, key);
      && (forall k :: 0 <= k < |r| ==> key(cur) < key(r[k]) <= key(end))
      && IncreasingBy(r, key)
    decreases key(end) - key(cur)
  {
    var r := Walk(cur, end, step, key);
    if r != [] {
      var next := step(cur);
      var rest := Walk(next, end, step, key);
      WalkBounded(next, end, step, key);
      assert r == [next] + rest;
      forall k | 0 <= k < |r|
        ensures key(cur) < key(r[k]) <= key(end)
      {
        if k > 0 {
          assert r[k] == rest[k - 1];
        }
      }
      forall i, j | 0 <= i < j < |r|
        ensures key(r[i]) < key(r[j])
      {
        assert r[j] == rest[j - 1];
        if i > 0 {
          assert r[i] == rest[i - 1];
        }
      }
    }
  }

  /** The k-th element of `s` lies at `origin + (k + 1) * len`. */
  ghost predicate SpacedBy<T>(s: seq<T>, key: T -> int, origin: int, len: nat) {
    forall k :: 0 <= k < |s| ==> key(s[k]) == origin + (k + 1) * len
  }

  /** With a step of fixed length `len`, the k-th date lies exactly k+1 steps after the start. */
  lemma {:induction false} WalkEvenlySpaced<T(!new)>(cur: T, end: T, step: T -> T, key: T -> int, len: nat)
    requires Advances(step, key)
    requires forall x :: key(step(x)) == key(x) + len
    ensures SpacedBy(Walk(cur, end, step, key), key, key(cur), len)
    decreases key(end) - key(cur)
  {
    var r := Walk(cur, end, step, key);
    if r != [] {
      var next := step(cur);
      var rest := Walk(next, end, step, key);
      WalkEvenlySpaced(next, end, step, key, len);
      assert r == [next] + rest;
      forall k | 0 <= k < |r|
        ensures key(r[k]) == key(cur) + (k + 1) * len
      {
        if k > 0 {
          assert r[k] == rest[k - 1];
          assert key(rest[k - 1]) == key(next) + ((k - 1) + 1) * len;
          assert (k + 1) * len == len + k * len;
        }
      }
    }
  }

  /** How many of the attempts `attempt` .. `attempt + n - 1` the database accepts. */
  function Accepted(ok: nat -> bool, attempt: nat, n: nat): nat
    decreases n
  {
    if n == 0 then 0 else (if ok(attempt) then 1 else 0) + Accepted(ok, attempt + 1, n - 1)
  }

  /** The dates that become child events: candidates in order whose insert succeeds
      (`ok` of the attempt number), stopping once `cap` inserts have succeeded. */
  function Admit<T>(cands: seq<T>, ok: nat -> bool, attempt: nat, cap: nat): (r: seq<T>)
    ensures |r| == if cap <= Accepted(ok, attempt, |cands|) then cap else Accepted(ok, attempt, |cands|)
    ensures forall k :: 0 <= k < |r| ==> r[k] in cands
    decreases |cands|
  {
    if cands == [] || cap == 0 then []
    else if ok(attempt) then [cands[0]] + Admit(cands[1..], ok, attempt + 1, cap - 1)
    else Admit(cands[1..], ok, attempt + 1, cap)
  }

  /** Dropping the first element keeps a sequence increasing. */
  lemma IncreasingTail<T>(s: seq<T>, key: T -> int)
    requires IncreasingBy(s, key) && s != []
    ensures IncreasingBy(s[1..], key)
  {
    var rest := s[1..];
    forall i, j | 0 <= i < j < |rest|
      ensures key(rest[i]) < key(rest[j])
    {
      assert rest[i] == s[i + 1] && rest[j] == s[j + 1];
    }
  }

  /** An element below everything a sequence draws from can go in front of it. */
  lemma IncreasingCons<T>(x: T, tail: seq<T>, pool: seq<T>, key: T -> int)
    requires IncreasingBy(tail, key)
    requires forall k :: 0 <= k < |tail| ==> tail[k] in pool
    requires forall m :: 0 <= m < |pool| ==> key(x) < key(pool[m])
    ensures IncreasingBy([x] + tail, key)
  {
    var r := [x] + tail;
    forall i, j | 0 <= i < j < |r|
      ensures key(r[i]) < key(r[j])
    {
      assert r[j] == tail[j - 1];
      if i == 0 {
        assert tail[j - 1] in pool;
        var m :| 0 <= m < |pool| && pool[m] == tail[j - 1];
      } else {
        assert r[i] == tail[i - 1];
      }
    }
  }

  /** Skipping failed inserts keeps the candidates' order. */
  lemma {:induction false} AdmitIncreasing<T>(cands: seq<T>, key: T -> int, ok: nat -> bool, attempt: nat, cap: nat)
    requires IncreasingBy(cands, key)
    ensures IncreasingBy(Admit(cands, ok, attempt, cap), key)
    decreases |cands|
  {
    if cands != [] && cap != 0 {
      var rest := cands[1..];
      IncreasingTail(cands, key);
      var cap' := if ok(attempt) then cap - 1 else cap;
      AdmitIncreasing(rest, key, ok, attempt + 1, cap');
      if ok(attempt) {
        var tail := Admit(rest, ok, attempt + 1, cap');
        forall m | 0 <= m < |rest|
          ensures key(cands[0]) < key(rest[m])
        {
          assert rest[m] == cands[m + 1];
        }
        IncreasingCons(cands[0], tail, rest, key);
      }
    }
  }

  /** When every insert succeeds and there are no more candidates than the cap, every
      candidate becomes a child event. */
  lemma {:induction false} AdmitAllAccepted<T>(cands: seq<T>, ok: nat -> bool, attempt: nat, cap: nat)
    requires forall i :: attempt <= i < attempt + |cands| ==> ok(i)
    requires |cands| <= cap
    ensures Admit(cands, ok, attempt, cap) == cands
    decreases |cands|
  {
    if cands != [] {
      AdmitAllAccepted(cands[1..], ok, attempt + 1, cap - 1);
    }
  }

  /** The cap PHP puts on one run. */
  const MaxOccurrences: nat := 52

  /** One turn of the loop: the next date is either past the end, or becomes the first
      candidate, inserted or skipped according to `ok`. */
  lemma LoopStep<T(!new)>(cur: T, end: T, step: T -> T, key: T -> int, ok: nat -> bool, attempt: nat, cap: nat)
    requires Advances(step, key) && cap > 0
    ensures var next := step(cur);
      Admit(Walk(cur, end, step, key), ok, attempt, cap) ==
        if key(end) < key(next) then []
        else if ok(attempt) then [next] + Admit(Walk(next, end, step, key), ok, attempt + 1, cap - 1)
        else Admit(Walk(next, end, step, key), ok, attempt + 1, cap)
  {
    var next := step(cur);
    var c := Walk(cur, end, step, key);
    if key(next) <= key(end) {
      assert c == [next] + Walk(next, end, step, key);
      assert c[1..] == Walk(next, end, step, key);
    }
  }

  lemma AppendAssoc<T>(a: seq<T>, b: seq<T>, c: seq<T>)
    ensures (a + b) + c == a + (b + c)
  {
  }

  /** The loop invariant survives a turn that does not pass the end date. */
  lemma LoopKeeps<T(!new)>(dates: seq<T>, cur: T, end: T, step: T -> T, key: T -> int, ok: nat -> bool,
                           attempt: nat, cap: nat, goal: seq<T>)
    requires Advances(step, key) && cap > 0 && key(step(cur)) <= key(end)
    requires dates + Admit(Walk(cur, end, step, key), ok, attempt, cap) == goal
    ensures ok(attempt) ==>
      (dates + [step(cur)]) + Admit(Walk(step(cur), end, step, key), ok, attempt + 1, cap - 1) == goal
    ensures !ok(attempt) ==> dates + Admit(Walk(step(cur), end, step, key), ok, attempt + 1, cap) == goal
  {
    var next := step(cur);
    LoopStep(cur, end, step, key, ok, attempt, cap);
    if ok(attempt) {
      AppendAssoc(dates, [next], Admit(Walk(next, end, step, key), ok, attempt + 1, cap - 1));
    }
  }

  /** Once the loop stops, past the end date or at the cap, nothing more is admitted. */
  lemma LoopDone<T(!new)>(cur: T, end: T, step: T -> T, key: T -> int, ok: nat -> bool, attempt: nat, cap: nat)
    requires Advances(step, key)
    requires key(end) < key(step(cur)) || cap == 0
    ensures Admit(Walk(cur, end, step, key), ok, attempt, cap) == []
  {
  }

  /** The `while` loop of `generate_recurring_events` as written: step first, stop once past
      the end date, and count only the inserts that succeed, up to 52. */
  method GenerateDates<T(!new)>(start: T, end: T, step: T -> T, key: T -> int, ok: nat -> bool)
    returns (dates: seq<T>)
    requires Advances(step, key)
    ensures dates == Admit(Walk(start, end, step, key), ok, 0, MaxOccurrences)
  {
    var cur := start;
    var count := 0;
    var attempt := 0;
    dates := [];
    ghost var goal := Admit(Walk(start, end, step, key), ok, 0, MaxOccurrences);
    assert [] + goal == goal;
    while key(cur) <= key(end) && count < MaxOccurrences
      invariant count == |dates| <= MaxOccurrences
      invariant dates + Admit(Walk(cur, end, step, key), ok, attempt, MaxOccurrences - count) == goal
      decreases key(end) - key(cur)
    {
      var next := step(cur);
      if key(end) < key(next) {
        LoopDone(cur, end, step, key, ok, attempt, MaxOccurrences - count);
        assert dates + [] == dates;
        break;
      }
      LoopKeeps(dates, cur, end, step, key, ok, attempt, MaxOccurrences - count, goal);
      if ok(attempt) {
        dates := dates + [next];
        count := count + 1;
      }
      attempt := attempt + 1;
      cur := next;
    }
    if key(end) < key(cur) || count == MaxOccurrences {
      LoopDone(cur, end, step, key, ok, attempt, MaxOccurrences - count);
      assert dates + [] == dates;
    }
  }

  datatype Pattern = Daily | Weekly | Biweekly | Monthly

  /** `$interval_map[$pattern] ?? 'P7D'`: any other pattern string repeats weekly. */
  function PatternOf(s: string): (p: Pattern)
    ensures s != "daily" && s != "biweekly" && s != "monthly" ==> p == Weekly
    ensures p == Daily <==> s == "daily"
    ensures p == Biweekly <==> s == "biweekly"
    ensures p == Monthly <==> s == "monthly"
  {
    if s == "daily" then Daily
    else if s == "biweekly" then Biweekly
    else if s == "monthly" then Monthly
    else Weekly
  }

  /** The length in days of `P1D`, `P7D` and `P14D`. */
  function IntervalDays(p: Pattern): nat
    requires p != Monthly
  {
    match p
    case Daily => 1
    case Weekly => 7
    case Biweekly => 14
  }

  /** `$current_date->add($interval)`. */
  function Step(d: ValidDate, p: Pattern): (r: ValidDate)
    ensures Before(d, r)
    ensures p != Monthly ==> DayNumber(r) == DayNumber(d) + IntervalDays(p)
    ensures p == Monthly ==> r == AddMonth(d)
  {
    match p
    case Daily => AddDays(d, 1)
    case Weekly => AddDays(d, 7)
    case Biweekly => AddDays(d, 14)
    case Monthly => AddMonth(d)
  }

  /** The day number as a function value: the order `DateTime` comparisons follow. */
  function Ordinal(d: ValidDate): int {
    DayNumber(d)
  }

  function StepBy(p: Pattern): ValidDate -> ValidDate {
    d => Step(d, p)
  }

  lemma StepAdvances(p: Pattern)
    ensures Advances(StepBy(p), Ordinal)
  {
  }

  /** The dates of the child events one run creates from the parent's date `start` and
      end date `end`: at most 52, each strictly after `start` and on or before `end`, in
      increasing order. */
  function Occurrences(start: ValidDate, end: ValidDate, p: Pattern, ok: nat -> bool): (r: seq<ValidDate>)
    ensures |r| <= MaxOccurrences
    ensures forall k :: 0 <= k < |r| ==> Before(start, r[k]) && !Before(end, r[k])
    ensures IncreasingBy(r, Ordinal)
  {
    OccurrencesWithin(start, end, p, ok);
    Admit(Walk(start, end, StepBy(p), Ordinal), ok, 0, MaxOccurrences)
  }

  /** The admitted candidates are at most 52 increasing dates between `start` and `end`. */
  lemma OccurrencesWithin(start: ValidDate, end: ValidDate, p: Pattern, ok: nat -> bool)
    ensures Advances(StepBy(p), Ordinal)
    ensures var r := Admit(Walk(start, end, StepBy(p), Ordinal), ok, 0, MaxOccurrences);
      && |r| <= MaxOccurrences
      && (forall k :: 0 <= k < |r| ==> Before(start, r[k]) && !Before(end, r[k]))
      && IncreasingBy(r, Ordinal)
  {
    StepAdvances(p);
    var cands := Walk(start, end, StepBy(p), Ordinal);
    WalkBounded(start, end, StepBy(p), Ordinal);
    AdmitIncreasing(cands, Ordinal, ok, 0, MaxOccurrences);
    AdmittedWithin(start, end, cands, Admit(cands, ok, 0, MaxOccurrences));
  }

  /** Dates drawn from candidates between `start` and `end` lie between them. */
  lemma AdmittedWithin(start: ValidDate, end: ValidDate, cands: seq<ValidDate>, r: seq<ValidDate>)
    requires forall k :: 0 <= k < |cands| ==> Ordinal(start) < Ordinal(cands[k]) <= Ordinal(end)
    requires forall k :: 0 <= k < |r| ==> r[k] in cands
    ensures forall k :: 0 <= k < |r| ==> Before(start, r[k]) && !Before(end, r[k])
  {
    forall k | 0 <= k < |r|
      ensures Before(start, r[k]) && !Before(end, r[k])
    {
      var j :| 0 <= j < |cands| && cands[j] == r[k];
    }
  }

  /** The first step after `start` becomes a child when it is not past `end` and the first
      insert succeeds. */
  lemma OccurrencesFirst(start: ValidDate, end: ValidDate, p: Pattern, ok: nat -> bool)
    requires ok(0) && DayNumber(Step(start, p)) <= DayNumber(end)
    ensures Occurrences(start, end, p, ok) != [] && Occurrences(start, end, p, ok)[0] == Step(start, p)
  {
    StepAdvances(p);
    var cands := Walk(start, end, StepBy(p), Ordinal);
    assert cands != [] && cands[0] == Step(start, p);
  }

  /** With a fixed-length pattern the k-th candidate date lies exactly k+1 intervals after
      the parent's date. */
  lemma FixedIntervalSpacing(start: ValidDate, end: ValidDate, p: Pattern)
    requires p != Monthly
    ensures Advances(StepBy(p), Ordinal)
    ensures SpacedBy(Walk(start, end, StepBy(p), Ordinal), Ordinal, DayNumber(start), IntervalDays(p))
  {
    StepAdvances(p);
    WalkEvenlySpaced(start, end, StepBy(p), Ordinal, IntervalDays(p));
  }

  /** Monthly repetition keeps PHP's overflow: from January 31st the next dates fall on
      March 3rd and then April 3rd, never back on the 31st. */
  lemma MonthlyDrift()
    ensures Advances(StepBy(Monthly), Ordinal)
    ensures Walk<ValidDate>(Date(2023, 1, 31), Date(2023, 4, 30), StepBy(Monthly), Ordinal) ==
      [Date(2023, 3, 3), Date(2023, 4, 3)]
  {
    StepAdvances(Monthly);
    var d0: ValidDate := Date(2023, 1, 31);
    var d1: ValidDate := Date(2023, 3, 3);
    var d2: ValidDate := Date(2023, 4, 3);
    var end: ValidDate := Date(2023, 4, 30);
    assert Step(d0, Monthly) == d1;
    assert Step(d1, Monthly) == d2;
    assert Step(d2, Monthly) == Date(2023, 5, 3);
    assert Walk(d2, end, StepBy(Monthly), Ordinal) == [];
    assert Walk(d1, end, StepBy(Monthly), Ordinal) == [d2];
  }
}
