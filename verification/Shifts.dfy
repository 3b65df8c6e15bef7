/** Recorded days joined into shifts at midnight, and what the Working Hours Act says of
    each shift. */
module Shifts {
  import opened Calendar
  import opened Sorting

  const MINUTES_PER_DAY := 1440
  const LONGEST_SHIFT := 600
  const SHORTEST_REST := 660

  datatype WorkDay = WorkDay(day: Day, start: int, end: int, breaks: int) {
    function Worked(): int { end - start - breaks }

    /** A start no later than the end, and an end no later than the midnight after. */
    predicate Valid() { 0 <= start <= end <= MINUTES_PER_DAY }
  }

  datatype Shift = Shift(startDay: Day, endDay: Day, start: int, end: int, worked: int, breaks: int)

  function ByDay(w: WorkDay): int { w.day }

  function Alone(w: WorkDay): Shift {
    Shift(w.day, w.day, w.start, w.end, w.Worked(), w.breaks)
  }

  function Extended(s: Shift, w: WorkDay): Shift {
    s.(endDay := w.day, end := w.end, worked := s.worked + w.Worked(), breaks := s.breaks + w.breaks)
  }

  /** A day that begins at the midnight another ends with. */
  predicate Joins(s: Shift, w: WorkDay) {
    s.end == MINUTES_PER_DAY && w.start == 0 && w.day == s.endDay + 1
  }

  /** The merge over sorted days, the last shift changed in place. */
  function Joined(sorted: seq<WorkDay>): seq<Shift> {
    if sorted == [] then []
    else
      var shifts, day := Joined(sorted[..|sorted| - 1]), sorted[|sorted| - 1];
      if shifts != [] && Joins(shifts[|shifts| - 1], day)
      then shifts[|shifts| - 1 := Extended(shifts[|shifts| - 1], day)]
      else shifts + [Alone(day)]
  }

  function ShiftsOf(days: seq<WorkDay>): seq<Shift> {
    Joined(SortBy(ByDay, days))
  }

  method JoinDays(days: seq<WorkDay>) returns (shifts: seq<Shift>)
    ensures shifts == ShiftsOf(days)
  {
    var sorted := SortBy(ByDay, days);
    shifts := [];
    for i := 0 to |sorted|
      invariant shifts == Joined(sorted[..i])
    {
      var day := sorted[i];
      assert sorted[..i + 1][..i] == sorted[..i];
      var n := |shifts|;
      if n > 0 && Joins(shifts[n - 1], day) {
        shifts := shifts[n - 1 := Extended(shifts[n - 1], day)];
      } else {
        shifts := shifts + [Alone(day)];
      }
    }
    assert sorted[..|sorted|] == sorted;
  }

  // ----- maximal runs -----

  predicate Touch(a: WorkDay, b: WorkDay) {
    a.end == MINUTES_PER_DAY && b.start == 0 && b.day == a.day + 1
  }

  function Sum(f: WorkDay -> int, days: seq<WorkDay>): int {
    if days == [] then 0 else Sum(f, days[..|days| - 1]) + f(days[|days| - 1])
  }

  function WorkedOf(w: WorkDay): int { w.Worked() }

  function BreaksOf(w: WorkDay): int { w.breaks }

  /** The shift a run of days makes. */
  function Summary(run: seq<WorkDay>): Shift
    requires run != []
  {
    var first, last := run[0], run[|run| - 1];
    Shift(first.day, last.day, first.start, last.end, Sum(WorkedOf, run), Sum(BreaksOf, run))
  }

  function Flatten(runs: seq<seq<WorkDay>>): seq<WorkDay> {
    if runs == [] then [] else Flatten(runs[..|runs| - 1]) + runs[|runs| - 1]
  }

  ghost predicate IsRun(run: seq<WorkDay>) {
    run != [] && forall i :: 0 < i < |run| ==> Touch(run[i - 1], run[i])
  }

  ghost predicate Apart(a: seq<WorkDay>, b: seq<WorkDay>)
    requires a != [] && b != []
  {
    !Touch(a[|a| - 1], b[0])
  }

  /** A split of the days into runs that touch at midnight inside and nowhere between. */
  ghost predicate MaximalRuns(runs: seq<seq<WorkDay>>, sorted: seq<WorkDay>) {
    && Flatten(runs) == sorted
    && (forall i :: 0 <= i < |runs| ==> IsRun(runs[i]))
    && forall i :: 0 < i < |runs| ==> Apart(runs[i - 1], runs[i])
  }

  ghost predicate Summarised(shifts: seq<Shift>, runs: seq<seq<WorkDay>>) {
    |shifts| == |runs| && forall i :: 0 <= i < |runs| ==> runs[i] != [] && shifts[i] == Summary(runs[i])
  }

  lemma LongerRun(run: seq<WorkDay>, day: WorkDay)
    requires IsRun(run) && Touch(run[|run| - 1], day)
    ensures IsRun(run + [day])
  {
  }

  /** A day that touches the last run lengthens it. */
  lemma LengthenLast(before: seq<seq<WorkDay>>, sorted: seq<WorkDay>, day: WorkDay) returns (runs: seq<seq<WorkDay>>)
    requires MaximalRuns(before, sorted) && before != []
    requires IsRun(before[|before| - 1]) && Touch(before[|before| - 1][|before[|before| - 1]| - 1], day)
    ensures MaximalRuns(runs, sorted + [day])
    ensures runs == before[..|before| - 1] + [before[|before| - 1] + [day]]
  {
    var n := |before|;
    var run := before[n - 1] + [day];
    runs := before[..n - 1] + [run];
    assert runs[..n - 1] == before[..n - 1];
    assert Flatten(runs) == Flatten(before) + [day];
    LongerRun(before[n - 1], day);
    hide IsRun, Touch, Flatten;
    if n > 1 {
      assert Apart(before[n - 2], before[n - 1]);
      assert Apart(runs[n - 2], runs[n - 1]);
    }
    forall i | 0 < i < |runs| ensures Apart(runs[i - 1], runs[i]) {
      if i < n - 1 {
        assert Apart(before[i - 1], before[i]);
      }
    }
  }

  /** A day that does not touch the last run begins a new one. */
  lemma BeginRun(before: seq<seq<WorkDay>>, sorted: seq<WorkDay>, day: WorkDay) returns (runs: seq<seq<WorkDay>>)
    requires MaximalRuns(before, sorted)
    requires before != [] ==> before[|before| - 1] != []
                              && !Touch(before[|before| - 1][|before[|before| - 1]| - 1], day)
    ensures MaximalRuns(runs, sorted + [day]) && runs == before + [[day]]
  {
    runs := before + [[day]];
    assert runs[..|before|] == before;
    assert IsRun([day]);
  }

  lemma SummaryOfOne(day: WorkDay)
    ensures Summary([day]) == Alone(day)
  {
    assert [day][..0] == [];
    assert Sum(WorkedOf, []) == 0 && Sum(BreaksOf, []) == 0;
    assert Sum(WorkedOf, [day]) == Sum(WorkedOf, [day][..0]) + WorkedOf(day);
    assert Sum(BreaksOf, [day]) == Sum(BreaksOf, [day][..0]) + BreaksOf(day);
  }

  lemma SummaryExtended(run: seq<WorkDay>, day: WorkDay)
    requires run != []
    ensures Summary(run + [day]) == Extended(Summary(run), day)
  {
    assert (run + [day])[..|run|] == run;
  }

  lemma JoinsWhereTheyTouch(run: seq<WorkDay>, day: WorkDay)
    requires run != []
    ensures Joins(Summary(run), day) <==> Touch(run[|run| - 1], day)
  {
  }

  lemma SummariesGrow(shifts: seq<Shift>, runs: seq<seq<WorkDay>>, day: WorkDay)
    requires Summarised(shifts, runs)
    ensures Summarised(shifts + [Alone(day)], runs + [[day]])
  {
    SummaryOfOne(day);
    hide Summary;
  }

  lemma SummariesLengthen(shifts: seq<Shift>, runs: seq<seq<WorkDay>>, day: WorkDay)
    requires Summarised(shifts, runs) && runs != []
    ensures var n := |runs| - 1;
            Summarised(shifts[n := Extended(shifts[n], day)], runs[..n] + [runs[n] + [day]])
  {
    SummaryExtended(runs[|runs| - 1], day);
    hide Summary;
  }

  lemma LastIsARun(runs: seq<seq<WorkDay>>, sorted: seq<WorkDay>)
    requires MaximalRuns(runs, sorted) && runs != []
    ensures IsRun(runs[|runs| - 1])
  {
  }

  lemma {:induction false} RunsExist(sorted: seq<WorkDay>) returns (runs: seq<seq<WorkDay>>)
    ensures MaximalRuns(runs, sorted) && Summarised(Joined(sorted), runs)
  {
    if sorted == [] {
      runs := [];
    } else {
      var init, day := sorted[..|sorted| - 1], sorted[|sorted| - 1];
      assert sorted == init + [day];
      var before := RunsExist(init);
      var n := |before|;
      var shifts := Joined(init);
      if n > 0 {
        LastIsARun(before, init);
        JoinsWhereTheyTouch(before[n - 1], day);
      }
      assert |shifts| == n && (n > 0 ==> shifts[n - 1] == Summary(before[n - 1]) && before[n - 1] != []);
      hide Summary, Joins, Touch, Flatten, IsRun, MaximalRuns, Summarised;
      if n > 0 && Joins(shifts[n - 1], day) {
        runs := LengthenLast(before, init, day);
        SummariesLengthen(shifts, before, day);
      } else {
        runs := BeginRun(before, init, day);
        SummariesGrow(shifts, before, day);
      }
    }
  }

  lemma {:induction false} EmptyRuns(runs: seq<seq<WorkDay>>)
    requires Flatten(runs) == [] && forall i :: 0 <= i < |runs| ==> runs[i] != []
    ensures runs == []
  {
  }

  /** The last run of a split is the longest tail of days that touch. */
  lemma LastRun(runs: seq<seq<WorkDay>>, sorted: seq<WorkDay>) returns (cut: nat)
    requires MaximalRuns(runs, sorted) && runs != []
    ensures cut == |sorted| - |runs[|runs| - 1]| && sorted[cut..] == runs[|runs| - 1]
    ensures sorted[..cut] == Flatten(runs[..|runs| - 1])
    ensures MaximalRuns(runs[..|runs| - 1], sorted[..cut])
    ensures cut < |sorted| && forall i :: cut < i < |sorted| ==> Touch(sorted[i - 1], sorted[i])
    ensures cut > 0 ==> !Touch(sorted[cut - 1], sorted[cut])
  {
    var last, rest := runs[|runs| - 1], runs[..|runs| - 1];
    assert sorted == Flatten(rest) + last;
    cut := |Flatten(rest)|;
    assert IsRun(last);
    forall i | cut < i < |sorted| ensures Touch(sorted[i - 1], sorted[i]) {
      assert Touch(last[i - cut - 1], last[i - cut]);
    }
    if rest != [] {
      var before := rest[|rest| - 1];
      assert IsRun(runs[|runs| - 2]) && Apart(runs[|runs| - 2], runs[|runs| - 1]);
      assert Flatten(rest) == Flatten(rest[..|rest| - 1]) + before;
      assert sorted[cut - 1] == before[|before| - 1];
    }
  }

  /** There is one split into maximal runs. */
  lemma {:induction false} RunsUnique(a: seq<seq<WorkDay>>, b: seq<seq<WorkDay>>, sorted: seq<WorkDay>)
    requires MaximalRuns(a, sorted) && MaximalRuns(b, sorted)
    ensures a == b
    decreases |a|
  {
    if a == [] {
      EmptyRuns(b);
    } else if b == [] {
      EmptyRuns(a);
    } else {
      var i := LastRun(a, sorted);
      var j := LastRun(b, sorted);
      assert i == j;
      RunsUnique(a[..|a| - 1], b[..|b| - 1], sorted[..i]);
      assert a == a[..|a| - 1] + [a[|a| - 1]] && b == b[..|b| - 1] + [b[|b| - 1]];
    }
  }

  /** The shifts are the summaries of the one split of the sorted days into maximal runs
      that touch at midnight. */
  lemma ShiftsAreTheMaximalRuns(days: seq<WorkDay>)
    ensures exists runs :: MaximalRuns(runs, SortBy(ByDay, days))
    ensures forall runs :: MaximalRuns(runs, SortBy(ByDay, days)) ==> Summarised(ShiftsOf(days), runs)
  {
    var sorted := SortBy(ByDay, days);
    var found := RunsExist(sorted);
    forall runs | MaximalRuns(runs, sorted) ensures Summarised(ShiftsOf(days), runs) {
      RunsUnique(runs, found, sorted);
    }
  }

  /** With one record a day, the order the days come in does not matter. */
  lemma ShiftsIgnoreOrder(a: seq<WorkDay>, b: seq<WorkDay>)
    requires multiset(a) == multiset(b) && DistinctKeys(ByDay, a)
    ensures ShiftsOf(a) == ShiftsOf(b)
  {
    SortIgnoresOrder(ByDay, a, b);
  }

  // ----- conservation -----

  function WorkedIn(shifts: seq<Shift>): int {
    if shifts == [] then 0 else WorkedIn(shifts[..|shifts| - 1]) + shifts[|shifts| - 1].worked
  }

  function BreaksIn(shifts: seq<Shift>): int {
    if shifts == [] then 0 else BreaksIn(shifts[..|shifts| - 1]) + shifts[|shifts| - 1].breaks
  }

  lemma {:induction false} JoiningConserves(sorted: seq<WorkDay>)
    ensures WorkedIn(Joined(sorted)) == Sum(WorkedOf, sorted) && BreaksIn(Joined(sorted)) == Sum(BreaksOf, sorted)
  {
    if sorted == [] {
    } else {
      JoiningConserves(sorted[..|sorted| - 1]);
      var shifts, day := Joined(sorted[..|sorted| - 1]), sorted[|sorted| - 1];
      assert Joined(sorted)[..|Joined(sorted)| - 1] ==
        if |Joined(sorted)| == |shifts| then shifts[..|shifts| - 1] else shifts;
    }
  }

  lemma {:induction false} SumOfInsert(f: WorkDay -> int, x: WorkDay, s: seq<WorkDay>)
    ensures Sum(f, Insert(ByDay, x, s)) == Sum(f, s) + f(x)
  {
    if s == [] || ByDay(s[|s| - 1]) <= ByDay(x) {
      assert (s + [x])[..|s|] == s;
    } else {
      SumOfInsert(f, x, s[..|s| - 1]);
      var r := Insert(ByDay, x, s[..|s| - 1]);
      assert (r + [s[|s| - 1]])[..|r|] == r;
    }
  }

  lemma {:induction false} SumOfSorted(f: WorkDay -> int, s: seq<WorkDay>)
    ensures Sum(f, SortBy(ByDay, s)) == Sum(f, s)
  {
    if s == [] {
    } else {
      SumOfSorted(f, s[..|s| - 1]);
      SumOfInsert(f, s[|s| - 1], SortBy(ByDay, s[..|s| - 1]));
    }
  }

  /** Joining loses no minute of work and no break. */
  lemma MinutesAreConserved(days: seq<WorkDay>)
    ensures WorkedIn(ShiftsOf(days)) == Sum(WorkedOf, days) && BreaksIn(ShiftsOf(days)) == Sum(BreaksOf, days)
  {
    JoiningConserves(SortBy(ByDay, days));
    SumOfSorted(WorkedOf, days);
    SumOfSorted(BreaksOf, days);
  }

  // ----- the minute line -----

  /** Minutes on one line that runs through every midnight. */
  function BeginsAt(s: Shift): int { s.startDay * MINUTES_PER_DAY + s.start }

  function EndsAt(s: Shift): int { s.endDay * MINUTES_PER_DAY + s.end }

  ghost predicate InTime(shifts: seq<Shift>) {
    && (forall i :: 0 <= i < |shifts| ==>
          shifts[i].startDay <= shifts[i].endDay && 0 <= shifts[i].start && shifts[i].end <= MINUTES_PER_DAY)
    && forall i :: 0 < i < |shifts| ==>
         shifts[i - 1].endDay < shifts[i].startDay && EndsAt(shifts[i - 1]) < BeginsAt(shifts[i])
  }

  /** What is worked in a shift and its breaks are all the minutes from its beginning to its end,
      through every midnight. */
  lemma {:induction false} ShiftsAreWithoutGaps(sorted: seq<WorkDay>)
    ensures forall s :: s in Joined(sorted) ==> s.worked + s.breaks == EndsAt(s) - BeginsAt(s)
  {
    if sorted == [] {
    } else {
      ShiftsAreWithoutGaps(sorted[..|sorted| - 1]);
      var shifts, day := Joined(sorted[..|sorted| - 1]), sorted[|sorted| - 1];
      assert shifts != [] ==> shifts[|shifts| - 1] in shifts;
    }
  }

  lemma ShiftsLengthen(shifts: seq<Shift>, day: WorkDay)
    requires InTime(shifts) && shifts != [] && day.Valid() && shifts[|shifts| - 1].endDay < day.day
    ensures InTime(shifts[|shifts| - 1 := Extended(shifts[|shifts| - 1], day)])
  {
    var after := shifts[|shifts| - 1 := Extended(shifts[|shifts| - 1], day)];
    forall i | 0 < i < |after|
      ensures after[i - 1].endDay < after[i].startDay && EndsAt(after[i - 1]) < BeginsAt(after[i])
    {
      assert shifts[i - 1].endDay < shifts[i].startDay;
    }
  }

  lemma ShiftsGrow(shifts: seq<Shift>, day: WorkDay)
    requires InTime(shifts) && day.Valid()
    requires shifts != [] ==> shifts[|shifts| - 1].endDay < day.day && !Joins(shifts[|shifts| - 1], day)
    ensures InTime(shifts + [Alone(day)])
  {
  }

  ghost predicate ValidInOrder(sorted: seq<WorkDay>) {
    StrictlyAscending(ByDay, sorted) && forall w :: w in sorted ==> w.Valid()
  }

  lemma LastInOrder(sorted: seq<WorkDay>)
    requires ValidInOrder(sorted) && sorted != []
    ensures ValidInOrder(sorted[..|sorted| - 1]) && sorted[|sorted| - 1].Valid()
    ensures |sorted| > 1 ==> sorted[|sorted| - 2].day < sorted[|sorted| - 1].day
  {
  }

  /** Shifts follow each other on the minute line with a gap between each two: what would
      leave none has been joined. */
  lemma {:induction false} ShiftsInTime(sorted: seq<WorkDay>)
    requires ValidInOrder(sorted)
    ensures InTime(Joined(sorted)) && (sorted == [] <==> Joined(sorted) == [])
    ensures sorted != [] ==> var last := Joined(sorted)[|Joined(sorted)| - 1];
                             last.endDay == sorted[|sorted| - 1].day && last.end == sorted[|sorted| - 1].end
  {
    if sorted == [] {
    } else {
      LastInOrder(sorted);
      hide ValidInOrder, InTime;
      var init, day := sorted[..|sorted| - 1], sorted[|sorted| - 1];
      ShiftsInTime(init);
      var before := Joined(init);
      if before != [] && Joins(before[|before| - 1], day) {
        ShiftsLengthen(before, day);
      } else {
        ShiftsGrow(before, day);
      }
    }
  }

  // ----- notices -----

  datatype Rule = LongDay | ShortBreak | ShortRest

  datatype Notice = Notice(rule: Rule, minutes: int)

  function BreakNeeded(worked: int): int {
    if worked > 540 then 45 else if worked > 360 then 30 else 0
  }

  /** What the act says of a shift, given the one before it. */
  function Said(shifts: seq<Shift>, i: nat): seq<Notice>
    requires i < |shifts|
  {
    var s := shifts[i];
    (if s.worked > LONGEST_SHIFT then [Notice(LongDay, s.worked)] else [])
    + (if s.breaks < BreakNeeded(s.worked) then [Notice(ShortBreak, BreakNeeded(s.worked))] else [])
    + (if i > 0 && BeginsAt(s) - EndsAt(shifts[i - 1]) < SHORTEST_REST
       then [Notice(ShortRest, BeginsAt(s) - EndsAt(shifts[i - 1]))] else [])
  }

  function NoticesUpTo(shifts: seq<Shift>, k: nat): map<Day, seq<Notice>>
    requires k <= |shifts|
  {
    if k == 0 then map[]
    else if Said(shifts, k - 1) == [] then NoticesUpTo(shifts, k - 1)
    else NoticesUpTo(shifts, k - 1)[shifts[k - 1].startDay := Said(shifts, k - 1)]
  }

  method WorkingTimeNotices(days: seq<WorkDay>) returns (notices: map<Day, seq<Notice>>)
    ensures notices == NoticesUpTo(ShiftsOf(days), |ShiftsOf(days)|)
  {
    notices := map[];
    var shifts := JoinDays(days);
    for i := 0 to |shifts|
      invariant notices == NoticesUpTo(shifts, i)
    {
      var current := shifts[i];
      var said: seq<Notice> := [];
      if current.worked > LONGEST_SHIFT {
        said := said + [Notice(LongDay, current.worked)];
      }
      var needed := BreakNeeded(current.worked);
      if current.breaks < needed {
        said := said + [Notice(ShortBreak, needed)];
      }
      if i > 0 {
        var before := shifts[i - 1];
        var rest := (current.startDay - before.endDay) * MINUTES_PER_DAY + current.start - before.end;
        if rest < SHORTEST_REST {
          said := said + [Notice(ShortRest, rest)];
        }
      }
      assert said == Said(shifts, i);
      if |said| > 0 {
        notices := notices[current.startDay := said];
      }
    }
  }

  lemma {:induction false} StartsAscend(shifts: seq<Shift>, i: nat, j: nat)
    requires InTime(shifts) && i < j < |shifts|
    ensures shifts[i].startDay < shifts[j].startDay
    decreases j - i
  {
    if i + 1 < j {
      StartsAscend(shifts, i, j - 1);
    }
  }

  /** A shift's notices stand under its first day, which is not there when nothing is said. */
  ghost predicate NotedAs(shifts: seq<Shift>, i: nat, notices: map<Day, seq<Notice>>)
    requires i < |shifts|
  {
    if Said(shifts, i) == [] then shifts[i].startDay !in notices
    else shifts[i].startDay in notices && notices[shifts[i].startDay] == Said(shifts, i)
  }

  lemma {:induction false} NotedDays(shifts: seq<Shift>, k: nat)
    requires k <= |shifts|
    ensures forall day :: day in NoticesUpTo(shifts, k) ==> exists i :: 0 <= i < k && shifts[i].startDay == day
  {
    if k == 0 {
    } else {
      NotedDays(shifts, k - 1);
      forall day | day in NoticesUpTo(shifts, k) ensures exists i :: 0 <= i < k && shifts[i].startDay == day {
        if day !in NoticesUpTo(shifts, k - 1) {
          assert shifts[k - 1].startDay == day;
        }
      }
    }
  }

  lemma {:induction false} NoticesInTime(shifts: seq<Shift>, k: nat)
    requires InTime(shifts) && k <= |shifts|
    ensures forall i: nat :: i < k ==> NotedAs(shifts, i, NoticesUpTo(shifts, k))
  {
    if k == 0 {
    } else {
      var before, after := NoticesUpTo(shifts, k - 1), NoticesUpTo(shifts, k);
      NoticesInTime(shifts, k - 1);
      NotedDays(shifts, k - 1);
      forall i: nat | i < k - 1 ensures shifts[i].startDay != shifts[k - 1].startDay {
        StartsAscend(shifts, i, k - 1);
      }
      forall i: nat | i < k ensures NotedAs(shifts, i, after) {
        if i < k - 1 {
          assert NotedAs(shifts, i, before);
        }
      }
    }
  }

  function Rank(rule: Rule): nat {
    match rule
    case LongDay => 0
    case ShortBreak => 1
    case ShortRest => 2
  }

  /** No rule is named twice of a shift, and they are named in one order. */
  lemma SaidInOrder(shifts: seq<Shift>, i: nat)
    requires i < |shifts|
    ensures forall a, b :: 0 <= a < b < |Said(shifts, i)| ==>
                             Rank(Said(shifts, i)[a].rule) < Rank(Said(shifts, i)[b].rule)
  {
  }

  /** With one valid record a day, each shift's notices stand under its own first day, and
      nothing stands under any other day. */
  lemma NoticesExactly(days: seq<WorkDay>)
    requires DistinctKeys(ByDay, days) && forall w :: w in days ==> w.Valid()
    ensures var shifts := ShiftsOf(days);
            var notices := NoticesUpTo(shifts, |shifts|);
            && InTime(shifts)
            && (forall i, j :: 0 <= i < j < |shifts| ==> shifts[i].startDay != shifts[j].startDay)
            && (forall i: nat :: i < |shifts| ==> NotedAs(shifts, i, notices))
            && forall day :: day in notices ==> exists i :: 0 <= i < |shifts| && shifts[i].startDay == day
  {
    var sorted := SortBy(ByDay, days);
    SortBySorts(ByDay, days);
    DistinctSortsStrictly(ByDay, days);
    ShiftsInTime(sorted);
    var shifts := ShiftsOf(days);
    NoticesInTime(shifts, |shifts|);
    NotedDays(shifts, |shifts|);
    forall i, j | 0 <= i < j < |shifts| ensures shifts[i].startDay != shifts[j].startDay {
      StartsAscend(shifts, i, j);
    }
  }

  /** The minutes from the end of one recorded day to the start of another. */
  function MinutesBetween(a: WorkDay, b: WorkDay): int {
    (b.day - a.day) * MINUTES_PER_DAY + b.start - a.end
  }

  lemma SaidOfSummaries(shifts: seq<Shift>, runs: seq<seq<WorkDay>>, i: nat, m: int)
    requires InTime(shifts) && Summarised(shifts, runs) && i < |runs|
    ensures var said, worked, breaks := Said(shifts, i), Sum(WorkedOf, runs[i]), Sum(BreaksOf, runs[i]);
            && (Notice(LongDay, m) in said <==> m == worked && worked > 600)
            && (Notice(ShortBreak, m) in said <==>
                breaks < m && m == if worked > 540 then 45 else if worked > 360 then 30 else 0)
            && (Notice(ShortRest, m) in said <==>
                i > 0 && m == MinutesBetween(runs[i - 1][|runs[i - 1]| - 1], runs[i][0]) && 0 < m < 660)
  {
    hide Sum;
  }

  /** What is said of the recorded days, run by run and rule by rule: of the minutes worked in a
      run, of its breaks, and of the rest between the last day of one and the first of the next,
      which is never without a minute. */
  lemma WhatIsSaid(days: seq<WorkDay>, runs: seq<seq<WorkDay>>, i: nat, m: int)
    requires DistinctKeys(ByDay, days) && forall w :: w in days ==> w.Valid()
    requires MaximalRuns(runs, SortBy(ByDay, days)) && i < |runs|
    ensures i < |ShiftsOf(days)| == |runs|
    ensures var said, worked, breaks := Said(ShiftsOf(days), i), Sum(WorkedOf, runs[i]), Sum(BreaksOf, runs[i]);
            && (Notice(LongDay, m) in said <==> m == worked && worked > 600)
            && (Notice(ShortBreak, m) in said <==>
                breaks < m && m == if worked > 540 then 45 else if worked > 360 then 30 else 0)
            && runs[i] != [] && (i > 0 ==> runs[i - 1] != [])
            && (Notice(ShortRest, m) in said <==>
                i > 0 && m == MinutesBetween(runs[i - 1][|runs[i - 1]| - 1], runs[i][0]) && 0 < m < 660)
  {
    NoticesExactly(days);
    ShiftsAreTheMaximalRuns(days);
    assert Summarised(ShiftsOf(days), runs);
    hide ShiftsOf, MaximalRuns, InTime, Said, Sum;
    SaidOfSummaries(ShiftsOf(days), runs, i, m);
  }
}
