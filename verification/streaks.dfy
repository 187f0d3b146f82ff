/**
 * `calculate_streaks` of data_manager.py: for each of four habits, the number
 * of consecutive logged days, newest first, on which the habit was done,
 * starting today or yesterday.
 */
module Streaks {
  import opened Wrappers
  import opened AuditLog
  import opened Seqs

  datatype Habit = CPA | Gym | Dog | Tech

  const Habits: set<Habit> := {CPA, Gym, Dog, Tech}

  /** The log column a habit is judged on. */
  function Column(h: Habit): string {
    match h
    case CPA => "CPA_Hours"
    case Gym => "Gym"
    case Dog => "Dog_Walks"
    case Tech => "Tech_AI_Hours"
  }

  /** A record of the log together with its `Date` cell read as a day number. */
  datatype LogRow = LogRow(date: int, cells: Record)

  /** The habit cells are there and the `> 0` tests compare numbers, not text. */
  predicate Comparable(row: LogRow) {
    forall h: Habit :: Column(h) in row.cells && (h == Gym || !row.cells[Column(h)].Str?)
  }

  predicate AllComparable(rows: seq<LogRow>) {
    forall i :: 0 <= i < |rows| ==> Comparable(rows[i])
  }

  /** `cell == True or cell == 1`. */
  predicate IsOne(c: Cell) {
    c == Flag(true) || c == Num(1.0)
  }

  /** The success criterion of each habit. */
  predicate Succeeds(h: Habit, row: LogRow)
    requires Comparable(row)
  {
    var c := row.cells[Column(h)];
    match h
    case Gym => IsOne(c)
    case _ => Positive(c)
  }

  /** A record filled with the loader's default in a habit column never counts for that habit. */
  lemma DefaultsNeverSucceed(h: Habit, row: LogRow)
    requires Comparable(row)
    requires row.cells[Column(h)] == DefaultValue(Column(h))
    ensures !Succeeds(h, row)
  {
    match h
    case CPA => CountColumnsDefaultToZero(Column(h));
    case Dog => CountColumnsDefaultToZero(Column(h));
    case Tech => CountColumnsDefaultToZero(Column(h));
    case Gym => HabitColumnsDefaultToFalse(Column(h));
  }

  // ---------------------------------------------------------------- ordering by date

  predicate Descending(rows: seq<LogRow>) {
    forall i, j :: 0 <= i < j < |rows| ==> rows[i].date >= rows[j].date
  }

  /** At most one record per day. */
  predicate DistinctDays(rows: seq<LogRow>) {
    forall i, j :: 0 <= i < j < |rows| ==> rows[i].date != rows[j].date
  }

  /** Places `x` after every record that is not older. */
  function InsertByDate(x: LogRow, s: seq<LogRow>): (r: seq<LogRow>)
    requires Descending(s)
    ensures Descending(r)
    ensures multiset(r) == multiset(s) + multiset{x}
  {
    if |s| == 0 then [x]
    else if x.date > s[0].date then
      ConsDescending(x, s);
      [x] + s
    else
      var rest := InsertByDate(x, s[1..]);
      assert s == [s[0]] + s[1..];
      HeadNotOlder(s, x, rest);
      ConsDescending(s[0], rest);
      [s[0]] + rest
  }

  /** A record not older than any record of a newest-first log can go in front of it. */
  lemma ConsDescending(y: LogRow, s: seq<LogRow>)
    requires Descending(s)
    requires forall j :: 0 <= j < |s| ==> y.date >= s[j].date
    ensures Descending([y] + s)
  {
    forall i, j | 0 <= i < j < |[y] + s| ensures ([y] + s)[i].date >= ([y] + s)[j].date {
      assert ([y] + s)[j] == s[j - 1];
      if i > 0 {
        assert ([y] + s)[i] == s[i - 1];
      }
    }
  }

  /** The first record of a newest-first log is not older than the rest of it with an older-or-same `x` put in. */
  lemma HeadNotOlder(s: seq<LogRow>, x: LogRow, rest: seq<LogRow>)
    requires |s| > 0 && Descending(s) && x.date <= s[0].date
    requires multiset(rest) == multiset(s[1..]) + multiset{x}
    ensures forall j :: 0 <= j < |rest| ==> s[0].date >= rest[j].date
  {
    forall j | 0 <= j < |rest| ensures s[0].date >= rest[j].date {
      assert rest[j] in multiset(rest);
      if rest[j] != x {
        assert rest[j] in multiset(s[1..]);
        var i :| 0 <= i < |s[1..]| && s[1..][i] == rest[j];
        assert s[i + 1] == rest[j];
      }
    }
  }

  /** `df.sort_values('Date', ascending=False)`. */
  function SortByDate(s: seq<LogRow>): (r: seq<LogRow>)
    ensures Descending(r)
    ensures multiset(r) == multiset(s)
  {
    if |s| == 0 then []
    else
      assert s == s[..|s| - 1] + [s[|s| - 1]];
      InsertByDate(s[|s| - 1], SortByDate(s[..|s| - 1]))
  }

  /** Sorting keeps every record, so it keeps them comparable. */
  lemma SortedComparable(rows: seq<LogRow>)
    requires AllComparable(rows)
    ensures AllComparable(SortByDate(rows))
  {
    var sorted := SortByDate(rows);
    forall i | 0 <= i < |sorted| ensures Comparable(sorted[i]) {
      assert sorted[i] in multiset(rows);
    }
  }

  /** A value occurring twice in a multiset of a sequence sits at two positions. */
  lemma TwoPositions(a: seq<LogRow>, x: LogRow)
    requires multiset(a)[x] >= 2
    ensures exists p, q :: 0 <= p < q < |a| && a[p] == x && a[q] == x
  {
    assert x in multiset(a);
    var p :| 0 <= p < |a| && a[p] == x;
    RemoveAt(a, p);
    var rest := a[..p] + a[p + 1..];
    assert x in multiset(rest);
    var q :| 0 <= q < |rest| && rest[q] == x;
    if q < p {
      assert a[q] == x;
    } else {
      assert a[q + 1] == x;
    }
  }

  /** Reordering the log keeps it at one record per day. */
  lemma DistinctDaysPermutation(a: seq<LogRow>, b: seq<LogRow>)
    requires multiset(a) == multiset(b)
    requires DistinctDays(a)
    ensures DistinctDays(b)
  {
    forall i, j | 0 <= i < j < |b| ensures b[i].date != b[j].date {
      if b[i] == b[j] {
        assert b == b[..j] + [b[j]] + b[j + 1..];
        assert b[i] in multiset(b[..j]);
        TwoPositions(a, b[i]);
      } else {
        assert b[i] in multiset(a) && b[j] in multiset(a);
      }
    }
  }

  // ---------------------------------------------------------------- the scan

  function UpTo(today: int): LogRow -> Option<LogRow> {
    (row: LogRow) => if row.date <= today then Some(row) else None
  }

  /** The records dated today or earlier. */
  function Logged(rows: seq<LogRow>, today: int): seq<LogRow> {
    FilterMap(rows, UpTo(today))
  }

  /**
   * The loop over the date-sorted log for one habit: future records are skipped,
   * the first counted record must be from today or yesterday, every further one
   * at most a day older than the one before, and the first failure ends the run.
   */
  function Scan(rows: seq<LogRow>, today: int, last: Option<int>, h: Habit): (n: nat)
    requires AllComparable(rows)
    ensures n <= |Logged(rows, today)|
  {
    if |rows| == 0 then 0
    else
      var date := rows[0].date;
      if date > today then Scan(rows[1..], today, last, h)
      else
        var previous := if last.None? then today else last.value;
        if previous - date > 1 then 0
        else if Succeeds(h, rows[0]) then 1 + Scan(rows[1..], today, Some(date), h)
        else 0
  }

  /** `calculate_streaks`, with today's day number passed in. */
  function CalculateStreaks(rows: seq<LogRow>, today: int): (r: map<Habit, nat>)
    requires AllComparable(rows)
    ensures r.Keys == Habits
    ensures |rows| == 0 ==> forall h :: h in r ==> r[h] == 0
    ensures forall h :: h in r ==> r[h] <= |Logged(rows, today)|
  {
    if |rows| == 0 then map[CPA := 0, Gym := 0, Dog := 0, Tech := 0]
    else
      var sorted := SortByDate(rows);
      FilterMapPermutation(sorted, rows, UpTo(today));
      assert |Logged(sorted, today)| == |multiset(Logged(sorted, today))| == |Logged(rows, today)|;
      SortedComparable(rows);
      map h | h in Habits :: Scan(sorted, today, None, h)
  }

  // ---------------------------------------------------------------- what a streak is

  /** Some record of the day shows the habit done. */
  ghost predicate Done(rows: seq<LogRow>, h: Habit, day: int)
    requires AllComparable(rows)
  {
    exists i :: 0 <= i < |rows| && rows[i].date == day && Succeeds(h, rows[i])
  }

  ghost predicate LoggedOn(rows: seq<LogRow>, day: int) {
    exists i :: 0 <= i < |rows| && rows[i].date == day
  }

  /** A streak runs back from today when today is logged, and from yesterday otherwise. */
  ghost function StreakStart(rows: seq<LogRow>, today: int): int {
    if LoggedOn(rows, today) then today else today - 1
  }

  /** The habit was done on the `n` days back from the start and not on the day before them. */
  ghost predicate IsStreak(rows: seq<LogRow>, today: int, h: Habit, n: nat)
    requires AllComparable(rows)
  {
    var start := StreakStart(rows, today);
    (forall day :: start - n < day <= start ==> Done(rows, h, day)) && !Done(rows, h, start - n)
  }

  /** At most one length fits the description of a streak. */
  lemma StreakUnique(rows: seq<LogRow>, today: int, h: Habit, n: nat, m: nat)
    requires AllComparable(rows)
    requires IsStreak(rows, today, h, n) && IsStreak(rows, today, h, m)
    ensures n == m
  {
  }

  lemma DoneCons(rows: seq<LogRow>, h: Habit, day: int)
    requires |rows| > 0 && AllComparable(rows)
    ensures Done(rows, h, day) <==>
      (rows[0].date == day && Succeeds(h, rows[0])) || Done(rows[1..], h, day)
    ensures LoggedOn(rows, day) <==> rows[0].date == day || LoggedOn(rows[1..], day)
  {
    if Done(rows[1..], h, day) {
      var i :| 0 <= i < |rows[1..]| && rows[1..][i].date == day && Succeeds(h, rows[1..][i]);
      assert rows[i + 1] == rows[1..][i];
    }
    if LoggedOn(rows[1..], day) {
      var i :| 0 <= i < |rows[1..]| && rows[1..][i].date == day;
      assert rows[i + 1] == rows[1..][i];
    }
    if Done(rows, h, day) {
      var i :| 0 <= i < |rows| && rows[i].date == day && Succeeds(h, rows[i]);
      if i > 0 {
        assert rows[1..][i - 1] == rows[i];
      }
    }
    if LoggedOn(rows, day) {
      var i :| 0 <= i < |rows| && rows[i].date == day;
      if i > 0 {
        assert rows[1..][i - 1] == rows[i];
      }
    }
  }

  /** Nothing in a newest-first log is dated after its first record. */
  lemma NothingNewer(rows: seq<LogRow>, h: Habit, day: int)
    requires |rows| > 0 && AllComparable(rows) && Descending(rows)
    requires rows[0].date < day
    ensures !Done(rows, h, day) && !LoggedOn(rows, day)
  {
  }

  /** The scan continuing below the day `b` counts the days done right before `b`. */
  lemma {:induction false} ScanAfter(rows: seq<LogRow>, today: int, b: int, h: Habit)
    requires AllComparable(rows) && Descending(rows) && DistinctDays(rows)
    requires b <= today
    requires forall i :: 0 <= i < |rows| ==> rows[i].date < b
    ensures var n := Scan(rows, today, Some(b), h);
      (forall day :: b - n <= day < b ==> Done(rows, h, day)) && !Done(rows, h, b - 1 - n)
    decreases |rows|
  {
    if |rows| > 0 {
      var d := rows[0].date;
      assert Scan(rows, today, Some(b), h) ==
        if b - d > 1 then 0 else if Succeeds(h, rows[0]) then 1 + Scan(rows[1..], today, Some(d), h) else 0;
      if b - d > 1 {
        NothingNewer(rows, h, b - 1);
      } else if !Succeeds(h, rows[0]) {
        OnlyRecordOfItsDay(rows, h);
      } else {
        TailOrdered(rows);
        ScanAfter(rows[1..], today, d, h);
        ExtendRun(rows, h, Scan(rows[1..], today, Some(d), h));
      }
    }
  }

  /** The older records of a newest-first log with one record per day form such a log too, all before the first day. */
  lemma TailOrdered(rows: seq<LogRow>)
    requires |rows| > 0 && AllComparable(rows) && Descending(rows) && DistinctDays(rows)
    ensures AllComparable(rows[1..]) && Descending(rows[1..]) && DistinctDays(rows[1..])
    ensures forall i :: 0 <= i < |rows[1..]| ==> rows[1..][i].date < rows[0].date
  {
    forall i | 0 <= i < |rows[1..]| ensures rows[1..][i] == rows[i + 1] {
    }
  }

  /** In a newest-first log with one record per day, the first record is the only one of its day. */
  lemma OnlyRecordOfItsDay(rows: seq<LogRow>, h: Habit)
    requires |rows| > 0 && AllComparable(rows) && Descending(rows) && DistinctDays(rows)
    ensures Done(rows, h, rows[0].date) <==> Succeeds(h, rows[0])
    ensures forall i :: 1 <= i < |rows| ==> rows[i].date < rows[0].date
  {
  }

  /** A run of `m` days done below the first record's day, which was done too, is a run of `m + 1` days. */
  lemma ExtendRun(rows: seq<LogRow>, h: Habit, m: nat)
    requires |rows| > 0 && AllComparable(rows) && Descending(rows) && DistinctDays(rows)
    requires Succeeds(h, rows[0])
    requires var d := rows[0].date;
      (forall day :: d - m <= day < d ==> Done(rows[1..], h, day)) && !Done(rows[1..], h, d - 1 - m)
    ensures var d := rows[0].date;
      (forall day :: d - m <= day <= d ==> Done(rows, h, day)) && !Done(rows, h, d - 1 - m)
  {
    var d := rows[0].date;
    forall day | d - m <= day <= d ensures Done(rows, h, day) {
      DoneCons(rows, h, day);
    }
    DoneCons(rows, h, d - 1 - m);
  }

  /** The scan from the newest record counts the days done back from the streak's start. */
  lemma {:induction false} ScanFromToday(rows: seq<LogRow>, today: int, h: Habit)
    requires AllComparable(rows) && Descending(rows) && DistinctDays(rows)
    ensures IsStreak(rows, today, h, Scan(rows, today, None, h))
    decreases |rows|
  {
    if |rows| > 0 {
      var d := rows[0].date;
      if d > today {
        ScanFromToday(rows[1..], today, h);
        SkipFuture(rows, today, h, Scan(rows[1..], today, None, h));
      } else if today - d > 1 {
        NothingNewer(rows, h, today - 1);
        NothingNewer(rows, h, today);
      } else {
        ScanFromRecent(rows, today, h);
      }
    }
  }

  /** The newest past record is from today or yesterday: the run is counted from its day. */
  lemma ScanFromRecent(rows: seq<LogRow>, today: int, h: Habit)
    requires |rows| > 0 && AllComparable(rows) && Descending(rows) && DistinctDays(rows)
    requires today - 1 <= rows[0].date <= today
    ensures IsStreak(rows, today, h, Scan(rows, today, None, h))
  {
    var d := rows[0].date;
    StartsAtFirst(rows, today, h);
    assert Scan(rows, today, None, h) == if Succeeds(h, rows[0]) then 1 + Scan(rows[1..], today, Some(d), h) else 0;
    if !Succeeds(h, rows[0]) {
      OnlyRecordOfItsDay(rows, h);
    } else {
      TailOrdered(rows);
      ScanAfter(rows[1..], today, d, h);
      ExtendRun(rows, h, Scan(rows[1..], today, Some(d), h));
    }
  }

  /** A record dated after today does not change which days up to today are logged or done. */
  lemma SkipFuture(rows: seq<LogRow>, today: int, h: Habit, n: nat)
    requires |rows| > 0 && AllComparable(rows) && rows[0].date > today
    requires IsStreak(rows[1..], today, h, n)
    ensures IsStreak(rows, today, h, n)
  {
    DoneCons(rows, h, today);
    DoneCons(rows, h, today - 1);
    var start := StreakStart(rows, today);
    assert start == StreakStart(rows[1..], today);
    forall day | start - n < day <= start ensures Done(rows, h, day) {
      DoneCons(rows, h, day);
    }
    DoneCons(rows, h, start - n);
  }

  /** When the newest past record is from today or yesterday, the streak starts on its day. */
  lemma StartsAtFirst(rows: seq<LogRow>, today: int, h: Habit)
    requires |rows| > 0 && AllComparable(rows) && Descending(rows)
    requires today - 1 <= rows[0].date <= today
    ensures StreakStart(rows, today) == rows[0].date
  {
    if rows[0].date < today {
      NothingNewer(rows, h, today);
    } else {
      assert LoggedOn(rows, today) by {
        assert rows[0].date == today;
      }
    }
  }

  /** Both notions are about which records the log holds, not their order. */
  lemma SameRecords(a: seq<LogRow>, b: seq<LogRow>, h: Habit, day: int)
    requires multiset(a) == multiset(b)
    requires AllComparable(a) && AllComparable(b)
    ensures Done(a, h, day) <==> Done(b, h, day)
    ensures LoggedOn(a, day) <==> LoggedOn(b, day)
  {
    RecordsCarryOver(a, b, h, day);
    RecordsCarryOver(b, a, h, day);
  }

  lemma RecordsCarryOver(a: seq<LogRow>, b: seq<LogRow>, h: Habit, day: int)
    requires multiset(a) == multiset(b)
    requires AllComparable(a) && AllComparable(b)
    ensures Done(a, h, day) ==> Done(b, h, day)
    ensures LoggedOn(a, day) ==> LoggedOn(b, day)
  {
    if Done(a, h, day) {
      var i :| 0 <= i < |a| && a[i].date == day && Succeeds(h, a[i]);
      assert a[i] in multiset(b);
    }
    if LoggedOn(a, day) {
      var i :| 0 <= i < |a| && a[i].date == day;
      assert a[i] in multiset(b);
    }
  }

  /**
   * The streak of a habit is the number of consecutive days, back from today when
   * today is logged and from yesterday otherwise, on which it was done.
   */
  lemma StreakMeaning(rows: seq<LogRow>, today: int, h: Habit)
    requires AllComparable(rows) && DistinctDays(rows)
    ensures IsStreak(rows, today, h, CalculateStreaks(rows, today)[h])
  {
    if |rows| > 0 {
      var sorted := SortByDate(rows);
      SortedComparable(rows);
      DistinctDaysPermutation(rows, sorted);
      ScanFromToday(sorted, today, h);
      forall day | day <= today
        ensures (Done(sorted, h, day) <==> Done(rows, h, day)) && (LoggedOn(sorted, day) <==> LoggedOn(rows, day))
      {
        SameRecords(sorted, rows, h, day);
      }
      SamePastSameStreak(sorted, rows, today, h, Scan(sorted, today, None, h));
    }
  }

  /** With nothing logged today, a habit done yesterday still keeps its streak alive. */
  lemma YesterdayCounts(rows: seq<LogRow>, today: int, h: Habit)
    requires AllComparable(rows) && DistinctDays(rows)
    requires !LoggedOn(rows, today) && Done(rows, h, today - 1)
    ensures CalculateStreaks(rows, today)[h] >= 1
  {
    StreakMeaning(rows, today, h);
  }

  /** Neither today nor yesterday logged: every streak is broken. */
  lemma TwoDayGapBreaks(rows: seq<LogRow>, today: int, h: Habit)
    requires AllComparable(rows) && DistinctDays(rows)
    requires !LoggedOn(rows, today) && !LoggedOn(rows, today - 1)
    ensures CalculateStreaks(rows, today)[h] == 0
  {
    StreakMeaning(rows, today, h);
    assert !Done(rows, h, today - 1);
  }

  /** A record dated after today adds nothing to the days up to today. */
  lemma AppendedFuture(rows: seq<LogRow>, x: LogRow, today: int, h: Habit, day: int)
    requires AllComparable(rows + [x]) && x.date > today && day <= today
    ensures AllComparable(rows)
    ensures Done(rows + [x], h, day) <==> Done(rows, h, day)
    ensures LoggedOn(rows + [x], day) <==> LoggedOn(rows, day)
  {
    var more := rows + [x];
    assert forall i :: 0 <= i < |rows| ==> more[i] == rows[i];
    if Done(more, h, day) {
      var i :| 0 <= i < |more| && more[i].date == day && Succeeds(h, more[i]);
      assert Succeeds(h, rows[i]);
    }
    if LoggedOn(more, day) {
      var i :| 0 <= i < |more| && more[i].date == day;
      assert rows[i].date == day;
    }
  }

  /** Two logs that agree on every day up to today agree on the streak length. */
  lemma SamePastSameStreak(a: seq<LogRow>, b: seq<LogRow>, today: int, h: Habit, n: nat)
    requires AllComparable(a) && AllComparable(b)
    requires forall day :: day <= today ==>
      (Done(a, h, day) <==> Done(b, h, day)) && (LoggedOn(a, day) <==> LoggedOn(b, day))
    requires IsStreak(a, today, h, n)
    ensures IsStreak(b, today, h, n)
  {
    assert StreakStart(a, today) == StreakStart(b, today);
  }

  /** Records dated after today change no streak. */
  lemma FutureRecordIgnored(rows: seq<LogRow>, x: LogRow, today: int)
    requires AllComparable(rows) && Comparable(x) && DistinctDays(rows + [x])
    requires x.date > today
    ensures CalculateStreaks(rows + [x], today) == CalculateStreaks(rows, today)
  {
    var more := rows + [x];
    assert DistinctDays(rows) by {
      forall i, j | 0 <= i < j < |rows| ensures rows[i].date != rows[j].date {
        assert more[i] == rows[i] && more[j] == rows[j];
      }
    }
    assert AllComparable(more);
    forall h | h in Habits ensures CalculateStreaks(more, today)[h] == CalculateStreaks(rows, today)[h] {
      FutureRecordIgnoredFor(rows, x, today, h);
    }
  }

  /** One habit's streak, with and without a record dated after today. */
  lemma FutureRecordIgnoredFor(rows: seq<LogRow>, x: LogRow, today: int, h: Habit)
    requires AllComparable(rows) && AllComparable(rows + [x])
    requires DistinctDays(rows) && DistinctDays(rows + [x])
    requires x.date > today && h in Habits
    ensures CalculateStreaks(rows + [x], today)[h] == CalculateStreaks(rows, today)[h]
  {
    var more := rows + [x];
    var a := CalculateStreaks(more, today);
    var b := CalculateStreaks(rows, today);
    StreakMeaning(more, today, h);
    StreakMeaning(rows, today, h);
    forall day | day <= today
      ensures (Done(more, h, day) <==> Done(rows, h, day)) && (LoggedOn(more, day) <==> LoggedOn(rows, day))
    {
      AppendedFuture(rows, x, today, h, day);
    }
    SamePastSameStreak(more, rows, today, h, a[h]);
    StreakUnique(rows, today, h, a[h], b[h]);
  }
}
