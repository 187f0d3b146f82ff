/**
 * The pure fragments of Personal_Growth_App.py: the study timer's buttons and
 * display, the quote of the day, the grocery lines handed to the aggregator,
 * and the 0/1 values of the habit heatmap. The clock is a parameter.
 */
module App {
  import opened Wrappers
  import opened Text
  import opened Seqs
  import opened AuditLog
  import opened Ingredients
  import AiUtils
  import Streaks

  // ---------------------------------------------------------------- study timer

  /** `<prefix>_timer_running`, `<prefix>_start_time` and `<prefix>_elapsed`, in seconds. */
  datatype Timer = Timer(running: bool, start: real, elapsed: real)

  /** The session state before any button is pressed. */
  const InitialTimer: Timer := Timer(false, 0.0, 0.0)

  datatype Button = Start | Pause | Reset

  /** Start is disabled while running, Pause while stopped; Reset is always enabled. */
  predicate Enabled(t: Timer, b: Button) {
    match b
    case Start => !t.running
    case Pause => t.running
    case Reset => true
  }

  /** Pressing a button at time `now`; a disabled button does nothing. */
  function Press(t: Timer, b: Button, now: real): (r: Timer)
    ensures !Enabled(t, b) ==> r == t
    ensures b == Start && Enabled(t, b) ==> r.running && r.start == now && r.elapsed == t.elapsed
    ensures b == Pause && Enabled(t, b) ==> !r.running && r.start == t.start && r.elapsed - t.elapsed == now - t.start
    ensures b == Pause && now >= t.start ==> r.elapsed >= t.elapsed
    ensures b == Reset ==> !r.running && r.elapsed == 0.0 && r.start == t.start
  {
    if !Enabled(t, b) then t
    else
      match b
      case Start => t.(running := true, start := now)
      case Pause => t.(running := false, elapsed := t.elapsed + (now - t.start))
      case Reset => t.(running := false, elapsed := 0.0)
  }

  /** Python's `int()` on a float: drop the fraction, towards zero. */
  function Truncate(x: real): (n: int)
    ensures x >= 0.0 ==> n as real <= x < n as real + 1.0
    ensures x < 0.0 ==> n as real - 1.0 < x <= n as real
  {
    if x >= 0.0 then x.Floor else -((-x).Floor)
  }

  /** `int(elapsed_time + current_session)`: the whole seconds the timer shows at `now`. */
  function Shown(t: Timer, now: real): (total: int)
    ensures !t.running ==> total == Truncate(t.elapsed)
    ensures t.running ==> total == Truncate(t.elapsed + (now - t.start))
    ensures var x := t.elapsed + (if t.running then now - t.start else 0.0);
      x >= 0.0 ==> 0 <= total && total as real <= x < total as real + 1.0
    ensures var x := t.elapsed + (if t.running then now - t.start else 0.0);
      x < 0.0 ==> total <= 0 && total as real - 1.0 < x <= total as real
  {
    var session := if t.running then now - t.start else 0.0;
    Truncate(t.elapsed + session)
  }

  datatype Hms = Hms(hours: int, mins: int, secs: int)

  /** `divmod(total, 3600)` and then `divmod(rem, 60)`; for a positive divisor Python's floor division is Dafny's. */
  function SplitHms(total: int): (r: Hms)
    ensures r.hours * 3600 + r.mins * 60 + r.secs == total
    ensures 0 <= r.mins < 60 && 0 <= r.secs < 60
    ensures total >= 0 ==> r.hours >= 0
  {
    var rem := total % 3600;
    Hms(total / 3600, rem / 60, rem % 60)
  }

  /** Hours, minutes and seconds within range are determined by the total. */
  lemma SplitHmsUnique(total: int, r: Hms)
    requires r.hours * 3600 + r.mins * 60 + r.secs == total
    requires 0 <= r.mins < 60 && 0 <= r.secs < 60
    ensures SplitHms(total) == r
  {
    var q := SplitHms(total);
    var a := r.mins * 60 + r.secs;
    var b := q.mins * 60 + q.secs;
    assert 0 <= a < 3600 && 0 <= b < 3600;
    assert (r.hours - q.hours) * 3600 == b - a;
    assert r.hours == q.hours;
    assert r.mins * 60 + r.secs == q.mins * 60 + q.secs;
    assert (r.mins - q.mins) * 60 == q.secs - r.secs;
  }

  /** Pressing Start or Pause does not make the display jump. */
  lemma PressKeepsShownTime(t: Timer, b: Button, now: real)
    requires b != Reset
    ensures Shown(Press(t, b, now), now) == Shown(t, now)
  {
  }

  /** A sensible timer at `now`: no negative elapsed time, and a running one started in the past. */
  predicate Sane(t: Timer, now: real) {
    t.elapsed >= 0.0 && (t.running ==> t.start <= now)
  }

  /** Button presses at non-decreasing times keep the timer sensible. */
  lemma PressKeepsSane(t: Timer, b: Button, now: real, later: real)
    requires Sane(t, now) && now <= later
    ensures Sane(Press(t, b, now), later)
  {
  }

  /** Pressing buttons in order, each at its own time. */
  function Run(t: Timer, presses: seq<(Button, real)>): Timer
    decreases |presses|
  {
    if |presses| == 0 then t else Run(Press(t, presses[0].0, presses[0].1), presses[1..])
  }

  predicate InOrder(presses: seq<(Button, real)>) {
    forall i, j :: 0 <= i < j < |presses| ==> presses[i].1 <= presses[j].1
  }

  /** From the initial state, any presses in time order leave a timer that never shows negative time. */
  lemma {:induction false} RunStaysSane(t: Timer, now: real, presses: seq<(Button, real)>, later: real)
    requires Sane(t, now) && InOrder(presses)
    requires forall i :: 0 <= i < |presses| ==> now <= presses[i].1 <= later
    requires now <= later
    ensures Sane(Run(t, presses), later)
    ensures Shown(Run(t, presses), later) >= 0 && SplitHms(Shown(Run(t, presses), later)).hours >= 0
    decreases |presses|
  {
    if |presses| > 0 {
      var next := Press(t, presses[0].0, presses[0].1);
      PressKeepsSane(t, presses[0].0, presses[0].1, presses[0].1);
      RunStaysSane(next, presses[0].1, presses[1..], later);
    }
  }

  /** The timer starts out sensible at any time not before the epoch. */
  lemma InitialTimerSane(now: real)
    requires now >= 0.0
    ensures Sane(InitialTimer, now) && Shown(InitialTimer, now) == 0
  {
  }

  // ---------------------------------------------------------------- quote of the day

  const Quotes: seq<string> := [
    "The only way to do great work is to love what you do.",
    "Success is not final, failure is not fatal: it is the courage to continue that counts.",
    "Discipline is choosing between what you want now and what you want most."
  ]

  /** `get_quote` on day-of-month `day`; both branches pick by `day % len(quotes)`. */
  function GetQuote(key: Option<string>, day: nat): (q: string)
    ensures q in Quotes
  {
    if !AiUtils.KeyMissing(key) then Quotes[day % |Quotes|]
    else Quotes[day % |Quotes|]
  }

  /** The key plays no part in the choice. */
  lemma QuoteIgnoresKey(k1: Option<string>, k2: Option<string>, day: nat)
    ensures GetQuote(k1, day) == GetQuote(k2, day)
  {
  }

  /** The quotes come round every three days, and three consecutive days show all three. */
  lemma QuotesCycle(key: Option<string>, day: nat)
    ensures GetQuote(key, day + 3) == GetQuote(key, day)
    ensures forall q :: q in Quotes ==> q in [GetQuote(key, day), GetQuote(key, day + 1), GetQuote(key, day + 2)]
  {
    var i := day % 3;
    assert (day + 3) % 3 == i;
    assert (day + 1) % 3 == (i + 1) % 3;
    assert (day + 2) % 3 == (i + 2) % 3;
  }

  // ---------------------------------------------------------------- grocery lines

  datatype Recipe = Recipe(name: string, ingredients: string)

  /** `recipes_df[recipes_df['Name'] == name]['Ingredients'].values[0]`. */
  function IngredientsOf(recipes: seq<Recipe>, name: string): (r: Option<string>)
    ensures r.None? <==> forall i :: 0 <= i < |recipes| ==> recipes[i].name != name
    ensures r.Some? ==>
      exists i :: 0 <= i < |recipes| && recipes[i].name == name && recipes[i].ingredients == r.value
        && forall j :: 0 <= j < i ==> recipes[j].name != name
  {
    if |recipes| == 0 then None
    else if recipes[0].name == name then Some(recipes[0].ingredients)
    else
      var r := IngredientsOf(recipes[1..], name);
      assert forall i :: 1 <= i < |recipes| ==> recipes[i] == recipes[1..][i - 1];
      r
  }

  /** What a grocery line looks like: non-empty, stripped, on one line. */
  ghost predicate CleanLine(line: string) {
    |line| > 0 && Stripped(line) && !Occurs(line, "\n")
  }

  /** `i.strip()`, kept only when it is not empty. */
  function NonBlank(part: string): Option<string> {
    var t := Strip(part);
    if |t| > 0 then Some(t) else None
  }

  /** `[i.strip() for i in str(items).split('\n') if i.strip()]`. */
  function RecipeLines(text: string): (r: seq<string>)
    ensures forall k :: 0 <= k < |r| ==> CleanLine(r[k])
  {
    var parts := Split(text, "\n");
    NonBlankLinesClean(parts);
    FilterMap(parts, NonBlank)
  }

  /** The lines are exactly the non-empty stripped parts of the text. */
  lemma RecipeLinesMembers(text: string)
    ensures forall line :: line in RecipeLines(text) <==>
      exists part :: part in Split(text, "\n") && |Strip(part)| > 0 && Strip(part) == line
  {
    NonBlankMembers(Split(text, "\n"));
  }

  /** Parts without a newline leave clean lines behind. */
  lemma NonBlankLinesClean(parts: seq<string>)
    requires forall k :: 0 <= k < |parts| ==> !Occurs(parts[k], "\n")
    ensures forall k :: 0 <= k < |FilterMap(parts, NonBlank)| ==> CleanLine(FilterMap(parts, NonBlank)[k])
  {
    var r := FilterMap(parts, NonBlank);
    FilterMapMembers(parts, NonBlank);
    forall k | 0 <= k < |r| ensures CleanLine(r[k]) {
      assert r[k] in r;
      var i :| 0 <= i < |parts| && NonBlank(parts[i]) == Some(r[k]);
      StrippedPartHasNoNewline(parts[i]);
    }
  }

  /** The kept lines are exactly the non-empty stripped parts. */
  lemma NonBlankMembers(parts: seq<string>)
    ensures forall line :: line in FilterMap(parts, NonBlank) <==>
      exists part :: part in parts && |Strip(part)| > 0 && Strip(part) == line
  {
    FilterMapMembers(parts, NonBlank);
    forall line ensures line in FilterMap(parts, NonBlank) <==>
      exists part :: part in parts && |Strip(part)| > 0 && Strip(part) == line
    {
      if line in FilterMap(parts, NonBlank) {
        var i :| 0 <= i < |parts| && NonBlank(parts[i]) == Some(line);
        assert parts[i] in parts;
      }
      if exists part :: part in parts && |Strip(part)| > 0 && Strip(part) == line {
        var part :| part in parts && |Strip(part)| > 0 && Strip(part) == line;
        var i :| 0 <= i < |parts| && parts[i] == part;
        assert NonBlank(parts[i]) == Some(line);
      }
    }
  }

  /** A stripped piece of a newline-free part holds no newline either. */
  lemma StrippedPartHasNoNewline(part: string)
    requires !Occurs(part, "\n")
    ensures !Occurs(Strip(part), "\n")
  {
    StripOccurs(part);
    if Occurs(Strip(part), "\n") {
      OccursTransitive(part, Strip(part), "\n");
    }
  }

  /** Lines that are already stripped, non-empty and single come back from their joined text unchanged. */
  lemma RecipeLinesOfJoin(lines: seq<string>)
    requires |lines| >= 1
    requires forall k :: 0 <= k < |lines| ==> CleanLine(lines[k])
    ensures RecipeLines(Join(lines, "\n")) == lines
  {
    SplitOfJoin(lines, "\n");
    KeepStrippedLines(lines);
  }

  lemma {:induction false} KeepStrippedLines(lines: seq<string>)
    requires forall k :: 0 <= k < |lines| ==> |lines[k]| > 0 && Stripped(lines[k])
    ensures FilterMap(lines, NonBlank) == lines
    decreases |lines|
  {
    if |lines| > 0 {
      StripOfStripped(lines[0]);
      KeepStrippedLines(lines[1..]);
      assert lines == [lines[0]] + lines[1..];
    }
  }

  /** Every selected meal names a recipe of the vault. */
  predicate AllKnown(recipes: seq<Recipe>, selected: seq<string>) {
    forall i :: 0 <= i < |selected| ==> IngredientsOf(recipes, selected[i]).Some?
  }

  /** The lines of one selected recipe; a name outside the vault contributes nothing here. */
  function LinesOf(recipes: seq<Recipe>, name: string): seq<string> {
    match IngredientsOf(recipes, name)
    case None => []
    case Some(text) => RecipeLines(text)
  }

  /** The lines of each selected recipe, in selection order. */
  function CollectLines(recipes: seq<Recipe>, selected: seq<string>): (r: seq<string>)
    ensures forall k :: 0 <= k < |r| ==> CleanLine(r[k])
  {
    if |selected| == 0 then []
    else
      var first := LinesOf(recipes, selected[0]);
      var rest := CollectLines(recipes, selected[1..]);
      CleanConcat(first, rest);
      first + rest
  }

  /**
   * `all_raw_lines`. Looking up a name outside the vault raises `IndexError`,
   * modelled as `None`.
   */
  function GroceryLines(recipes: seq<Recipe>, selected: seq<string>): (r: Option<seq<string>>)
    ensures r.None? <==> exists i :: 0 <= i < |selected| && IngredientsOf(recipes, selected[i]).None?
    ensures r.Some? ==> forall k :: 0 <= k < |r.value| ==> CleanLine(r.value[k])
  {
    if AllKnown(recipes, selected) then Some(CollectLines(recipes, selected)) else None
  }

  lemma CleanConcat(a: seq<string>, b: seq<string>)
    requires forall k :: 0 <= k < |a| ==> CleanLine(a[k])
    requires forall k :: 0 <= k < |b| ==> CleanLine(b[k])
    ensures forall k :: 0 <= k < |a + b| ==> CleanLine((a + b)[k])
  {
    forall k | 0 <= k < |a + b| ensures CleanLine((a + b)[k]) {
      if k >= |a| {
        assert (a + b)[k] == b[k - |a|];
      }
    }
  }

  lemma {:induction false} CollectLinesConcat(recipes: seq<Recipe>, a: seq<string>, b: seq<string>)
    ensures CollectLines(recipes, a + b) == CollectLines(recipes, a) + CollectLines(recipes, b)
    decreases |a|
  {
    if |a| == 0 {
      assert a + b == b;
    } else {
      assert (a + b)[0] == a[0];
      assert (a + b)[1..] == a[1..] + b;
      CollectLinesConcat(recipes, a[1..], b);
    }
  }

  lemma AllKnownConcat(recipes: seq<Recipe>, a: seq<string>, b: seq<string>)
    ensures AllKnown(recipes, a + b) <==> AllKnown(recipes, a) && AllKnown(recipes, b)
  {
    if AllKnown(recipes, a + b) {
      forall i | 0 <= i < |b| ensures IngredientsOf(recipes, b[i]).Some? {
        assert (a + b)[|a| + i] == b[i];
      }
      forall i | 0 <= i < |a| ensures IngredientsOf(recipes, a[i]).Some? {
        assert (a + b)[i] == a[i];
      }
    }
    if AllKnown(recipes, a) && AllKnown(recipes, b) {
      forall i | 0 <= i < |a + b| ensures IngredientsOf(recipes, (a + b)[i]).Some? {
        if i >= |a| {
          assert (a + b)[i] == b[i - |a|];
        }
      }
    }
  }

  /**
   * Selecting meals one after the other gives their lines one after the other,
   * and the selection fails exactly when one of its parts does.
   */
  lemma GroceryLinesConcat(recipes: seq<Recipe>, a: seq<string>, b: seq<string>)
    ensures GroceryLines(recipes, a + b) ==
      if GroceryLines(recipes, a).Some? && GroceryLines(recipes, b).Some?
      then Some(GroceryLines(recipes, a).value + GroceryLines(recipes, b).value)
      else None
  {
    AllKnownConcat(recipes, a, b);
    CollectLinesConcat(recipes, a, b);
  }

  /** One selected meal: the lines of its recipe, or `IndexError` when the vault has no recipe of that name. */
  lemma GroceryLinesOne(recipes: seq<Recipe>, name: string)
    ensures GroceryLines(recipes, [name]) ==
      match IngredientsOf(recipes, name)
      case None => None
      case Some(text) => Some(RecipeLines(text))
  {
    var sel := [name];
    assert AllKnown(recipes, sel) <==> IngredientsOf(recipes, name).Some? by {
      assert sel[0] == name;
    }
    assert CollectLines(recipes, sel) == LinesOf(recipes, name) by {
      assert sel[1..] == [];
      assert CollectLines(recipes, sel[1..]) == [];
    }
  }

  /** No grocery line is blank, so every one of them takes part in the aggregation. */
  lemma GroceryLinesNeverBlank(recipes: seq<Recipe>, selected: seq<string>)
    requires GroceryLines(recipes, selected).Some?
    ensures forall line :: line in GroceryLines(recipes, selected).value ==> !ParseIngredient(line).Blank?
  {
    var lines := GroceryLines(recipes, selected).value;
    forall line | line in lines ensures !ParseIngredient(line).Blank? {
      var k :| 0 <= k < |lines| && lines[k] == line;
      assert !IsSpace(line[0]);
    }
  }

  // ---------------------------------------------------------------- habit heatmap

  /** `habit_cols`. */
  const HeatmapHabits: seq<string> := ["Gym", "Cardio", "Diet_Adherence", "Dog_Walks", "Dog_Grooming", "Supp_Omega3"]

  /** `{'Date': d, 'Habit': habit, 'Done': val}`, with the date kept as its day number. */
  datatype HeatCell = HeatCell(date: int, habit: string, done: int)

  /** Every heatmap column is there, and the walk count can be compared with zero. */
  predicate HeatmapReady(row: Streaks.LogRow) {
    && (forall j :: 0 <= j < |HeatmapHabits| ==> HeatmapHabits[j] in row.cells)
    && ("Dog_Walks" in row.cells ==> !row.cells["Dog_Walks"].Str?)
  }

  /** `val = 1 if row[habit] else 0`, then `val = 1` for a positive walk count. */
  function DoneValue(habit: string, c: Cell): (v: int)
    requires habit == "Dog_Walks" ==> !c.Str?
    ensures v == 0 || v == 1
    ensures habit == "Dog_Walks" && Positive(c) ==> v == 1
  {
    var val := if Truthy(c) then 1 else 0;
    if habit == "Dog_Walks" && Positive(c) then 1 else val
  }

  /** The walk normalisation never changes the value: it is 1 exactly for a true cell. */
  lemma DoneIsTruth(habit: string, c: Cell)
    requires habit == "Dog_Walks" ==> !c.Str?
    ensures DoneValue(habit, c) == 1 <==> Truthy(c)
  {
  }

  function RowCells(row: Streaks.LogRow): (r: seq<HeatCell>)
    requires HeatmapReady(row)
    ensures |r| == |HeatmapHabits|
    ensures forall j :: 0 <= j < |r| ==> r[j].date == row.date && r[j].habit == HeatmapHabits[j]
    ensures forall j :: 0 <= j < |r| ==> (r[j].done == 1 <==> Truthy(row.cells[HeatmapHabits[j]]))
  {
    seq(|HeatmapHabits|, j requires 0 <= j < |HeatmapHabits| =>
      DoneIsTruth(HeatmapHabits[j], row.cells[HeatmapHabits[j]]);
      HeatCell(row.date, HeatmapHabits[j], DoneValue(HeatmapHabits[j], row.cells[HeatmapHabits[j]])))
  }

  /** `heatmap_data`: six cells per record, in record order. */
  function HeatmapCells(rows: seq<Streaks.LogRow>): (r: seq<HeatCell>)
    requires forall i :: 0 <= i < |rows| ==> HeatmapReady(rows[i])
    ensures |r| == |HeatmapHabits| * |rows|
    ensures forall k :: 0 <= k < |r| ==> r[k].done == 0 || r[k].done == 1
  {
    if |rows| == 0 then []
    else
      var first := RowCells(rows[0]);
      var rest := HeatmapCells(rows[1..]);
      assert forall k :: 0 <= k < |first| ==> first[k].done == 0 || first[k].done == 1 by {
        forall k | 0 <= k < |first| ensures first[k].done == 0 || first[k].done == 1 {
          DoneIsTruth(HeatmapHabits[k], rows[0].cells[HeatmapHabits[k]]);
        }
      }
      first + rest
  }

  /** The cell for record `i` and habit `j` sits at `6 * i + j`. */
  lemma {:induction false} HeatmapCellAt(rows: seq<Streaks.LogRow>, i: nat, j: nat)
    requires forall i :: 0 <= i < |rows| ==> HeatmapReady(rows[i])
    requires i < |rows| && j < |HeatmapHabits|
    ensures |HeatmapHabits| * i + j < |HeatmapCells(rows)|
    ensures HeatmapCells(rows)[|HeatmapHabits| * i + j] == RowCells(rows[i])[j]
    decreases i
  {
    if i > 0 {
      HeatmapCellAt(rows[1..], i - 1, j);
      assert HeatmapCells(rows)[|HeatmapHabits| * i + j] == HeatmapCells(rows[1..])[|HeatmapHabits| * (i - 1) + j];
    }
  }

  /** A record with a positive walk count shows `Dog_Walks` as done. */
  lemma WalkedDogShowsDone(row: Streaks.LogRow)
    requires HeatmapReady(row)
    requires "Dog_Walks" in row.cells && !row.cells["Dog_Walks"].Str? && Positive(row.cells["Dog_Walks"])
    ensures RowCells(row)[3] == HeatCell(row.date, "Dog_Walks", 1)
  {
    assert HeatmapHabits[3] == "Dog_Walks";
  }
}
