/**
 * The daily audit log of data_manager.py: its records, the defaults the
 * loader puts into columns a file lacks, and the save that replaces the
 * record of a day (the in-memory part of `save_audit_data`).
 */
module AuditLog {
  import opened Wrappers
  import opened Text
  import opened Seqs

  /** A cell of the log as pandas reads it: a boolean, a number, or text (the `Date` column). */
  datatype Cell = Flag(b: bool) | Num(x: real) | Str(s: string)

  /** One line of the CSV file: column name to cell. */
  type Record = map<string, Cell>

  /** A loaded file: its header, in order, and its records. */
  datatype Frame = Frame(header: seq<string>, records: seq<Record>)

  /** `REQUIRED_COLUMNS`. */
  const RequiredColumns: seq<string> := [
    "Date", "CPA_Hours", "Tech_AI_Hours", "Gym", "Cardio", "Dog_Walks", "Dog_Grooming",
    "Diet_Adherence", "Supp_Omega3", "Supp_Magnesium", "Supp_VitD", "Supp_Creatine"
  ]

  /** Python truth value of a cell: `False`, `0` and `""` are false. */
  predicate Truthy(c: Cell) {
    match c
    case Flag(b) => b
    case Num(x) => x != 0.0
    case Str(s) => |s| > 0
  }

  /** `cell > 0` on a boolean or a number (`True > 0` holds in Python). */
  predicate Positive(c: Cell)
    requires !c.Str?
  {
    match c
    case Flag(b) => b
    case Num(x) => x > 0.0
  }

  // ---------------------------------------------------------------- loading

  /** The value a missing column is filled with: `0` for hour and walk counts, `False` otherwise. */
  function DefaultValue(col: string): (v: Cell)
    ensures v == Num(0.0) || v == Flag(false)
    ensures v == Num(0.0) <==> Occurs(col, "Hours") || Occurs(col, "Walks")
  {
    if Contains(col, "Hours") || Contains(col, "Walks") then Num(0.0) else Flag(false)
  }

  /** `[col for col in REQUIRED_COLUMNS if col not in df.columns]`. */
  function MissingColumns(header: seq<string>): (r: seq<string>)
    ensures forall c :: c in r <==> c in RequiredColumns && c !in header
  {
    var keep := (c: string) => if c in header then None else Some(c);
    FilterMapMembers(RequiredColumns, keep);
    FilterMap(RequiredColumns, keep)
  }

  /** A record after `df[col] = default` for every missing column. */
  function Fill(rec: Record, missing: seq<string>): (r: Record)
    ensures r.Keys == rec.Keys + set c | c in missing
    ensures forall c :: c in missing ==> r[c] == DefaultValue(c)
    ensures forall c :: c in rec && c !in missing ==> r[c] == rec[c]
  {
    rec + map c | c in missing :: DefaultValue(c)
  }

  /** What `load_audit_data` returns, and whether it wrote the repaired file back. */
  datatype Loaded = Loaded(frame: Frame, rewritten: bool)

  /** `load_audit_data`, with the file's contents (or its absence) passed in. */
  function LoadAuditData(file: Option<Frame>): (r: Loaded)
    ensures forall c :: c in RequiredColumns ==> c in r.frame.header
    ensures file.None? ==> r == Loaded(Frame(RequiredColumns, []), false)
  {
    match file
    case None => Loaded(Frame(RequiredColumns, []), false)
    case Some(f) => Repair(f)
  }

  /** An existing file, with every missing required column appended and filled with its default. */
  function Repair(f: Frame): (r: Loaded)
    ensures forall c :: c in RequiredColumns ==> c in r.frame.header
    ensures |r.frame.records| == |f.records|
    ensures |f.header| <= |r.frame.header| && r.frame.header[..|f.header|] == f.header
  {
    var missing := MissingColumns(f.header);
    RepairedHeader(f.header);
    if |missing| == 0 then Loaded(f, false)
    else Loaded(Frame(f.header + missing, Map(f.records, (rec: Record) => Fill(rec, missing))), true)
  }

  /** Appending the missing columns completes the header and keeps the old one in front. */
  lemma RepairedHeader(header: seq<string>)
    ensures var missing := MissingColumns(header);
      && (forall c :: c in RequiredColumns ==> c in header + missing)
      && (header + missing)[..|header|] == header
      && (|missing| == 0 <==> forall c :: c in RequiredColumns ==> c in header)
  {
    var missing := MissingColumns(header);
    if |missing| > 0 {
      assert missing[0] in missing;
    }
  }

  /** The repaired file is written back exactly when some required column was missing. */
  lemma RepairRewritesWhenIncomplete(f: Frame)
    ensures Repair(f).rewritten <==> exists c :: c in RequiredColumns && c !in f.header
    ensures !Repair(f).rewritten ==> Repair(f).frame == f
  {
    RepairedHeader(f.header);
  }

  /** Every record of a repaired file keeps its own cells and gets the defaults in the columns the file lacked. */
  lemma LoadedRecords(f: Frame, i: nat)
    requires i < |f.records|
    ensures var rec := Repair(f).frame.records[i];
      && (forall c :: c in f.records[i] && c in f.header ==> c in rec && rec[c] == f.records[i][c])
      && (forall c :: c in RequiredColumns && c !in f.header ==> c in rec && rec[c] == DefaultValue(c))
  {
  }

  /** A column whose name holds `Hours` or `Walks` defaults to zero. */
  lemma CountDefault(prefix: string, pat: string)
    requires pat == "Hours" || pat == "Walks"
    ensures DefaultValue(prefix + pat) == Num(0.0)
  {
    assert OccursAt(prefix + pat, pat, |prefix|);
  }

  /** A column whose name has neither an `H` nor a `W` cannot hold `Hours` or `Walks`, so it defaults to `False`. */
  lemma FlagDefault(col: string)
    requires 'H' !in col && 'W' !in col
    ensures DefaultValue(col) == Flag(false)
  {
    forall k: nat ensures !OccursAt(col, "Hours", k) && !OccursAt(col, "Walks", k) {
      if k + 5 <= |col| {
        assert col[k..k + 5][0] == col[k];
        assert col[k] in col;
      }
    }
  }

  /** The hour and walk counts among the required columns default to zero. */
  lemma CountColumnsDefaultToZero(col: string)
    requires col == "CPA_Hours" || col == "Tech_AI_Hours" || col == "Dog_Walks"
    ensures DefaultValue(col) == Num(0.0)
  {
    if col == "CPA_Hours" {
      assert col == "CPA_" + "Hours";
      CountDefault("CPA_", "Hours");
    } else if col == "Tech_AI_Hours" {
      assert col == "Tech_AI_" + "Hours";
      CountDefault("Tech_AI_", "Hours");
    } else {
      assert col == "Dog_" + "Walks";
      CountDefault("Dog_", "Walks");
    }
  }

  /** The habit flags among the required columns default to `False`. */
  lemma HabitColumnsDefaultToFalse(col: string)
    requires col in ["Gym", "Cardio", "Dog_Grooming", "Diet_Adherence", "Supp_Omega3", "Supp_Magnesium", "Supp_VitD", "Supp_Creatine"]
    ensures DefaultValue(col) == Flag(false)
  {
    FlagDefault(col);
  }

  // ---------------------------------------------------------------- saving

  /** The two records are for the same day: `df['Date'] == entry['Date']`. */
  predicate SameDate(rec: Record, entry: Record) {
    "Date" in rec && "Date" in entry && rec["Date"] == entry["Date"]
  }

  function OtherDays(entry: Record): Record -> Option<Record> {
    (rec: Record) => if SameDate(rec, entry) then None else Some(rec)
  }

  /** `df[df['Date'] != entry['Date']]` followed by appending the entry. */
  function Upsert(records: seq<Record>, entry: Record): (r: seq<Record>)
    ensures |r| > 0 && r[|r| - 1] == entry
    ensures forall i :: 0 <= i < |r| - 1 ==> !SameDate(r[i], entry)
    ensures forall x :: x in r[..|r| - 1] <==> x in records && !SameDate(x, entry)
  {
    var kept := FilterMap(records, OtherDays(entry));
    FilterMapMembers(records, OtherDays(entry));
    assert (kept + [entry])[..|kept|] == kept;
    forall i | 0 <= i < |kept| ensures !SameDate(kept[i], entry) {
      assert kept[i] in kept;
    }
    kept + [entry]
  }

  /** The records of other days keep their order: those of a first block still come before those of a second. */
  lemma UpsertKeepsOrder(a: seq<Record>, b: seq<Record>, entry: Record)
    ensures Upsert(a + b, entry) == Upsert(a, entry)[..|Upsert(a, entry)| - 1] + Upsert(b, entry)
  {
    FilterMapConcat(a, b, OtherDays(entry));
  }

  /** Saving a day that is not in the log yet just appends it. */
  lemma UpsertNewDay(records: seq<Record>, entry: Record)
    requires forall i :: 0 <= i < |records| ==> !SameDate(records[i], entry)
    ensures Upsert(records, entry) == records + [entry]
  {
    FilterMapKeepsAll(records, entry);
  }

  lemma {:induction false} FilterMapKeepsAll(records: seq<Record>, entry: Record)
    requires forall i :: 0 <= i < |records| ==> !SameDate(records[i], entry)
    ensures FilterMap(records, OtherDays(entry)) == records
    decreases |records|
  {
    if |records| > 0 {
      FilterMapKeepsAll(records[1..], entry);
      assert records == [records[0]] + records[1..];
    }
  }

  /** Saving the same entry twice is saving it once. */
  lemma UpsertIdempotent(records: seq<Record>, entry: Record)
    requires "Date" in entry
    ensures Upsert(Upsert(records, entry), entry) == Upsert(records, entry)
  {
    var r := Upsert(records, entry);
    var kept := r[..|r| - 1];
    assert r == kept + [entry];
    UpsertSaved(kept, entry);
  }

  /** A log that ends with the entry and holds no other record of its day is left as it is. */
  lemma UpsertSaved(kept: seq<Record>, entry: Record)
    requires "Date" in entry
    requires forall i :: 0 <= i < |kept| ==> !SameDate(kept[i], entry)
    ensures Upsert(kept + [entry], entry) == kept + [entry]
  {
    FilterMapKeepsAll(kept, entry);
    FilterMapConcat(kept, [entry], OtherDays(entry));
    assert FilterMap([entry], OtherDays(entry)) == [];
  }

  /** No two records share a `Date` cell. */
  predicate DistinctDates(records: seq<Record>) {
    forall i, j :: 0 <= i < j < |records| ==> !SameDate(records[i], records[j])
  }

  /** Saving keeps the log at one record per day. */
  lemma {:induction false} UpsertKeepsDatesDistinct(records: seq<Record>, entry: Record)
    requires DistinctDates(records)
    ensures DistinctDates(Upsert(records, entry))
    decreases |records|
  {
    var r := Upsert(records, entry);
    var kept := r[..|r| - 1];
    forall i, j | 0 <= i < j < |r| ensures !SameDate(r[i], r[j]) {
      if j < |r| - 1 {
        assert r[i] in kept && r[j] in kept;
        KeptOrder(records, entry, i, j);
      }
    }
  }

  /** Two kept records appear in the same relative order in the original log. */
  lemma {:induction false} KeptOrder(records: seq<Record>, entry: Record, i: nat, j: nat)
    requires i < j < |FilterMap(records, OtherDays(entry))|
    ensures exists i', j' :: (0 <= i' < j' < |records|
      && records[i'] == FilterMap(records, OtherDays(entry))[i]
      && records[j'] == FilterMap(records, OtherDays(entry))[j])
    decreases |records|
  {
    var kept := FilterMap(records, OtherDays(entry));
    var rest := FilterMap(records[1..], OtherDays(entry));
    if SameDate(records[0], entry) {
      KeptOrder(records[1..], entry, i, j);
      var i', j' :| 0 <= i' < j' < |records[1..]| && records[1..][i'] == rest[i] && records[1..][j'] == rest[j];
      assert records[i' + 1] == kept[i] && records[j' + 1] == kept[j];
    } else if i == 0 {
      FilterMapMembers(records[1..], OtherDays(entry));
      assert rest[j - 1] in rest;
      var j' :| 0 <= j' < |records[1..]| && OtherDays(entry)(records[1..][j']) == Some(rest[j - 1]);
      assert records[0] == kept[0] && records[j' + 1] == kept[j];
    } else {
      KeptOrder(records[1..], entry, i - 1, j - 1);
      var i', j' :| 0 <= i' < j' < |records[1..]| && records[1..][i'] == rest[i - 1] && records[1..][j'] == rest[j - 1];
      assert records[i' + 1] == kept[i] && records[j' + 1] == kept[j];
    }
  }
}
