/**
 * `aggregate_ingredients` of data_manager.py: parse every line, add up the
 * quantities per `(item, unit)` key in a dict, render one line per key and
 * sort the lines.
 *
 * The dict is a table of entries in insertion order. Each table is checked
 * against `Total`, the plain sum of the quantities with a key, and that check
 * yields the main property: the result depends only on the multiset of the
 * input lines.
 */
module Aggregation {
  import opened Wrappers
  import opened Text
  import opened Ingredients
  import opened LexOrder
  import opened Seqs

  /** The dict key `(parsed['item'], parsed['unit'])`. */
  datatype Key = Key(item: string, unit: string)

  datatype Entry = Entry(key: Key, qty: real)

  /** The contents of the dict, in insertion order. */
  type Table = seq<Entry>

  function KeyOf(i: Ingredient): Key { Key(i.item, i.unit) }

  /** No key is stored twice. */
  predicate Distinct(t: Table) {
    forall i, j :: 0 <= i < j < |t| ==> t[i].key != t[j].key
  }

  // ---------------------------------------------------------------- the dict

  /** Where key `k` is stored, if anywhere. */
  function Find(t: Table, k: Key): (r: Option<nat>)
    ensures r.None? <==> forall i :: 0 <= i < |t| ==> t[i].key != k
    ensures r.Some? ==> r.value < |t| && t[r.value].key == k
    ensures Distinct(t) ==> forall i :: 0 <= i < |t| && t[i].key == k ==> r == Some(i)
  {
    if |t| == 0 then None
    else if t[0].key == k then Some(0)
    else
      assert forall i :: 1 <= i < |t| ==> t[i] == t[1..][i - 1];
      match Find(t[1..], k)
      case None => None
      case Some(i) => Some(i + 1)
  }

  /** `agg.get(key)`. */
  function Get(t: Table, k: Key): Option<real> {
    match Find(t, k)
    case None => None
    case Some(i) => Some(t[i].qty)
  }

  /** In a table without repeated keys, a lookup finds exactly the stored entry. */
  lemma GetDistinct(t: Table, k: Key)
    requires Distinct(t)
    ensures Get(t, k).None? <==> forall i :: 0 <= i < |t| ==> t[i].key != k
    ensures forall i :: 0 <= i < |t| && t[i].key == k ==> Get(t, k) == Some(t[i].qty)
  {
  }

  /** `agg[key] = agg.get(key, 0) + qty`: a new key goes to the end, an old one keeps its place. */
  function Add(t: Table, k: Key, q: real): (r: Table)
    requires Distinct(t)
    ensures Distinct(r)
    ensures Get(r, k) == Some(match Get(t, k) case None => q case Some(v) => v + q)
    ensures forall k' :: k' != k ==> Get(r, k') == Get(t, k')
    ensures |r| == if Get(t, k).None? then |t| + 1 else |t|
    ensures forall i :: 0 <= i < |t| ==> r[i].key == t[i].key
    ensures Get(t, k).None? ==> r[|t|] == Entry(k, q)
  {
    match Find(t, k)
    case None =>
      var r := t + [Entry(k, q)];
      assert forall i :: 0 <= i < |t| ==> r[i] == t[i];
      AddedKey(t, r, k);
      r
    case Some(i) =>
      var r := t[i := Entry(k, t[i].qty + q)];
      AddedKey(t, r, k);
      r
  }

  /** A table whose keys are those of `t`, perhaps with `k` appended, answers like `t` for every other key. */
  lemma AddedKey(t: Table, r: Table, k: Key)
    requires Distinct(t)
    requires |t| <= |r| <= |t| + 1
    requires forall i :: 0 <= i < |t| ==> r[i].key == t[i].key
    requires forall i :: 0 <= i < |t| && t[i].key != k ==> r[i] == t[i]
    requires |r| == |t| + 1 ==> r[|t|].key == k && Find(t, k).None?
    ensures Distinct(r)
    ensures forall k' :: k' != k ==> Get(r, k') == Get(t, k')
  {
    forall k' | k' != k ensures Get(r, k') == Get(t, k') {
      GetDistinct(t, k');
      GetDistinct(r, k');
    }
  }

  // ---------------------------------------------------------------- the reference

  /** Some line of the input has key `k`. */
  ghost predicate HasKey(ings: seq<Ingredient>, k: Key) {
    exists i :: 0 <= i < |ings| && KeyOf(ings[i]) == k
  }

  /** The quantity an ingredient contributes to key `k`. */
  function WeightOf(k: Key): Ingredient -> real {
    (i: Ingredient) => if KeyOf(i) == k then i.qty else 0.0
  }

  /** The sum of the quantities of the ingredients with key `k`. */
  function Total(ings: seq<Ingredient>, k: Key): real {
    Sum(ings, WeightOf(k))
  }

  /** Appending one ingredient: what changes for key `k`. */
  lemma TallyStep(ings: seq<Ingredient>, k: Key)
    requires |ings| > 0
    ensures var n := |ings| - 1;
      && (HasKey(ings, k) <==> HasKey(ings[..n], k) || KeyOf(ings[n]) == k)
      && Total(ings, k) == Total(ings[..n], k) + (if KeyOf(ings[n]) == k then ings[n].qty else 0.0)
  {
    var n := |ings| - 1;
    if HasKey(ings[..n], k) {
      var i :| 0 <= i < n && KeyOf(ings[..n][i]) == k;
      assert KeyOf(ings[i]) == k;
    }
    if i :| 0 <= i < n && KeyOf(ings[i]) == k {
      assert KeyOf(ings[..n][i]) == k;
    }
  }

  /** A key that does not occur adds up to nothing. */
  lemma {:induction false} TotalOfAbsentKey(ings: seq<Ingredient>, k: Key)
    requires !HasKey(ings, k)
    ensures Total(ings, k) == 0.0
    decreases |ings|
  {
    if |ings| > 0 {
      var n := |ings| - 1;
      TallyStep(ings, k);
      TotalOfAbsentKey(ings[..n], k);
    }
  }

  /** One round of the loop keeps the dict in step with the totals. */
  lemma TallyAdd(ings: seq<Ingredient>, prev: Table)
    requires |ings| > 0 && Distinct(prev)
    requires forall k :: Get(prev, k) == if HasKey(ings[..|ings| - 1], k) then Some(Total(ings[..|ings| - 1], k)) else None
    ensures var n := |ings| - 1;
      forall k :: Get(Add(prev, KeyOf(ings[n]), ings[n].qty), k) == if HasKey(ings, k) then Some(Total(ings, k)) else None
  {
    var n := |ings| - 1;
    var t := Add(prev, KeyOf(ings[n]), ings[n].qty);
    forall k ensures Get(t, k) == if HasKey(ings, k) then Some(Total(ings, k)) else None {
      TallyStep(ings, k);
      if !HasKey(ings[..n], k) {
        TotalOfAbsentKey(ings[..n], k);
      }
    }
  }

  /** The first loop of `aggregate_ingredients`, once the lines are parsed. */
  function Tally(ings: seq<Ingredient>): (t: Table)
    ensures Distinct(t)
    ensures forall k :: Get(t, k) == if HasKey(ings, k) then Some(Total(ings, k)) else None
  {
    if |ings| == 0 then []
    else
      var n := |ings| - 1;
      var prev := Tally(ings[..n]);
      var t := Add(prev, KeyOf(ings[n]), ings[n].qty);
      TallyAdd(ings, prev);
      t
  }

  // ---------------------------------------------------------------- the pipeline

  /** `parse_ingredient` as a filter: blank lines give nothing. */
  function ParsedOf(line: string): Option<Ingredient> {
    match ParseIngredient(line)
    case Parsed(i) => Some(i)
    case _ => None
  }

  /** The line raises `ZeroDivisionError`. */
  predicate LineRaises(line: string) {
    ParseIngredient(line).DivisionByZero?
  }

  /** Some line raises `ZeroDivisionError`. */
  ghost predicate Raises(lines: seq<string>) {
    Any(lines, LineRaises)
  }

  /** Whether some line raises, split at the first line. */
  lemma RaisesCons(lines: seq<string>)
    requires |lines| > 0
    ensures Raises(lines) <==> ParseIngredient(lines[0]).DivisionByZero? || Raises(lines[1..])
  {
    AnyCons(lines, LineRaises);
  }

  /** Parse every line in order; the first `n/0` aborts the whole call. */
  function ParseAll(lines: seq<string>): (r: Result<seq<Ingredient>, string>)
    ensures r.Err? <==> Raises(lines)
    ensures r.Err? ==> r.error == "float division by zero"
    ensures r.Ok? ==> r.value == FilterMap(lines, ParsedOf)
  {
    if |lines| == 0 then Ok([])
    else
      RaisesCons(lines);
      match ParseIngredient(lines[0])
      case DivisionByZero => Err("float division by zero")
      case _ =>
        match ParseAll(lines[1..])
        case Err(e) => Err(e)
        case Ok(rest) => Ok(match ParsedOf(lines[0]) case Some(i) => [i] + rest case None => rest)
  }

  /** One output line: `f"{qty:g} {item}"` for pieces, `f"{qty:g}{unit} {item}"` otherwise. */
  function Render(e: Entry, fmt: real -> string): string {
    if e.key.unit == "pcs" then fmt(e.qty) + " " + e.key.item
    else fmt(e.qty) + e.key.unit + " " + e.key.item
  }

  function Renderer(fmt: real -> string): Entry -> string {
    (e: Entry) => Render(e, fmt)
  }

  /** `aggregate_ingredients`, with `fmt` standing for the `{qty:g}` rendering. */
  function Aggregate(lines: seq<string>, fmt: real -> string): (r: Result<seq<string>, string>)
    ensures r.Err? <==> Raises(lines)
    ensures r.Err? ==> r.error == "float division by zero"
    ensures r.Ok? ==> Sorted(r.value)
  {
    match ParseAll(lines)
    case Err(e) => Err(e)
    case Ok(ings) => Ok(Sort(Map(Tally(ings), Renderer(fmt))))
  }

  // ---------------------------------------------------------------- properties

  /** The table without its entry at `j`. */
  function Without(t: Table, j: nat): (r: Table)
    requires j < |t|
    ensures |r| == |t| - 1
    ensures multiset(t) == multiset(r) + multiset{t[j]}
  {
    assert t == t[..j] + [t[j]] + t[j + 1..];
    t[..j] + t[j + 1..]
  }

  /** Removing one entry from a table without repeated keys removes just that key. */
  lemma GetAfterRemove(t: Table, j: nat)
    requires Distinct(t) && j < |t|
    ensures Distinct(Without(t, j))
    ensures forall k :: Get(Without(t, j), k) == if k == t[j].key then None else Get(t, k)
  {
    var s := Without(t, j);
    assert forall i :: 0 <= i < |s| ==> s[i] == if i < j then t[i] else t[i + 1];
    forall k ensures Get(s, k) == if k == t[j].key then None else Get(t, k) {
      GetDistinct(t, k);
      GetDistinct(s, k);
      if k != t[j].key && Get(t, k).Some? {
        var i := Find(t, k).value;
        assert s[if i < j then i else i - 1] == t[i];
      }
    }
  }

  /** Removing the same entry from two tables that answer alike leaves tables that answer alike. */
  lemma SameLookupsAfterRemove(t: Table, u: Table, i: nat, j: nat)
    requires Distinct(t) && Distinct(u)
    requires forall k :: Get(t, k) == Get(u, k)
    requires i < |t| && j < |u| && t[i].key == u[j].key
    ensures Distinct(Without(t, i)) && Distinct(Without(u, j))
    ensures forall k :: Get(Without(t, i), k) == Get(Without(u, j), k)
  {
    GetAfterRemove(t, i);
    GetAfterRemove(u, j);
    forall k ensures Get(Without(t, i), k) == Get(Without(u, j), k) {
      assert Get(t, k) == Get(u, k);
    }
  }

  /** Two tables without repeated keys that answer every lookup alike hold the same entries. */
  lemma {:induction false} SameLookupsSameEntries(t: Table, u: Table)
    requires Distinct(t) && Distinct(u)
    requires forall k :: Get(t, k) == Get(u, k)
    ensures multiset(t) == multiset(u)
    decreases |t|
  {
    if |t| == 0 {
      if |u| > 0 {
        GetDistinct(u, u[0].key);
        GetDistinct(t, u[0].key);
      }
    } else {
      var e := t[0];
      GetDistinct(t, e.key);
      GetDistinct(u, e.key);
      var j := Find(u, e.key).value;
      assert u[j] == e;
      SameLookupsAfterRemove(t, u, 0, j);
      SameLookupsSameEntries(Without(t, 0), Without(u, j));
    }
  }

  /** Reordering the parsed lines does not change whether a key occurs or its total. */
  lemma TotalPermutation(a: seq<Ingredient>, b: seq<Ingredient>, k: Key)
    requires multiset(a) == multiset(b)
    ensures HasKey(a, k) <==> HasKey(b, k)
    ensures Total(a, k) == Total(b, k)
  {
    SumPermutation(a, b, WeightOf(k));
    if HasKey(a, k) {
      var i :| 0 <= i < |a| && KeyOf(a[i]) == k;
      assert a[i] in multiset(b);
    }
    if HasKey(b, k) {
      var i :| 0 <= i < |b| && KeyOf(b[i]) == k;
      assert b[i] in multiset(a);
    }
  }

  /** The dict built from a reordering of the parsed lines has the same entries. */
  lemma TallyPermutation(a: seq<Ingredient>, b: seq<Ingredient>)
    requires multiset(a) == multiset(b)
    ensures multiset(Tally(a)) == multiset(Tally(b))
  {
    forall k ensures Get(Tally(a), k) == Get(Tally(b), k) {
      TotalPermutation(a, b, k);
    }
    SameLookupsSameEntries(Tally(a), Tally(b));
  }

  /** The same lines in another order raise the same way. */
  lemma RaisesPermutation(a: seq<string>, b: seq<string>)
    requires multiset(a) == multiset(b)
    ensures Raises(a) <==> Raises(b)
  {
    AnyPermutation(a, b, LineRaises);
  }

  /** What `Aggregate` returns when no line raises. */
  lemma AggregateOk(lines: seq<string>, fmt: real -> string)
    requires !Raises(lines)
    ensures Aggregate(lines, fmt) == Ok(Sort(Map(Tally(FilterMap(lines, ParsedOf)), Renderer(fmt))))
  {
  }

  /** `sorted` makes the shopping list independent of the order of the input lines. */
  lemma AggregatePermutation(a: seq<string>, b: seq<string>, fmt: real -> string)
    requires multiset(a) == multiset(b)
    ensures Aggregate(a, fmt) == Aggregate(b, fmt)
  {
    RaisesPermutation(a, b);
    if !Raises(a) {
      var ia, ib := FilterMap(a, ParsedOf), FilterMap(b, ParsedOf);
      FilterMapPermutation(a, b, ParsedOf);
      TallyPermutation(ia, ib);
      MapPermutation(Tally(ia), Tally(ib), Renderer(fmt));
      SortPermutation(Map(Tally(ia), Renderer(fmt)), Map(Tally(ib), Renderer(fmt)));
      AggregateOk(a, fmt);
      AggregateOk(b, fmt);
    }
  }

  /** The keys of a table without repeated keys are as many as its entries. */
  lemma {:induction false} DistinctKeyCount(t: Table)
    requires Distinct(t)
    ensures |set i | 0 <= i < |t| :: t[i].key| == |t|
    decreases |t|
  {
    if |t| > 0 {
      var n := |t| - 1;
      DistinctKeyCount(t[..n]);
      var before := set i | 0 <= i < n :: t[..n][i].key;
      assert (set i | 0 <= i < |t| :: t[i].key) == before + {t[n].key};
      assert t[n].key !in before;
    }
  }

  /** The keys stored by `Tally` are the keys of its input. */
  lemma TallyKeys(ings: seq<Ingredient>)
    ensures (set i | 0 <= i < |Tally(ings)| :: Tally(ings)[i].key) == (set i | 0 <= i < |ings| :: KeyOf(ings[i]))
    ensures |Tally(ings)| == |set i | 0 <= i < |ings| :: KeyOf(ings[i])|
  {
    var t := Tally(ings);
    var stored := set i | 0 <= i < |t| :: t[i].key;
    var keys := set i | 0 <= i < |ings| :: KeyOf(ings[i]);
    forall k ensures k in stored <==> k in keys {
      GetDistinct(t, k);
      assert k in keys <==> HasKey(ings, k);
    }
    DistinctKeyCount(t);
  }

  /** An entry of the tally renders to a line of the result, and every line comes from one. */
  lemma TallyLines(ings: seq<Ingredient>, fmt: real -> string)
    ensures forall s :: s in Map(Tally(ings), Renderer(fmt)) <==>
      exists k :: HasKey(ings, k) && s == Render(Entry(k, Total(ings, k)), fmt)
  {
    var t := Tally(ings);
    var rendered := Map(t, Renderer(fmt));
    forall s ensures s in rendered <==> exists k :: HasKey(ings, k) && s == Render(Entry(k, Total(ings, k)), fmt) {
      if s in rendered {
        var i :| 0 <= i < |rendered| && rendered[i] == s;
        GetDistinct(t, t[i].key);
      }
      if k :| HasKey(ings, k) && s == Render(Entry(k, Total(ings, k)), fmt) {
        GetDistinct(t, k);
        var i := Find(t, k).value;
        assert rendered[i] == s;
      }
    }
  }

  /**
   * One output line per distinct key, carrying that key's total: a string is
   * in the result exactly when it renders some key of the parsed lines with
   * its sum, and there are as many strings as keys.
   */
  lemma AggregateContents(lines: seq<string>, fmt: real -> string, r: seq<string>)
    requires Aggregate(lines, fmt) == Ok(r)
    ensures var ings := FilterMap(lines, ParsedOf);
      && (forall s :: s in r <==> exists k :: HasKey(ings, k) && s == Render(Entry(k, Total(ings, k)), fmt))
      && |r| == |set i | 0 <= i < |ings| :: KeyOf(ings[i])|
  {
    var ings := FilterMap(lines, ParsedOf);
    var rendered := Map(Tally(ings), Renderer(fmt));
    AggregateOk(lines, fmt);
    assert r == Sort(rendered);
    TallyLines(ings, fmt);
    forall s ensures s in r <==> exists k :: HasKey(ings, k) && s == Render(Entry(k, Total(ings, k)), fmt) {
      assert s in r <==> s in multiset(r);
      assert s in rendered <==> s in multiset(rendered);
    }
    TallyKeys(ings);
    assert |r| == |multiset(r)| == |multiset(rendered)| == |rendered|;
  }

  /** Blank lines parse to nothing and raise nothing. */
  lemma {:induction false} BlanksVanish(blanks: seq<string>)
    requires forall i :: 0 <= i < |blanks| ==> All(blanks[i], IsSpace)
    ensures FilterMap(blanks, ParsedOf) == []
    ensures !Raises(blanks)
    decreases |blanks|
  {
    forall i | 0 <= i < |blanks| ensures ParseIngredient(blanks[i]).Blank? {
    }
    if |blanks| > 0 {
      assert forall i :: 0 <= i < |blanks[1..]| ==> blanks[1..][i] == blanks[i + 1];
      BlanksVanish(blanks[1..]);
    }
  }

  /** Whether some line raises, for two lists glued together. */
  lemma RaisesConcat(a: seq<string>, b: seq<string>)
    ensures Raises(a + b) <==> Raises(a) || Raises(b)
  {
    AnyConcat(a, b, LineRaises);
  }

  /** Blank lines change nothing. */
  lemma BlankLinesIgnored(lines: seq<string>, blanks: seq<string>, fmt: real -> string)
    requires forall i :: 0 <= i < |blanks| ==> All(blanks[i], IsSpace)
    ensures Aggregate(lines + blanks, fmt) == Aggregate(lines, fmt)
  {
    BlanksVanish(blanks);
    RaisesConcat(lines, blanks);
    FilterMapConcat(lines, blanks, ParsedOf);
    assert FilterMap(lines + blanks, ParsedOf) == FilterMap(lines, ParsedOf);
    if !Raises(lines) {
      AggregateOk(lines, fmt);
      AggregateOk(lines + blanks, fmt);
    }
  }

  /**
   * A rendered line is read back as the same key and quantity, when the total
   * is a whole number that `fmt` prints as its numeral.
   */
  lemma RenderParsesBack(e: Entry, n: nat, fmt: real -> string)
    requires e.qty == n as real && fmt(e.qty) == NatText(n)
    requires IsCleanItem(e.key.item)
    requires if e.key.unit == "pcs" then !StartsWithWord(e.key.item)
             else IsUnitWord(e.key.unit) && NormalizeUnit(e.key.unit) == e.key.unit
    ensures ParseIngredient(Render(e, fmt)) == Parsed(Ingredient(e.qty, e.key.unit, e.key.item))
  {
    if e.key.unit == "pcs" {
      ParseWithoutUnit(n, e.key.item);
    } else {
      ParseWithUnit(n, e.key.unit, e.key.item);
    }
  }
}
