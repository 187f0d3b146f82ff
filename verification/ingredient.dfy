/**
 * The heuristic ingredient-line parser of data_manager.py.
 *
 * A line is stripped and lower-cased, then matched (anchored at the start) against
 *     (\d+(\.\d+)?|\d+/\d+)\s*([a-zA-Z]+)?\s+(.*)
 * Group 1 is the quantity, group 3 the optional unit, group 4 the item.
 * `ParseGroups` finds the match Python's backtracking engine picks; `IsMatch`
 * is the language of the pattern, and the lemmas below show that `ParseGroups`
 * returns a match exactly when one exists, and the one with greediest groups.
 */
module Ingredients {
  import opened Wrappers
  import opened Text

  /** The parsed line: `{"qty": qty, "unit": unit, "item": item}`. */
  datatype Ingredient = Ingredient(qty: real, unit: string, item: string)

  /** `None` for a blank line, the parsed record, or the `ZeroDivisionError` a `n/0` fraction raises. */
  datatype ParseResult = Blank | Parsed(ingredient: Ingredient) | DivisionByZero

  /**
   * Capture positions of one match: group 1 is `line[..qtyEnd]`, group 3 is
   * `line[unitStart..unitEnd]` (absent when empty), group 4 is `line[itemStart..itemEnd]`.
   */
  datatype Groups = Groups(qtyEnd: nat, unitStart: nat, unitEnd: nat, itemStart: nat, itemEnd: nat)

  // ---------------------------------------------------------------- the pattern

  predicate IsDigits(t: string) { |t| > 0 && All(t, IsDigit) }

  /** `t` is matched in full by `\d+(\.\d+)?|\d+/\d+`. */
  ghost predicate IsQuantityToken(t: string) {
    || IsDigits(t)
    || exists k :: 0 < k < |t| && (t[k] == '.' || t[k] == '/') && IsDigits(t[..k]) && IsDigits(t[k + 1..])
  }

  /** `g` describes a way the whole pattern matches a prefix of `line`. */
  ghost predicate IsMatch(line: string, g: Groups) {
    && 0 < g.qtyEnd <= g.unitStart <= g.unitEnd < g.itemStart <= g.itemEnd <= |line|
    && IsQuantityToken(line[..g.qtyEnd])
    && AllIn(line, g.qtyEnd, g.unitStart, IsSpace)
    && AllIn(line, g.unitStart, g.unitEnd, IsLetter)
    && AllIn(line, g.unitEnd, g.itemStart, IsSpace)
    && AllIn(line, g.itemStart, g.itemEnd, NotNewline)
  }

  // ---------------------------------------------------------------- the matcher

  /**
   * Where group 1 ends. The decimal alternative is tried first; a fraction is
   * only reached when the digits are followed by `/` and another digit.
   * Any other split of the digits leaves a digit, `.` or `/` where the rest of
   * the pattern needs a space or a letter, so no other end can lead to a match.
   */
  function QuantityEnd(line: string): (r: Option<nat>)
    ensures r.None? <==> |line| == 0 || !IsDigit(line[0])
    ensures r.Some? ==> 0 < r.value <= |line| && IsQuantityToken(line[..r.value])
  {
    if |line| == 0 || !IsDigit(line[0]) then None
    else
      var d := Span(line, 0, IsDigit);
      if d + 1 < |line| && (line[d] == '.' || line[d] == '/') && IsDigit(line[d + 1]) then
        var e := Span(line, d + 1, IsDigit);
        assert line[..e][..d] == line[..d];
        assert line[..e][d + 1..] == line[d + 1..e];
        assert IsDigits(line[..e][..d]) && IsDigits(line[..e][d + 1..]);
        Some(e)
      else
        Some(d)
  }

  /** The rest of the pattern, `\s*([a-zA-Z]+)?\s+(.*)`, tried from position `p`. */
  function MatchFrom(line: string, p: nat): Option<Groups>
    requires p <= |line|
  {
    var q := Span(line, p, IsSpace);
    var u := Span(line, q, IsLetter);
    if q < u < |line| && IsSpace(line[u]) then
      // the unit is present: the letters are followed by whitespace
      var d := Span(line, u, IsSpace);
      Some(Groups(p, q, u, d, Span(line, d, NotNewline)))
    else if p < q then
      // backtrack: `\s*` gives up one space to `\s+` and the unit is absent
      Some(Groups(p, q - 1, q - 1, q, Span(line, q, NotNewline)))
    else
      None
  }

  /** `re.match` of the pattern on `line`. */
  function ParseGroups(line: string): (r: Option<Groups>)
    ensures r.Some? ==> IsMatch(line, r.value)
    ensures r.Some? ==> r.value.itemEnd == Span(line, r.value.itemStart, NotNewline)
  {
    match QuantityEnd(line)
    case None => None
    case Some(p) => MatchFrom(line, p)
  }

  // ---------------------------------------------------------------- numbers

  function DigitsValue(t: string): nat
    requires All(t, IsDigit)
  {
    if |t| == 0 then 0 else DigitsValue(t[..|t| - 1]) * 10 + (t[|t| - 1] as int - '0' as int)
  }

  function Pow10(n: nat): (r: nat)
    ensures r > 0
  {
    if n == 0 then 1 else 10 * Pow10(n - 1)
  }

  /** `whole.frac` where `frac` has `places` digits. */
  function DecimalValue(whole: nat, frac: nat, places: nat): (r: real)
    ensures r >= whole as real
  {
    whole as real + frac as real / Pow10(places) as real
  }

  /** `\d+/\d+` with a denominator whose value is zero. */
  ghost predicate IsZeroFraction(t: string) {
    exists k :: 0 < k < |t| && t[k] == '/' && IsDigits(t[..k]) && IsDigits(t[k + 1..]) && DigitsValue(t[k + 1..]) == 0
  }

  /** A quantity token is digits, then possibly one `.` or `/` and more digits. */
  lemma TokenShape(t: string)
    requires IsQuantityToken(t)
    ensures var d := Span(t, 0, IsDigit);
      && 0 < d
      && (d == |t| || ((t[d] == '.' || t[d] == '/') && d + 1 < |t| && All(t[d + 1..], IsDigit)))
  {
    if !IsDigits(t) {
      var k :| 0 < k < |t| && (t[k] == '.' || t[k] == '/') && IsDigits(t[..k]) && IsDigits(t[k + 1..]);
      assert AllIn(t, 0, k, IsDigit) by {
        forall j | 0 <= j < k ensures IsDigit(t[j]) {
          assert t[..k][j] == t[j];
        }
      }
      SpanOfMaximalRun(t, 0, k, IsDigit);
    } else {
      SpanOfMaximalRun(t, 0, |t|, IsDigit);
    }
  }

  /** The only `/` that can split a quantity token is the first non-digit. */
  lemma ZeroFractionShape(t: string)
    requires IsQuantityToken(t)
    ensures var d := Span(t, 0, IsDigit);
      IsZeroFraction(t) <==> d < |t| && t[d] == '/' && IsDigits(t[d + 1..]) && DigitsValue(t[d + 1..]) == 0
  {
    TokenShape(t);
    var d := Span(t, 0, IsDigit);
    forall k | 0 < k < |t| && t[k] == '/' && IsDigits(t[..k]) ensures k == d {
      assert forall j :: 0 <= j < k ==> IsDigit(t[..k][j]);
      SpanOfMaximalRun(t, 0, k, IsDigit);
    }
    if d < |t| && t[d] == '/' && IsDigits(t[d + 1..]) && DigitsValue(t[d + 1..]) == 0 {
      assert forall j :: 0 <= j < d ==> t[..d][j] == t[j];
      assert IsDigits(t[..d]);
    }
  }

  /** The value of a token whose digits run up to `d`, given the character there and the digits after it. */
  function ValueFromParts(t: string, d: nat): (r: Result<real, string>)
    requires 0 < d <= |t| && All(t[..d], IsDigit)
    requires d < |t| ==> d + 1 < |t| && All(t[d + 1..], IsDigit)
    ensures r.Ok? ==> r.value >= 0.0
    ensures r.Err? <==> d < |t| && t[d] == '/' && DigitsValue(t[d + 1..]) == 0
  {
    if d == |t| then Ok(DigitsValue(t[..d]) as real)
    else if t[d] == '/' then
      var den := DigitsValue(t[d + 1..]);
      if den == 0 then Err("float division by zero")
      else Ok(DigitsValue(t[..d]) as real / den as real)
    else
      Ok(DecimalValue(DigitsValue(t[..d]), DigitsValue(t[d + 1..]), |t| - d - 1))
  }

  /** `float(qty_str)`, or `float(n) / float(d)` when the token holds a `/`. */
  function TokenValue(t: string): (r: Result<real, string>)
    requires IsQuantityToken(t)
    ensures r.Ok? ==> r.value >= 0.0
    ensures r.Err? <==> IsZeroFraction(t)
  {
    TokenShape(t);
    ZeroFractionShape(t);
    var d := Span(t, 0, IsDigit);
    assert All(t[..d], IsDigit);
    ValueFromParts(t, d)
  }

  // ---------------------------------------------------------------- units

  /** The units the cleaning chain rewrites; all others pass through unchanged. */
  const UnitSynonyms: seq<string> := ["g", "gram", "grams", "kg", "kilogram", "ml", "l", "liter"]

  /** The unit-cleaning `if` chain; an absent unit becomes `pcs`. */
  function NormalizeUnit(u: string): (r: string)
    ensures |r| > 0
    ensures u in ["g", "gram", "grams"] ==> r == "g"
    ensures u in ["kg", "kilogram"] ==> r == "kg"
    ensures u == "ml" ==> r == "ml"
    ensures u in ["l", "liter"] ==> r == "l"
    ensures u == "" ==> r == "pcs"
    ensures u !in UnitSynonyms && u != "" ==> r == u
  {
    if u in ["g", "gram", "grams"] then "g"
    else if u in ["kg", "kilogram"] then "kg"
    else if u == "ml" then "ml"
    else if u in ["l", "liter"] then "l"
    else if u == "" then "pcs"
    else u
  }

  // ---------------------------------------------------------------- parse

  /** A unit as the parser reports it: `pcs`, or a non-empty run of lower-case letters. */
  predicate IsUnitWord(u: string) {
    |u| > 0 && forall k :: 0 <= k < |u| ==> IsLetter(u[k]) && !IsUpper(u[k])
  }

  /** The cleaned line the pattern is applied to. */
  function Clean(raw: string): (line: string)
    ensures Stripped(line)
    ensures forall k :: 0 <= k < |line| ==> !IsUpper(line[k])
    ensures |line| == 0 <==> All(raw, IsSpace)
  {
    var s := Strip(raw);
    var line := Lower(s);
    assert Stripped(line) by {
      if |s| > 0 {
        assert IsSpace(line[0]) <==> IsSpace(s[0]);
        assert IsSpace(line[|s| - 1]) <==> IsSpace(s[|s| - 1]);
      }
    }
    line
  }

  /** What `parse_ingredient` holds after `strip().lower()` and the blank check. */
  predicate IsCleanLine(line: string) {
    |line| > 0 && Stripped(line) && forall k :: 0 <= k < |line| ==> !IsUpper(line[k])
  }

  /** A cleaned line that is not blank is its own cleaning. */
  lemma CleanOfCleanLine(line: string)
    requires IsCleanLine(line)
    ensures Clean(line) == line
  {
    StripOfStripped(line);
    LowerOfLower(line);
  }

  /** `parse_ingredient` from the regular-expression match on. */
  function ParseLine(line: string): (r: ParseResult)
    requires IsCleanLine(line)
    ensures !r.Blank?
    ensures r.Parsed? ==>
      && r.ingredient.qty >= 0.0
      && (r.ingredient.unit == "pcs" || IsUnitWord(r.ingredient.unit))
      && |r.ingredient.item| > 0
      && !IsSpace(r.ingredient.item[0])
      && Occurs(line, r.ingredient.item)
      && forall k :: 0 <= k < |r.ingredient.item| ==> !IsUpper(r.ingredient.item[k])
    ensures r.DivisionByZero? <==> exists g :: IsMatch(line, g) && IsZeroFraction(line[..g.qtyEnd])
  {
    match ParseGroups(line)
    case None =>
      MatchFound(line);
      OccursInItself(line);
      Parsed(Ingredient(1.0, "pcs", line))
    case Some(g) =>
      match TokenValue(line[..g.qtyEnd])
      case Err(_) =>
        assert IsMatch(line, g) && IsZeroFraction(line[..g.qtyEnd]);
        DivisionByZero
      case Ok(q) =>
        SameQuantityInEveryMatch(line, g);
        MatchedGroups(line, g);
        Parsed(Ingredient(q, NormalizeUnit(line[g.unitStart..g.unitEnd]), line[g.itemStart..g.itemEnd]))
  }

  /** `parse_ingredient`. */
  function ParseIngredient(raw: string): (r: ParseResult)
    ensures r.Blank? <==> All(raw, IsSpace)
    ensures r.Parsed? ==>
      && r.ingredient.qty >= 0.0
      && (r.ingredient.unit == "pcs" || IsUnitWord(r.ingredient.unit))
      && |r.ingredient.item| > 0
      && !IsSpace(r.ingredient.item[0])
      && Occurs(Clean(raw), r.ingredient.item)
      && forall k :: 0 <= k < |r.ingredient.item| ==> !IsUpper(r.ingredient.item[k])
    ensures r.DivisionByZero? <==>
      exists g :: IsMatch(Clean(raw), g) && IsZeroFraction(Clean(raw)[..g.qtyEnd])
  {
    var line := Clean(raw);
    if |line| == 0 then Blank else ParseLine(line)
  }

  /** Whenever the pattern matches at all, the matcher finds a match. */
  lemma MatchFound(line: string)
    ensures (exists g :: IsMatch(line, g)) ==> ParseGroups(line).Some?
  {
    if g :| IsMatch(line, g) {
      MatchIsGreediest(line, g);
    }
  }

  /** Every match splits off the same quantity token as the match the matcher finds. */
  lemma SameQuantityInEveryMatch(line: string, g: Groups)
    requires ParseGroups(line) == Some(g)
    ensures forall h :: IsMatch(line, h) ==> h.qtyEnd == g.qtyEnd
  {
    QuantityEndOfMatch(line, g);
    forall h | IsMatch(line, h) ensures h.qtyEnd == g.qtyEnd {
      QuantityEndOfMatch(line, h);
    }
  }

  /** What the groups of a match on a cleaned line look like. */
  lemma MatchedGroups(line: string, g: Groups)
    requires IsCleanLine(line)
    requires ParseGroups(line) == Some(g)
    ensures var unit := NormalizeUnit(line[g.unitStart..g.unitEnd]);
      unit == "pcs" || IsUnitWord(unit)
    ensures var item := line[g.itemStart..g.itemEnd];
      && |item| > 0
      && !IsSpace(item[0])
      && Occurs(line, item)
      && forall k :: 0 <= k < |item| ==> !IsUpper(item[k])
  {
    ItemStartsInsideLine(line, g);
    UnitOfMatch(line, g);
    ItemOfMatch(line, g);
  }

  lemma UnitOfMatch(line: string, g: Groups)
    requires IsCleanLine(line) && IsMatch(line, g)
    ensures var unit := NormalizeUnit(line[g.unitStart..g.unitEnd]);
      unit == "pcs" || IsUnitWord(unit)
  {
    var unit := line[g.unitStart..g.unitEnd];
    forall k | 0 <= k < |unit| ensures IsLetter(unit[k]) && !IsUpper(unit[k]) {
      assert unit[k] == line[g.unitStart + k];
    }
    NormalizedUnitIsWord(unit);
  }

  lemma ItemOfMatch(line: string, g: Groups)
    requires IsCleanLine(line) && g.itemStart < g.itemEnd <= |line|
    requires !IsSpace(line[g.itemStart])
    ensures var item := line[g.itemStart..g.itemEnd];
      && |item| > 0
      && !IsSpace(item[0])
      && Occurs(line, item)
      && forall k :: 0 <= k < |item| ==> !IsUpper(item[k])
  {
    var item := line[g.itemStart..g.itemEnd];
    assert OccursAt(line, item, g.itemStart);
    assert item[0] == line[g.itemStart];
    forall k | 0 <= k < |item| ensures !IsUpper(item[k]) {
      assert item[k] == line[g.itemStart + k];
    }
  }

  lemma NormalizedUnitIsWord(u: string)
    requires forall k :: 0 <= k < |u| ==> IsLetter(u[k]) && !IsUpper(u[k])
    ensures NormalizeUnit(u) == "pcs" || IsUnitWord(NormalizeUnit(u))
  {
  }

  /** On a stripped line the item starts at a non-space character, so it is not empty. */
  lemma ItemStartsInsideLine(line: string, g: Groups)
    requires Stripped(line) && |line| > 0
    requires ParseGroups(line) == Some(g)
    ensures g.itemStart < g.itemEnd
    ensures !IsSpace(line[g.itemStart])
  {
    var p := QuantityEnd(line).value;
    var q := Span(line, p, IsSpace);
    var u := Span(line, q, IsLetter);
    if q < u < |line| && IsSpace(line[u]) {
      assert g.itemStart == Span(line, u, IsSpace);
    } else {
      assert g.itemStart == q;
    }
  }

  // ---------------------------------------------------------------- the matcher against the pattern

  /** Group 1 of any match is followed by a space or a letter. */
  lemma AfterQuantity(line: string, g: Groups)
    requires IsMatch(line, g)
    ensures g.qtyEnd < |line|
    ensures IsSpace(line[g.qtyEnd]) || IsLetter(line[g.qtyEnd])
  {
    if g.unitStart == g.qtyEnd && g.unitEnd == g.unitStart {
      assert IsSpace(line[g.unitEnd]);
    }
  }

  /** Every match ends group 1 where `QuantityEnd` does. */
  lemma QuantityEndOfMatch(line: string, g: Groups)
    requires IsMatch(line, g)
    ensures QuantityEnd(line) == Some(g.qtyEnd)
  {
    AfterQuantity(line, g);
    QuantityEndOfToken(line, g.qtyEnd);
  }

  /** A quantity token followed by whitespace or a letter is exactly what group 1 takes. */
  lemma QuantityEndOfToken(line: string, a: nat)
    requires 0 < a < |line| && IsQuantityToken(line[..a])
    requires IsSpace(line[a]) || IsLetter(line[a])
    ensures QuantityEnd(line) == Some(a)
  {
    var t := line[..a];
    if IsDigits(t) {
      assert AllIn(line, 0, a, IsDigit) by {
        forall j | 0 <= j < a ensures IsDigit(line[j]) {
          assert t[j] == line[j];
        }
      }
      WholeQuantityEnd(line, a);
    } else {
      var k :| 0 < k < |t| && (t[k] == '.' || t[k] == '/') && IsDigits(t[..k]) && IsDigits(t[k + 1..]);
      assert AllIn(line, 0, k, IsDigit) by {
        forall j | 0 <= j < k ensures IsDigit(line[j]) {
          assert t[..k][j] == line[j];
        }
      }
      assert AllIn(line, k + 1, a, IsDigit) by {
        forall j | k + 1 <= j < a ensures IsDigit(line[j]) {
          assert t[k + 1..][j - k - 1] == line[j];
        }
      }
      FractionQuantityEnd(line, k, a);
    }
  }

  /** Digits up to `a` followed by something else: group 1 is those digits. */
  lemma WholeQuantityEnd(line: string, a: nat)
    requires 0 < a < |line|
    requires AllIn(line, 0, a, IsDigit)
    requires IsSpace(line[a]) || IsLetter(line[a])
    ensures QuantityEnd(line) == Some(a)
  {
    SpanOfMaximalRun(line, 0, a, IsDigit);
  }

  /** Digits, a `.` or `/`, digits up to `a`, then something else: group 1 ends at `a`. */
  lemma FractionQuantityEnd(line: string, k: nat, a: nat)
    requires 0 < k && k + 1 < a < |line|
    requires AllIn(line, 0, k, IsDigit) && (line[k] == '.' || line[k] == '/')
    requires AllIn(line, k + 1, a, IsDigit)
    requires IsSpace(line[a]) || IsLetter(line[a])
    ensures QuantityEnd(line) == Some(a)
  {
    SpanOfMaximalRun(line, 0, k, IsDigit);
    SpanOfMaximalRun(line, k + 1, a, IsDigit);
  }

  /** A match whose `\s*` is as long as possible has the longest letter run as its unit. */
  lemma UnitAfterLongestSpaces(line: string, g: Groups)
    requires IsMatch(line, g)
    ensures var q := Span(line, g.qtyEnd, IsSpace);
      var u := Span(line, q, IsLetter);
      g.unitStart == q ==> q < u < |line| && IsSpace(line[u]) && g.unitEnd == u
  {
    var q := Span(line, g.qtyEnd, IsSpace);
    if g.unitStart == q {
      assert !IsSpace(line[q]);
      assert g.unitEnd > q;
      assert IsSpace(line[g.unitEnd]);
      SpanOfMaximalRun(line, q, g.unitEnd, IsLetter);
    }
  }

  /**
   * Completeness and priority: whenever the pattern matches at all, `ParseGroups`
   * finds a match, and its groups are the greediest in the order Python's
   * backtracking tries them (longer `\s*` first, unit present and longer first,
   * then longer `\s+`, then longer `.*`).
   */
  lemma MatchIsGreediest(line: string, g: Groups)
    requires IsMatch(line, g)
    ensures ParseGroups(line).Some?
    ensures var h := ParseGroups(line).value;
      && h.qtyEnd == g.qtyEnd
      && g.unitStart <= h.unitStart
      && (g.unitStart == h.unitStart ==> g.unitEnd <= h.unitEnd)
      && (g.unitStart == h.unitStart && g.unitEnd == h.unitEnd ==> g.itemStart <= h.itemStart)
      && (g.unitStart == h.unitStart && g.unitEnd == h.unitEnd && g.itemStart == h.itemStart ==>
            g.itemEnd <= h.itemEnd)
  {
    QuantityEndOfMatch(line, g);
    UnitAfterLongestSpaces(line, g);
    var p := g.qtyEnd;
    var q := Span(line, p, IsSpace);
    var u := Span(line, q, IsLetter);
    SpanCovers(line, p, g.unitStart, IsSpace);
    if q < u < |line| && IsSpace(line[u]) {
      var d := Span(line, u, IsSpace);
      if g.unitStart == q {
        SpanCovers(line, q, g.unitEnd, IsLetter);
        if g.unitEnd == u {
          SpanCovers(line, u, g.itemStart, IsSpace);
          if g.itemStart == d {
            SpanCovers(line, d, g.itemEnd, NotNewline);
          }
        }
      }
    } else {
      assert g.unitStart < q;
      if g.unitStart == q - 1 {
        SpanOfMaximalRun(line, q - 1, q - 1, IsLetter);
        SpanCovers(line, q - 1, g.unitEnd, IsLetter);
        if g.unitEnd == q - 1 {
          SpanOfMaximalRun(line, q - 1, q, IsSpace);
          SpanCovers(line, q - 1, g.itemStart, IsSpace);
          if g.itemStart == q {
            SpanCovers(line, q, g.itemEnd, NotNewline);
          }
        }
      }
    }
  }

  // ---------------------------------------------------------------- properties of the parse

  /** The `1 pcs <whole line>` default is returned exactly when the pattern has no match. */
  lemma FallbackExactlyWithoutMatch(line: string)
    requires IsCleanLine(line)
    ensures ParseLine(line) == Parsed(Ingredient(1.0, "pcs", line)) <==> forall g :: !IsMatch(line, g)
  {
    if g :| IsMatch(line, g) {
      MatchIsGreediest(line, g);
      var h := ParseGroups(line).value;
      assert |line[h.itemStart..h.itemEnd]| < |line|;
    }
  }

  /** Cleaning keeps a newline-free line newline-free. */
  lemma CleanHasNoNewline(raw: string)
    requires forall k :: 0 <= k < |raw| ==> raw[k] != '\n'
    ensures forall k :: 0 <= k < |Clean(raw)| ==> Clean(raw)[k] != '\n'
  {
    var r := Strip(raw);
    var i: nat :| StripsTo(raw, i, r);
    var line := Clean(raw);
    assert line == Lower(r);
    forall k | 0 <= k < |line| ensures line[k] != '\n' {
      assert r[k] == raw[i + k] by {
        assert r[k] == raw[i..i + |r|][k];
      }
      if IsUpper(r[k]) {
        assert IsLetter(line[k]);
      } else {
        assert line[k] == r[k];
      }
    }
  }

  /** Where the reported item comes from: the whole line, or group 4. */
  lemma ParsedItem(line: string)
    requires IsCleanLine(line)
    requires ParseLine(line).Parsed?
    ensures ParseGroups(line).None? ==> ParseLine(line).ingredient.item == line
    ensures ParseGroups(line).Some? ==>
      var g := ParseGroups(line).value;
      ParseLine(line).ingredient.item == line[g.itemStart..g.itemEnd]
  {
  }

  /** On a line without newlines the item also has no trailing whitespace. */
  lemma ItemIsStripped(line: string)
    requires IsCleanLine(line)
    requires forall k :: 0 <= k < |line| ==> line[k] != '\n'
    requires ParseLine(line).Parsed?
    ensures Stripped(ParseLine(line).ingredient.item)
  {
    ParsedItem(line);
    if ParseGroups(line).Some? {
      GroupItemIsStripped(line, ParseGroups(line).value);
    }
  }

  /** The item group of a match on a stripped line without newlines runs to the end. */
  lemma GroupItemIsStripped(line: string, g: Groups)
    requires IsCleanLine(line)
    requires forall k :: 0 <= k < |line| ==> line[k] != '\n'
    requires ParseGroups(line) == Some(g)
    ensures Stripped(line[g.itemStart..g.itemEnd])
  {
    SpanOfMaximalRun(line, g.itemStart, |line|, NotNewline);
    assert line[g.itemStart..g.itemEnd] == line[g.itemStart..];
    ItemStartsInsideLine(line, g);
    ItemToEnd(line, g.itemStart);
  }

  /** A piece running to the end of a stripped line, starting at a non-space, is stripped. */
  lemma ItemToEnd(line: string, i: nat)
    requires Stripped(line) && i < |line| && !IsSpace(line[i])
    ensures Stripped(line[i..])
  {
    assert line[i..][0] == line[i];
    assert line[i..][|line| - i - 1] == line[|line| - 1];
  }

  /** `ItemIsStripped` for the raw line handed to `parse_ingredient`. */
  lemma ParsedItemIsStripped(raw: string)
    requires forall k :: 0 <= k < |raw| ==> raw[k] != '\n'
    requires ParseIngredient(raw).Parsed?
    ensures Stripped(ParseIngredient(raw).ingredient.item)
  {
    CleanHasNoNewline(raw);
    ItemIsStripped(Clean(raw));
  }

  /** The `if` chain can be applied twice without further change. */
  lemma NormalizeUnitIdempotent(u: string)
    ensures NormalizeUnit(NormalizeUnit(u)) == NormalizeUnit(u)
  {
  }

  // ---------------------------------------------------------------- round trip

  function DigitChar(d: nat): (c: char)
    requires d < 10
    ensures IsDigit(c) && c as int - '0' as int == d
  {
    ('0' as int + d) as char
  }

  /** The decimal numeral of `n`, as `{n:g}` prints whole numbers below a million. */
  function NatText(n: nat): (t: string)
    ensures IsDigits(t)
    ensures DigitsValue(t) == n
  {
    if n < 10 then [DigitChar(n)] else NatText(n / 10) + [DigitChar(n % 10)]
  }

  /** What the parser can report as the item of a line without newlines. */
  predicate IsCleanItem(item: string) {
    && |item| > 0
    && Stripped(item)
    && forall k :: 0 <= k < |item| ==> item[k] != '\n' && !IsUpper(item[k])
  }

  /** The item begins with letters followed by whitespace, which the pattern would take for a unit. */
  predicate StartsWithWord(item: string) {
    var w := Span(item, 0, IsLetter);
    0 < w < |item| && IsSpace(item[w])
  }

  /** A whole-number token is worth its digits. */
  lemma WholeTokenValue(t: string)
    requires IsDigits(t)
    ensures IsQuantityToken(t)
    ensures TokenValue(t) == Ok(DigitsValue(t) as real)
  {
    SpanOfMaximalRun(t, 0, |t|, IsDigit);
    assert t[..|t|] == t;
    assert TokenValue(t) == ValueFromParts(t, |t|);
  }

  /** Every character of a quantity token is a digit, `.` or `/`, and the first is a digit. */
  lemma TokenChars(t: string)
    requires IsQuantityToken(t)
    ensures |t| > 0 && IsDigit(t[0])
    ensures forall k :: 0 <= k < |t| ==> IsDigit(t[k]) || t[k] == '.' || t[k] == '/'
  {
    if !IsDigits(t) {
      var k :| 0 < k < |t| && (t[k] == '.' || t[k] == '/') && IsDigits(t[..k]) && IsDigits(t[k + 1..]);
      forall j | 0 <= j < |t| ensures IsDigit(t[j]) || t[j] == '.' || t[j] == '/' {
        if j < k {
          assert t[..k][j] == t[j];
        } else if j > k {
          assert t[k + 1..][j - k - 1] == t[j];
        }
      }
      assert t[..k][0] == t[0];
    }
  }

  /** `n/d`: `float(n) / float(d)`, which raises when `d` is worth zero. */
  lemma FractionTokenValue(num: string, den: string)
    requires IsDigits(num) && IsDigits(den)
    ensures IsQuantityToken(num + "/" + den)
    ensures TokenValue(num + "/" + den) ==
      if DigitsValue(den) == 0 then Err("float division by zero")
      else Ok(DigitsValue(num) as real / DigitsValue(den) as real)
  {
    var t := num + "/" + den;
    var a := |num|;
    assert t[..a] == num && t[a] == '/' && t[a + 1..] == den;
    assert IsQuantityToken(t);
    assert AllIn(t, 0, a, IsDigit) by {
      forall j | 0 <= j < a ensures IsDigit(t[j]) {
        assert t[j] == num[j];
      }
    }
    SpanOfMaximalRun(t, 0, a, IsDigit);
    assert TokenValue(t) == ValueFromParts(t, a);
  }

  /** `w.f`: the whole part plus the digits after the point, scaled by their count. */
  lemma DecimalTokenValue(whole: string, frac: string)
    requires IsDigits(whole) && IsDigits(frac)
    ensures IsQuantityToken(whole + "." + frac)
    ensures TokenValue(whole + "." + frac) ==
      Ok(DecimalValue(DigitsValue(whole), DigitsValue(frac), |frac|))
  {
    var t := whole + "." + frac;
    var a := |whole|;
    assert t[..a] == whole && t[a] == '.' && t[a + 1..] == frac;
    assert IsQuantityToken(t);
    assert AllIn(t, 0, a, IsDigit) by {
      forall j | 0 <= j < a ensures IsDigit(t[j]) {
        assert t[j] == whole[j];
      }
    }
    SpanOfMaximalRun(t, 0, a, IsDigit);
    assert TokenValue(t) == ValueFromParts(t, a);
  }

  /** What a line with quantity token `t`, unit group `unit` and item group `item` parses to. */
  function Outcome(t: string, unit: string, item: string): ParseResult
    requires IsQuantityToken(t)
  {
    match TokenValue(t)
    case Err(_) => DivisionByZero
    case Ok(q) => Parsed(Ingredient(q, NormalizeUnit(unit), item))
  }

  /** The groups the matcher finds on `token letters " " item`. */
  lemma GroupsWithUnit(line: string, a: nat, u: nat)
    requires 0 < a < u && u + 1 < |line|
    requires IsQuantityToken(line[..a]) && AllIn(line, a, u, IsLetter)
    requires line[u] == ' ' && !IsSpace(line[u + 1])
    requires AllIn(line, u + 1, |line|, NotNewline)
    ensures ParseGroups(line) == Some(Groups(a, a, u, u + 1, |line|))
  {
    QuantityEndOfToken(line, a);
    SpanOfMaximalRun(line, a, a, IsSpace);
    SpanOfMaximalRun(line, a, u, IsLetter);
    SpanOfMaximalRun(line, u, u + 1, IsSpace);
    SpanOfMaximalRun(line, u + 1, |line|, NotNewline);
  }

  /** The groups the matcher finds on `token " " letters " " item`. */
  lemma GroupsWithSpacedUnit(line: string, a: nat, u: nat)
    requires 0 < a && a + 1 < u && u + 1 < |line|
    requires IsQuantityToken(line[..a]) && line[a] == ' ' && AllIn(line, a + 1, u, IsLetter)
    requires line[u] == ' ' && !IsSpace(line[u + 1])
    requires AllIn(line, u + 1, |line|, NotNewline)
    ensures ParseGroups(line) == Some(Groups(a, a + 1, u, u + 1, |line|))
  {
    QuantityEndOfToken(line, a);
    SpanOfMaximalRun(line, a, a + 1, IsSpace);
    SpanOfMaximalRun(line, a + 1, u, IsLetter);
    SpanOfMaximalRun(line, u, u + 1, IsSpace);
    SpanOfMaximalRun(line, u + 1, |line|, NotNewline);
  }

  /** The groups the matcher finds on `token " " item` when the item does not open with a word. */
  lemma GroupsWithoutUnit(line: string, a: nat, w: nat)
    requires 0 < a && a + 1 < |line|
    requires IsQuantityToken(line[..a]) && line[a] == ' ' && !IsSpace(line[a + 1])
    requires a + 1 <= w <= |line| && AllIn(line, a + 1, w, IsLetter) && (w == |line| || !IsLetter(line[w]))
    requires !(a + 1 < w < |line| && IsSpace(line[w]))
    requires AllIn(line, a + 1, |line|, NotNewline)
    ensures ParseGroups(line) == Some(Groups(a, a, a, a + 1, |line|))
  {
    QuantityEndOfToken(line, a);
    SpanOfMaximalRun(line, a, a + 1, IsSpace);
    SpanOfMaximalRun(line, a + 1, w, IsLetter);
    SpanOfMaximalRun(line, a + 1, |line|, NotNewline);
  }

  /** Where the pieces of `head + " " + item` sit. */
  lemma SpaceJoined(head: string, item: string)
    requires |item| > 0
    ensures var line := head + " " + item;
      && line[..|head|] == head && line[|head|] == ' '
      && line[|head| + 1] == item[0] && line[|head| + 1..] == item
  {
  }

  /** The pieces of a rendered line, glued together, form a cleaned line. */
  lemma RenderedLineIsClean(head: string, item: string)
    requires |head| > 0 && !IsSpace(head[0])
    requires forall k :: 0 <= k < |head| ==> !IsUpper(head[k])
    requires IsCleanItem(item)
    ensures IsCleanLine(head + " " + item)
    ensures Clean(head + " " + item) == head + " " + item
  {
    var line := head + " " + item;
    assert line[0] == head[0] && line[|line| - 1] == item[|item| - 1];
    forall k | 0 <= k < |line| ensures !IsUpper(line[k]) {
      if k < |head| { assert line[k] == head[k]; }
      else if k > |head| { assert line[k] == item[k - |head| - 1]; }
    }
    CleanOfCleanLine(line);
  }

  /** `parse_ingredient` on a cleaned line goes straight to the match. */
  lemma ParseOfCleanLine(line: string)
    requires IsCleanLine(line)
    ensures ParseIngredient(line) == ParseLine(line)
  {
    CleanOfCleanLine(line);
  }

  /** `ParseLine` once the groups are known. */
  lemma ParseLineOfGroups(line: string, g: Groups)
    requires IsCleanLine(line)
    requires ParseGroups(line) == Some(g)
    ensures ParseLine(line) == Outcome(line[..g.qtyEnd], line[g.unitStart..g.unitEnd], line[g.itemStart..g.itemEnd])
  {
  }

  /** A cleaned line `token letters " " item` parses to the token's value, the unit and the item. */
  lemma ParseLineWithUnit(line: string, a: nat, u: nat)
    requires IsCleanLine(line)
    requires 0 < a < u && u + 1 < |line|
    requires IsQuantityToken(line[..a]) && All(line[a..u], IsLetter)
    requires line[u] == ' ' && !IsSpace(line[u + 1])
    requires All(line[u + 1..], NotNewline)
    ensures ParseLine(line) == Outcome(line[..a], line[a..u], line[u + 1..])
  {
    AllInOfSlice(line, a, u, IsLetter);
    assert line[u + 1..] == line[u + 1..|line|];
    AllInOfSlice(line, u + 1, |line|, NotNewline);
    GroupsWithUnit(line, a, u);
    ParseLineOfGroups(line, Groups(a, a, u, u + 1, |line|));
    assert line[u + 1..|line|] == line[u + 1..];
  }

  /** `ParseLineWithUnit` for a line given as `head + " " + item`, the head being a token then letters. */
  lemma ParseHeadWithUnit(head: string, a: nat, item: string)
    requires IsCleanLine(head + " " + item)
    requires 0 < a < |head| && |item| > 0
    requires IsQuantityToken(head[..a]) && All(head[a..], IsLetter)
    requires !IsSpace(item[0]) && All(item, NotNewline)
    ensures ParseLine(head + " " + item) == Outcome(head[..a], head[a..], item)
  {
    var line := head + " " + item;
    SpaceJoined(head, item);
    assert line[..a] == head[..a];
    assert line[a..|head|] == head[a..];
    ParseLineWithUnit(line, a, |head|);
  }

  /** A cleaned line `token " " item` whose item does not open with a word parses to `pcs`. */
  lemma ParseLineWithoutUnit(line: string, a: nat, w: nat)
    requires IsCleanLine(line)
    requires 0 < a && a + 1 < |line|
    requires IsQuantityToken(line[..a]) && line[a] == ' ' && !IsSpace(line[a + 1])
    requires a + 1 <= w <= |line| && AllIn(line, a + 1, w, IsLetter) && (w == |line| || !IsLetter(line[w]))
    requires !(a + 1 < w < |line| && IsSpace(line[w]))
    requires All(line[a + 1..], NotNewline)
    ensures ParseLine(line) == Outcome(line[..a], "", line[a + 1..])
  {
    assert line[a + 1..] == line[a + 1..|line|];
    AllInOfSlice(line, a + 1, |line|, NotNewline);
    GroupsWithoutUnit(line, a, w);
    ParseLineOfGroups(line, Groups(a, a, a, a + 1, |line|));
    assert line[a..a] == "";
    assert line[a + 1..|line|] == line[a + 1..];
  }

  /** A token with a unit word glued on holds no upper case and starts with a digit. */
  lemma TokenWithUnit(t: string, unit: string)
    requires IsQuantityToken(t) && IsUnitWord(unit)
    ensures var head := t + unit;
      && IsDigit(head[0])
      && (forall k :: 0 <= k < |head| ==> !IsUpper(head[k]))
      && head[..|t|] == t && head[|t|..] == unit
  {
    TokenChars(t);
    var head := t + unit;
    forall k | 0 <= k < |head| ensures !IsUpper(head[k]) {
      if k >= |t| { assert head[k] == unit[k - |t|]; }
      else { assert head[k] == t[k]; }
    }
  }

  /** `parse_ingredient("{t}{unit} {item}")`: the token's value (or the division error), the normalised unit and the item. */
  lemma ParseTokenWithUnit(t: string, unit: string, item: string)
    requires IsQuantityToken(t) && IsUnitWord(unit)
    requires IsCleanItem(item)
    ensures ParseIngredient(t + unit + " " + item) == Outcome(t, unit, item)
  {
    var head := t + unit;
    TokenWithUnit(t, unit);
    RenderedLineIsClean(head, item);
    ParseHeadWithUnit(head, |t|, item);
    ParseOfCleanLine(head + " " + item);
  }

  /** `parse_ingredient("{t} {unit} {item}")`: a unit word may also stand apart from the quantity. */
  lemma ParseTokenSpacedUnit(t: string, unit: string, item: string)
    requires IsQuantityToken(t) && IsUnitWord(unit)
    requires IsCleanItem(item)
    ensures ParseIngredient(t + " " + unit + " " + item) == Outcome(t, unit, item)
  {
    var head := t + " " + unit;
    TokenChars(t);
    forall k | 0 <= k < |head| ensures !IsUpper(head[k]) {
      if k < |t| { assert head[k] == t[k]; }
      else if k > |t| { assert head[k] == unit[k - |t| - 1]; }
    }
    RenderedLineIsClean(head, item);
    ParseHeadSpacedUnit(t, unit, item);
    ParseOfCleanLine(head + " " + item);
  }

  /** A cleaned line `token " " letters " " item` parses to the token's value, the unit and the item. */
  lemma ParseLineSpacedUnit(line: string, a: nat, u: nat)
    requires IsCleanLine(line)
    requires 0 < a && a + 1 < u && u + 1 < |line|
    requires IsQuantityToken(line[..a]) && line[a] == ' ' && All(line[a + 1..u], IsLetter)
    requires line[u] == ' ' && !IsSpace(line[u + 1])
    requires All(line[u + 1..], NotNewline)
    ensures ParseLine(line) == Outcome(line[..a], line[a + 1..u], line[u + 1..])
  {
    AllInOfSlice(line, a + 1, u, IsLetter);
    assert line[u + 1..] == line[u + 1..|line|];
    AllInOfSlice(line, u + 1, |line|, NotNewline);
    GroupsWithSpacedUnit(line, a, u);
    ParseLineOfGroups(line, Groups(a, a + 1, u, u + 1, |line|));
    assert line[u + 1..|line|] == line[u + 1..];
  }

  /** `ParseLineSpacedUnit` for a line given as `t + " " + unit + " " + item`. */
  lemma ParseHeadSpacedUnit(t: string, unit: string, item: string)
    requires IsCleanLine(t + " " + unit + " " + item)
    requires IsQuantityToken(t) && IsUnitWord(unit) && IsCleanItem(item)
    ensures ParseLine(t + " " + unit + " " + item) == Outcome(t, unit, item)
  {
    var head := t + " " + unit;
    var line := head + " " + item;
    var a, u := |t|, |head|;
    SpaceJoined(head, item);
    assert line[..a] == t && line[a] == ' ';
    assert line[a + 1..u] == unit;
    assert All(line[u + 1..], NotNewline);
    ParseLineSpacedUnit(line, a, u);
  }

  /** `parse_ingredient("{t} {item}")` gives `pcs`, unless the item starts with a word the pattern takes for a unit. */
  lemma ParseTokenWithoutUnit(t: string, item: string)
    requires IsQuantityToken(t)
    requires IsCleanItem(item)
    requires !StartsWithWord(item)
    ensures ParseIngredient(t + " " + item) == Outcome(t, "", item)
  {
    TokenChars(t);
    RenderedLineIsClean(t, item);
    ParseHeadWithoutUnit(t, item);
    ParseOfCleanLine(t + " " + item);
  }

  /** `ParseLineWithoutUnit` for a line given as `t + " " + item`. */
  lemma ParseHeadWithoutUnit(t: string, item: string)
    requires IsCleanLine(t + " " + item)
    requires IsQuantityToken(t) && |item| > 0 && !IsSpace(item[0])
    requires All(item, NotNewline) && !StartsWithWord(item)
    ensures ParseLine(t + " " + item) == Outcome(t, "", item)
  {
    var line := t + " " + item;
    var a := |t|;
    SpaceJoined(t, item);
    var w := Span(item, 0, IsLetter);
    assert AllIn(line, a + 1, a + 1 + w, IsLetter) by {
      forall k | a + 1 <= k < a + 1 + w ensures IsLetter(line[k]) { assert line[k] == item[k - a - 1]; }
    }
    assert a + 1 + w < |line| ==> line[a + 1 + w] == item[w];
    ParseLineWithoutUnit(line, a, a + 1 + w);
  }

  /** Whole number `n` directly followed by a unit word: `Parse("{n}{unit} {item}")` gives back all three. */
  lemma ParseWithUnit(n: nat, unit: string, item: string)
    requires IsUnitWord(unit)
    requires IsCleanItem(item)
    ensures ParseIngredient(NatText(n) + unit + " " + item)
         == Parsed(Ingredient(n as real, NormalizeUnit(unit), item))
  {
    WholeTokenValue(NatText(n));
    ParseTokenWithUnit(NatText(n), unit, item);
  }

  /** Whole number `n`, a space, then an item: `Parse("{n} {item}")` gives `n pcs item`, unless the item starts with a word. */
  lemma ParseWithoutUnit(n: nat, item: string)
    requires IsCleanItem(item)
    requires !StartsWithWord(item)
    ensures ParseIngredient(NatText(n) + " " + item) == Parsed(Ingredient(n as real, "pcs", item))
  {
    WholeTokenValue(NatText(n));
    ParseTokenWithoutUnit(NatText(n), item);
  }

  lemma HalfToken()
    ensures IsQuantityToken("1/2") && TokenValue("1/2") == Ok(0.5)
  {
    FractionTokenValue("1", "2");
    assert "1/2" == "1" + "/" + "2";
  }

  lemma ZeroDenominatorToken()
    ensures IsQuantityToken("1/0") && TokenValue("1/0").Err?
  {
    FractionTokenValue("1", "0");
    assert "1/0" == "1" + "/" + "0";
  }

  lemma DecimalToken()
    ensures IsQuantityToken("2.5") && TokenValue("2.5") == Ok(2.5)
  {
    DecimalTokenValue("2", "5");
    assert "2.5" == "2" + "." + "5";
  }

  /** As in the source comment's `1/2 cup sugar`: half of any unit of any item. */
  lemma HalfCup(unit: string, item: string)
    requires IsUnitWord(unit) && IsCleanItem(item)
    ensures ParseIngredient("1/2" + " " + unit + " " + item) == Parsed(Ingredient(0.5, NormalizeUnit(unit), item))
  {
    HalfToken();
    ParseTokenSpacedUnit("1/2", unit, item);
  }

  /** A zero denominator raises instead of parsing. */
  lemma ZeroDenominatorRaises(unit: string, item: string)
    requires IsUnitWord(unit) && IsCleanItem(item)
    ensures ParseIngredient("1/0" + " " + unit + " " + item) == DivisionByZero
  {
    ZeroDenominatorToken();
    ParseTokenSpacedUnit("1/0", unit, item);
  }

  /** As in the source comment's `2.5 kg chicken`: a decimal quantity with a spaced unit. */
  lemma DecimalQuantity(unit: string, item: string)
    requires IsUnitWord(unit) && IsCleanItem(item)
    ensures ParseIngredient("2.5" + " " + unit + " " + item) == Parsed(Ingredient(2.5, NormalizeUnit(unit), item))
  {
    DecimalToken();
    ParseTokenSpacedUnit("2.5", unit, item);
  }
}
