# Personal Growth App — a Dafny model of its core

PersonalGrowthApp is a small Streamlit application. It keeps a daily habit log
(study hours, gym, dog walks, supplements). It shows streaks, a habit heatmap,
study timers and a daily quote. It also stores recipes and turns the recipes
you select into a merged grocery list. Two helpers send audio or workout text
to a language-model service.

This project models the parts of that program that are logic rather than
rendering:

- **Ingredient parser** (`ingredient.dfy`, module `Ingredients`). It models
  `parse_ingredient`: strip, lower-case, then match the anchored pattern
  `(\d+(\.\d+)?|\d+/\d+)\s*([a-zA-Z]+)?\s+(.*)`. A deterministic matcher,
  `ParseGroups`, is proved to agree with a declarative description of the
  pattern's language, `IsMatch`. It finds a match exactly when one exists, and
  it picks the decomposition Python's backtracking engine picks (the greediest
  groups).
- **Ingredient aggregation** (`aggregate.dfy`, module `Aggregation`). It
  models `aggregate_ingredients`: a dict keyed by `(item, unit)` kept in
  insertion order, the rendering of each entry, and the final `sorted`. Python
  string order and `sorted` are in `lex_order.dfy` (module `LexOrder`).
- **Audit log** (`audit_log.dfy`, module `AuditLog`). It models the
  missing-column repair in `load_audit_data` and the replace-by-date in
  `save_audit_data`.
- **Streaks** (`streaks.dfy`, module `Streaks`). It models `calculate_streaks`:
  the per-habit success criteria, the newest-first scan, and an independent
  day-by-day definition of a streak that the scan is proved to compute.
- **The page logic of `Personal_Growth_App.py`** (`app.dfy`, module `App`):
  - the Start/Pause/Reset timer and the hours/minutes/seconds split;
  - the daily quote;
  - the grocery-line extraction;
  - the heatmap's 0/1 values.
- **AI helpers** (`ai_utils.dfy`, module `AiUtils`): the missing-key guard, the
  `(data, error)` replies, and the Markdown fence stripping.

Shared building blocks live in the following modules:

- `wrappers.dfy` (`Option`, `Result`);
- text.dfy: character classes, `strip`, `lower`, substring search, and
  `split`/`join` on a separator;
- seqs.dfy: filter-map, map, sum, and their behaviour under concatenation
  and permutation.

Things that are not pure logic become parameters:

- the clock: `today` as a day number, `now` in seconds, `day` of the month;
- the CSV file: `Option<Frame>`, with `None` meaning no file;
- the speech and language services, and `json.loads`: functions returning a
  `Result`;
- the `{qty:g}` number rendering: a function `fmt`.

Two behaviours of the code are easy to miss:

- **`1/0` raises.** A fraction with a zero denominator (`1/0 cup x`) makes
  `parse_ingredient` raise `ZeroDivisionError`, and the error propagates out
  of `aggregate_ingredients`. The model returns `DivisionByZero` from the
  parser and `Err("float division by zero")` from `Aggregate`.
- **The Gym criterion.** The code counts a Gym day when the cell is `True` or
  the number `1` (data_manager.py:82), and `Streaks.IsOne` models that test.

## Model

| member | source | states |
|---|---|---|
| Ingredients.ParseIngredient | data_manager.py:130-167 | The result is blank exactly when the line is all whitespace. A parsed item is non-empty, lower-case, starts with a non-space, and occurs in the cleaned line. The quantity is non-negative. The unit is `pcs` or a lower-case letter word. The parse raises a division error exactly when the pattern matches with an `n/0` fraction as the quantity. |
| Ingredients.Clean | data_manager.py:135 | The cleaned line is stripped and has no upper-case letter. It is empty exactly when the raw line is all whitespace. |
| Ingredients.ParseLine | data_manager.py:139-167 | On a cleaned non-blank line, the result is never blank. It has the same item, unit and quantity guarantees, and it raises exactly when the pattern matches with a zero-denominator fraction as the quantity. |
| Ingredients.QuantityEnd | data_manager.py:143 | Group 1 exists exactly when the line starts with a digit, and the text up to its end is a quantity token. |
| Ingredients.ParseGroups | data_manager.py:143 | Any match it returns satisfies the pattern, and group 4 runs to the first newline. |
| Ingredients.MatchIsGreediest | data_manager.py:143 | For every decomposition that satisfies the pattern, the matcher finds a match too. Its match has the same quantity and groups at least as long, in priority order. |
| Ingredients.QuantityEndOfMatch | data_manager.py:143 | Every match ends group 1 where `QuantityEnd` says. |
| Ingredients.QuantityEndOfToken | data_manager.py:143 | A quantity token followed by a space or a letter is exactly group 1. |
| Ingredients.MatchFound | data_manager.py:143-145 | Whenever some decomposition satisfies the pattern, `re.match` succeeds. |
| Ingredients.SameQuantityInEveryMatch | data_manager.py:143-146 | Every decomposition that satisfies the pattern has the same group 1 as the match found. |
| Ingredients.UnitAfterLongestSpaces | data_manager.py:143 | A unit starting right after the longest run of spaces is the whole letter run, followed by a space. |
| Ingredients.AfterQuantity | data_manager.py:143 | In any match, a space or a letter follows the quantity. |
| Ingredients.MatchedGroups | data_manager.py:146-148 | On a clean line, the unit of a match normalises to `pcs` or a letter word. The item is non-empty, starts with a non-space, is lower-case, and occurs in the line. |
| Ingredients.ItemStartsInsideLine | data_manager.py:143-148 | On a stripped line, group 4 is non-empty and starts with a non-space. |
| Ingredients.FallbackExactlyWithoutMatch | data_manager.py:165-167 | The result is `(1.0, "pcs", whole line)` exactly when no decomposition satisfies the pattern. |
| Ingredients.ItemIsStripped | data_manager.py:148 | On a line without newlines, the parsed item has no surrounding whitespace. |
| Ingredients.ParsedItemIsStripped | data_manager.py:135-167 | For a raw line without newlines, the parsed item has no leading or trailing whitespace. |
| Ingredients.TokenShape | data_manager.py:143 | A quantity token is digits, optionally followed by one `.` or `/` and more digits. |
| Ingredients.TokenValue | data_manager.py:150-155 | The value is non-negative, and it fails exactly for a fraction with a zero denominator. |
| Ingredients.WholeTokenValue | data_manager.py:155 | A digit string is worth its decimal value. |
| Ingredients.FractionTokenValue | data_manager.py:151-153 | `n/d` is worth `n ÷ d`, and raises the division error exactly when `d` is worth zero. |
| Ingredients.DecimalTokenValue | data_manager.py:154-155 | `w.f` is worth `w` plus `f` divided by ten to the number of digits of `f`. |
| Ingredients.TokenChars | data_manager.py:143 | A quantity token starts with a digit and holds only digits, `.` and `/`. |
| Ingredients.NormalizeUnit | data_manager.py:157-162 | `g`, `gram` and `grams` become `g`; `kg` and `kilogram` become `kg`; `ml` stays `ml`; `l` and `liter` become `l`. No unit becomes `pcs`, and every other unit passes through unchanged. |
| Ingredients.NormalizedUnitIsWord | data_manager.py:158-162 | A lower-case letter unit normalises to `pcs` or a lower-case letter word. |
| Ingredients.NormalizeUnitIdempotent | data_manager.py:158-162 | Normalising twice is normalising once. |
| Ingredients.CleanOfCleanLine | data_manager.py:135 | Cleaning an already clean line changes nothing. |
| Ingredients.CleanHasNoNewline | data_manager.py:135 | Cleaning does not introduce newlines. |
| Ingredients.ParseOfCleanLine | data_manager.py:135-137 | Parsing a clean line is the same as parsing it without the cleaning step. |
| Ingredients.GroupsWithUnit | data_manager.py:143 | For `token letters ␠ item`, the match is token / letters / item. |
| Ingredients.GroupsWithSpacedUnit | data_manager.py:143 | For `token ␠ letters ␠ item`, the match is token / letters / item. |
| Ingredients.GroupsWithoutUnit | data_manager.py:143 | For `token ␠ item`, when the item does not start with a word followed by whitespace, the unit group is empty and the item is the rest of the line. |
| Ingredients.ParseLineWithUnit | data_manager.py:143-164 | `200g chicken` parses to the token's value (or the division error), the normalised unit, and the rest. |
| Ingredients.ParseHeadWithUnit | data_manager.py:143-164 | The same, with the line given as head, space and item. |
| Ingredients.ParseLineSpacedUnit | data_manager.py:143-164 | `2.5 kg chicken` parses to the token's value (or the division error), the normalised unit, and the rest. |
| Ingredients.ParseHeadSpacedUnit | data_manager.py:143-164 | The same, with the line given as token, space, unit, space and item. |
| Ingredients.ParseLineWithoutUnit | data_manager.py:143-164 | `2 eggs` parses to the token's value (or the division error), `pcs`, `eggs`. |
| Ingredients.ParseHeadWithoutUnit | data_manager.py:143-164 | The same, with the line given as token, space and item. |
| Ingredients.ParseTokenWithUnit | data_manager.py:130-164 | Writing out any quantity token, a unit word, a space and a clean item, then parsing, gives the token's value or the division error, the normalised unit and the item. |
| Ingredients.ParseTokenSpacedUnit | data_manager.py:130-164 | The same with a space between the token and the unit word. |
| Ingredients.ParseTokenWithoutUnit | data_manager.py:130-164 | Writing out any quantity token, a space and a clean item not starting with a word, then parsing, gives the token's value or the division error, `pcs` and the item. |
| Ingredients.HalfCup | data_manager.py:140-164 | `1/2 cup sugar`, and any other unit and item after `1/2`, parses to 0.5 of that unit. |
| Ingredients.ZeroDenominatorRaises | data_manager.py:150-153 | `1/0` followed by a unit and an item raises the division error. |
| Ingredients.DecimalQuantity | data_manager.py:140-164 | `2.5 kg chicken`, and any other unit and item after `2.5`, parses to 2.5 of that unit. |
| Ingredients.TokenWithUnit | data_manager.py:143 | A token with a unit word glued on starts with a digit and has no upper-case letter. |
| Ingredients.ParseWithUnit | data_manager.py:130-164 | Writing out a number, a unit word, a space and a clean item, then parsing, gives back the number, the normalised unit and the item. |
| Ingredients.ParseWithoutUnit | data_manager.py:130-164 | Writing out a number, a space and a clean item, then parsing, gives back the number, `pcs` and the item. This holds when the item does not start with a word followed by whitespace. |
| Ingredients.RenderedLineIsClean | data_manager.py:135 | A rendered head, space and clean item is a clean line. |
| Ingredients.NatText | data_manager.py:185-187 | The decimal numeral of `n` is a digit string worth `n`. |
| Aggregation.Aggregate | data_manager.py:169-189 | The result fails exactly when some line raises, with Python's message. Otherwise it is sorted. |
| Aggregation.AggregateContents | data_manager.py:173-187 | The output holds exactly one rendered line per distinct `(item, unit)` key. That line carries the sum of the quantities of the lines with that key. |
| Aggregation.AggregatePermutation | data_manager.py:169-189 | Reordering the input lines does not change the result. |
| Aggregation.BlankLinesIgnored | data_manager.py:176-177 | Adding whitespace-only lines does not change the result. |
| Aggregation.RenderParsesBack | data_manager.py:184-187 | A rendered whole-number entry with a clean item parses back to its own quantity, unit and item. |
| Aggregation.Tally | data_manager.py:173-179 | The dict has no repeated key. A key is present exactly when some ingredient has it, and it maps to the sum over those ingredients. |
| Aggregation.TallyKeys | data_manager.py:173-182 | The dict's keys are the ingredients' keys, one entry each. |
| Aggregation.TallyLines | data_manager.py:182-187 | The rendered lines are exactly the renderings of the present keys and their totals. |
| Aggregation.TallyPermutation | data_manager.py:173-179 | Permuted ingredients give the same dict entries. |
| Aggregation.Add | data_manager.py:178-179 | `agg[key] = agg.get(key, 0) + qty` updates only that key. It appends a new key at the end and keeps the existing order. |
| Aggregation.Find | data_manager.py:179 | The position found holds the key. With no repeated keys it is the only one, and nothing is found exactly when the key is absent. |
| Aggregation.GetDistinct | data_manager.py:179 | Without repeated keys, a lookup returns the stored quantity. |
| Aggregation.ParseAll | data_manager.py:175-177 | The parse fails exactly when some line raises. Otherwise it returns the parsed lines, with blank ones dropped. |
| Aggregation.RaisesPermutation | data_manager.py:175-177 | Whether some line raises does not depend on line order. |
| Aggregation.RaisesConcat | data_manager.py:175-177 | Some line of `a + b` raises exactly when one of `a` or of `b` does. |
| Aggregation.BlanksVanish | data_manager.py:176-177 | Whitespace-only lines contribute no ingredient and raise nothing. |
| Aggregation.SameLookupsSameEntries | data_manager.py:173-182 | Two duplicate-free dicts with the same lookups hold the same entries. |
| LexOrder.Sort | data_manager.py:189 | The result is sorted in Python string order and is a permutation of the input. |
| LexOrder.SortedUnique | data_manager.py:189 | Two sorted permutations of the same strings are equal. |
| LexOrder.SortPermutation | data_manager.py:189 | Sorting depends only on the multiset of strings. |
| AuditLog.LoadAuditData | data_manager.py:24-38 | Every required column is present after loading. Without a file, the result is an empty frame with exactly the required columns, and nothing is written. |
| AuditLog.Repair | data_manager.py:28-38 | Every required column is present. The record count is unchanged, and the file's own columns keep their place at the front. |
| AuditLog.RepairRewritesWhenIncomplete | data_manager.py:31-36 | The file is rewritten exactly when some required column was missing. Otherwise the frame is returned as read. |
| AuditLog.LoadedRecords | data_manager.py:31-34 | Each record keeps its cells and gets the default in every missing required column. |
| AuditLog.MissingColumns | data_manager.py:31 | A column is listed exactly when it is required and absent from the header. |
| AuditLog.RepairedHeader | data_manager.py:31-34 | The old header followed by the missing columns has every required column and starts with the old header. Nothing is missing exactly when every required column is present. |
| AuditLog.Fill | data_manager.py:33-34 | Missing columns get their default, and the other cells are kept. |
| AuditLog.DefaultValue | data_manager.py:34 | The default is `0` when the name contains `Hours` or `Walks`, and `False` otherwise. |
| AuditLog.CountDefault | data_manager.py:34 | Any column ending in `Hours` or `Walks` defaults to `0`. |
| AuditLog.CountColumnsDefaultToZero | data_manager.py:34 | `CPA_Hours`, `Tech_AI_Hours` and `Dog_Walks` default to `0`. |
| AuditLog.FlagDefault | data_manager.py:34 | A name without `H` or `W` defaults to `False`. |
| AuditLog.HabitColumnsDefaultToFalse | data_manager.py:34 | The eight flag columns default to `False`. |
| AuditLog.Upsert | data_manager.py:43-50 | The entry is the last row. No earlier row has its date, and the earlier rows are exactly the old rows with other dates. |
| AuditLog.UpsertKeepsOrder | data_manager.py:44 | Filtering respects concatenation, so the kept rows stay in their original order. |
| AuditLog.KeptOrder | data_manager.py:44 | Two kept rows appear in the old log in the same relative order. |
| AuditLog.UpsertNewDay | data_manager.py:43-50 | An entry for a new date is simply appended. |
| AuditLog.FilterMapKeepsAll | data_manager.py:44 | When no row has the entry's date, the filter keeps every row. |
| AuditLog.UpsertIdempotent | data_manager.py:40-51 | Saving the same entry twice is the same as saving it once. |
| AuditLog.UpsertKeepsDatesDistinct | data_manager.py:43-50 | A log with one row per date keeps that property after a save. |
| Streaks.CalculateStreaks | data_manager.py:64-128 | The keys are exactly CPA, Gym, Dog and Tech. An empty log gives zeros, and no streak exceeds the number of records dated up to today. |
| Streaks.StreakMeaning | data_manager.py:64-128 | With one record per day, each streak is the number of consecutive days, back from today (or from yesterday when today is not logged), on which the habit succeeded. |
| Streaks.StreakUnique | data_manager.py:123 | That number is unique. |
| Streaks.Scan | data_manager.py:96-126 | The count never exceeds the number of records dated up to today. |
| Streaks.ScanFromToday | data_manager.py:96-126 | The scan over the sorted log computes the streak of the reference definition. |
| Streaks.ScanFromRecent | data_manager.py:103-126 | When the newest record is from today or yesterday, the scan computes the reference streak. |
| Streaks.ScanAfter | data_manager.py:111-124 | After a counted day, the scan counts exactly the following run of consecutive successful days. |
| Streaks.ExtendRun | data_manager.py:117-118 | A success on the next older day extends the run by one day. |
| Streaks.SkipFuture | data_manager.py:99-101 | Records dated after today do not change the streak. |
| Streaks.StartsAtFirst | data_manager.py:104-110 | When the newest record is from today or yesterday, the streak starts there. |
| Streaks.FutureRecordIgnored | data_manager.py:99-101 | Adding a record dated after today leaves every streak unchanged. |
| Streaks.YesterdayCounts | data_manager.py:105-110 | When today is not logged, a success yesterday gives a streak of at least one. |
| Streaks.TwoDayGapBreaks | data_manager.py:107-109 | When neither today nor yesterday is logged, every streak is zero. |
| Streaks.DefaultsNeverSucceed | data_manager.py:81-84 | A column filled with its default never counts as a success. |
| Streaks.SortByDate | data_manager.py:73 | The result is sorted newest first and is a permutation of the log. |
| Streaks.InsertByDate | data_manager.py:73 | Inserting keeps the newest-first order and adds exactly the one record. |
| Streaks.SortedComparable | data_manager.py:73 | Sorting keeps every record comparable. |
| Streaks.DistinctDaysPermutation | data_manager.py:73 | Reordering keeps one record per day. |
| Streaks.SameRecords | data_manager.py:73 | The reference definition depends only on the multiset of records. |
| Streaks.SamePastSameStreak | data_manager.py:99-126 | Logs that agree on every day up to today have the same streaks. |
| Streaks.OnlyRecordOfItsDay | data_manager.py:117 | With one record per day, the habit was done on the newest day exactly when the newest record succeeds. |
| Streaks.NothingNewer | data_manager.py:96-101 | In a newest-first log, nothing is logged after the first record's day. |
| Streaks.DoneCons | data_manager.py:96 | A day is done or logged exactly when the first record or the rest says so. |
| App.Press | Personal_Growth_App.py:73-88 | A disabled button does nothing. Start records the start time and keeps the elapsed time. Pause adds the running time to the elapsed time, so it never decreases. Reset stops the timer and zeroes the elapsed time, leaving the start time untouched. |
| App.PressKeepsShownTime | Personal_Growth_App.py:56-82 | Start and Pause do not change the time shown at that moment. |
| App.PressKeepsSane | Personal_Growth_App.py:73-88 | Presses in time order keep the elapsed time non-negative and the start no later than now. |
| App.RunStaysSane | Personal_Growth_App.py:56-88 | Any sequence of presses in time order keeps the timer sane, and the shown time and hours non-negative. |
| App.InitialTimerSane | Personal_Growth_App.py:19-33 | A fresh timer is sane and shows zero. |
| App.Shown | Personal_Growth_App.py:56-60 | For a non-negative elapsed-plus-session time `x`, the shown total is the whole number of seconds `n` with `n ≤ x < n + 1`. For a negative `x` it is the integer with `n - 1 < x ≤ n`, as `int()` truncates toward zero. |
| App.Truncate | Personal_Growth_App.py:60 | `int()` truncates toward zero. |
| App.SplitHms | Personal_Growth_App.py:61-62 | `h·3600 + m·60 + s` equals the total, with `0 ≤ m, s < 60`. A non-negative total gives non-negative hours. |
| App.SplitHmsUnique | Personal_Growth_App.py:61-62 | That is the only such split. |
| App.GetQuote | Personal_Growth_App.py:36-50 | The quote is always one of the three quotes. |
| App.QuoteIgnoresKey | Personal_Growth_App.py:43-50 | The API key makes no difference. |
| App.QuotesCycle | Personal_Growth_App.py:47-50 | Quotes repeat every three days, and any three consecutive days show all of them. |
| App.IngredientsOf | Personal_Growth_App.py:250 | The result is the ingredient text of the first recipe with that name, or nothing when no recipe has it. |
| App.RecipeLines | Personal_Growth_App.py:251 | Each line is non-empty, stripped and newline-free. |
| App.RecipeLinesMembers | Personal_Growth_App.py:251 | A line comes out exactly when it is the stripped form of a part of the text whose stripped form is non-empty. |
| App.RecipeLinesOfJoin | Personal_Growth_App.py:251 | Joining clean lines with newlines and extracting again gives back the same lines. |
| App.KeepStrippedLines | Personal_Growth_App.py:251 | Non-empty stripped lines all survive the filter unchanged. |
| App.StrippedPartHasNoNewline | Personal_Growth_App.py:251 | Stripping a newline-free part keeps it newline-free. |
| App.GroceryLines | Personal_Growth_App.py:248-251 | The lookup fails (`IndexError`) exactly when some selected name has no recipe. Otherwise every line passed to the aggregator is non-empty, stripped and newline-free. |
| App.CollectLines | Personal_Growth_App.py:249-251 | Every collected line is non-empty, stripped and newline-free. |
| App.GroceryLinesConcat | Personal_Growth_App.py:249-251 | The lines follow the selection order, recipe by recipe. Two selections glued together fail exactly when one of them fails. |
| App.GroceryLinesOne | Personal_Growth_App.py:249-251 | A single selected meal gives the lines of its recipe text, or fails when the vault has no recipe of that name. |
| App.AllKnownConcat | Personal_Growth_App.py:249-250 | Every name of `a + b` is known exactly when every name of `a` and every name of `b` is. |
| App.CollectLinesConcat | Personal_Growth_App.py:249-251 | Collecting the lines of `a + b` gives the lines of `a` followed by those of `b`. |
| App.GroceryLinesNeverBlank | Personal_Growth_App.py:251 | When the lookups succeed, `parse_ingredient` never returns `None` on a grocery line. |
| App.DoneValue | Personal_Growth_App.py:202-203 | Each value is 0 or 1, and 1 whenever `Dog_Walks > 0`. |
| App.DoneIsTruth | Personal_Growth_App.py:202-203 | The value is 1 exactly when the cell is truthy. |
| App.RowCells | Personal_Growth_App.py:200-204 | Each record gives one cell per heatmap habit, in order, with its date and a 1 exactly for truthy cells. |
| App.HeatmapCells | Personal_Growth_App.py:196-204 | There are six cells per record, each 0 or 1. |
| App.HeatmapCellAt | Personal_Growth_App.py:199-204 | The cell for record `i` and habit `j` sits at position `6i + j`. |
| App.WalkedDogShowsDone | Personal_Growth_App.py:203 | A positive walk count shows `Dog_Walks` as done. |
| AiUtils.TranscribeAudio | ai_utils.py:6-39 | Without a key, the reply is `(None, "API Key missing.")`. Otherwise it is the service's text or its error, never both. |
| AiUtils.ParseWorkoutText | ai_utils.py:41-83 | Without a key, the reply is `(None, "API Key missing.")`. There is no error exactly when the service answered and the decoder accepted the fence-stripped answer, and then the data is what the decoder returned, `None` for a JSON `null`. A service or decoder failure is passed on as the error, with no data. |
| AiUtils.KeyGuardComesFirst | ai_utils.py:46-47 | Without a key, the reply does not depend on the services at all. |
| AiUtils.FromOutcome | ai_utils.py:80-83 | Success gives `(value, None)` and an exception gives `(None, str(e))`, exactly one of the two. |
| AiUtils.StripFences | ai_utils.py:75-78 | The result occurs in the content and contains no triple backtick. |
| AiUtils.JsonFenceContents | ai_utils.py:75-76 | With a `json` fence, the result is the text after its first occurrence, up to the next triple backtick. |
| AiUtils.PlainFenceContents | ai_utils.py:77-78 | Without a `json` fence but with a plain one, the result is the text between the first and second fences, or to the end. |
| AiUtils.NoFenceUnchanged | ai_utils.py:75-78 | Content without a fence is returned unchanged. |
| AiUtils.StripFencesIdempotent | ai_utils.py:75-78 | Stripping twice is stripping once. |
| AiUtils.JsonFenceHasFence | ai_utils.py:75-77 | Content holding a `json` fence also holds a plain fence. |
| AiUtils.UpToFenceBeforeJson | ai_utils.py:76 | Cutting at the first `json` fence does not move the first plain fence. |
| AiUtils.FenceNotInsideJsonFence | ai_utils.py:76 | The first plain fence either starts the first `json` fence or ends before it. |
| Text.Strip | data_manager.py:135 | The result has no surrounding whitespace, sits in the input with only whitespace around it, and is empty exactly for all-whitespace input. |
| Text.StripIdempotent | data_manager.py:135 | Stripping twice is stripping once. |
| Text.Lower | data_manager.py:135 | The result has the same length and no upper-case letters. It keeps every other character and every character class. |
| Text.Split | ai_utils.py:76 | The parts join back to the input and contain no separator. There is one part exactly when the separator does not occur. |
| Text.SplitOfJoin | Personal_Growth_App.py:251 | Splitting separator-free parts joined by a one-character separator gives back the parts. |
| Text.IndexOf | ai_utils.py:75-78 | The first occurrence of the pattern, or nothing exactly when there is no occurrence. |

## Left out

- Reading and writing CSV files, `os.path.isfile` and `to_csv`. The file is an optional frame and a `rewritten` flag, and pandas type inference is not modelled.
- The clock (`pd.to_datetime("today")`, `time.time()`, `date.today()`) is passed in as `today`, `now` and `day`. Date parsing and day normalisation are not modelled: records carry a day number.
- Streamlit rendering, `st.rerun`, `time.sleep`, Plotly charts and the `{hours:02d}` display formatting. Session state is the explicit `Timer` record.
- The recipe search at Personal_Growth_App.py:230, which relies on the regular-expression matching of pandas `str.contains`.
- The Gemini calls and `json.loads` are function parameters. The prompt text is not modelled.
- The `{qty:g}` rendering is an abstract `fmt`, and quantities are exact reals. Six-significant-digit output, binary floating-point rounding and summation order are not modelled. This is why `Aggregation.RenderParsesBack` assumes `fmt` writes whole numbers in decimal.
- Unicode `\d`, `\s`, `str.isspace` and `str.lower`: the character classes are the ASCII ones.
- The mutation of the caller's `Date` column at data_manager.py:72. Records carry their day directly.
- The order pandas gives to records with equal dates. The streak lemmas assume one record per day, which `AuditLog.UpsertKeepsDatesDistinct` shows saving maintains.
- NaN cells and the `Date` column filled with `False` when it is missing. The model treats `Date` like any other flag column, as the code does.
- Streaks.CalculateStreaks: requires every record to hold the four habit columns, with no text in the three `> 0` columns. Python raises only if the scan reaches such a record; the model requires it of every record.
- App.DoneValue: requires `Dog_Walks` not to be text, since `row[habit] > 0` would raise `TypeError`.
- AiUtils.JsonFenceContents: requires that the text after the first `json` fence does not contain four backticks followed by `json`. For the content `` ```jsona````json ``, the code returns `a` followed by one backtick rather than `a`, because its split at the second `json` fence cuts one backtick early. The unqualified claim does not hold there.
- Streaks.StreakMeaning: assumes one record per day. With two records on one day, the code counts both.
