/**
 * Python string primitives the application relies on, restricted to ASCII:
 * the character classes of its regular expressions, `str.strip`, `str.lower`,
 * the `in` substring test and `str.split` with an explicit separator.
 */
module Text {
  import opened Wrappers

  /** `\d`, ASCII only. */
  predicate IsDigit(c: char) { '0' <= c <= '9' }

  /** `[a-zA-Z]`. */
  predicate IsLetter(c: char) { 'a' <= c <= 'z' || 'A' <= c <= 'Z' }

  predicate IsUpper(c: char) { 'A' <= c <= 'Z' }

  /** `\s` and `str.isspace` on ASCII: HT, LF, VT, FF, CR, the four separators FS..US, and space. */
  predicate IsSpace(c: char) { c == ' ' || '\t' <= c <= '\r' || '\U{1C}' <= c <= '\U{1F}' }

  /** The regular-expression `.`, which does not match a newline. */
  predicate NotNewline(c: char) { c != '\n' }

  predicate All(s: string, p: char -> bool) { forall k :: 0 <= k < |s| ==> p(s[k]) }

  /** Every character of `s[i..j]` satisfies `p`. */
  predicate AllIn(s: string, i: nat, j: nat, p: char -> bool)
    requires i <= j <= |s|
  {
    forall k :: i <= k < j ==> p(s[k])
  }

  /** `All` on a slice is `AllIn` on the whole. */
  lemma AllInOfSlice(s: string, i: nat, j: nat, p: char -> bool)
    requires i <= j <= |s| && All(s[i..j], p)
    ensures AllIn(s, i, j, p)
  {
    forall k | i <= k < j ensures p(s[k]) {
      assert s[i..j][k - i] == s[k];
    }
  }

  /** End of the longest run of characters satisfying `p` that starts at `i`. */
  function Span(s: string, i: nat, p: char -> bool): (j: nat)
    requires i <= |s|
    ensures i <= j <= |s|
    ensures forall k :: i <= k < j ==> p(s[k])
    ensures j == |s| || !p(s[j])
    decreases |s| - i
  {
    if i == |s| || !p(s[i]) then i else Span(s, i + 1, p)
  }

  /** A run of `p` characters that cannot be extended is the one `Span` finds. */
  lemma SpanOfMaximalRun(s: string, i: nat, j: nat, p: char -> bool)
    requires i <= j <= |s|
    requires AllIn(s, i, j, p)
    requires j == |s| || !p(s[j])
    ensures Span(s, i, p) == j
  {
  }

  /** No run of `p` characters from `i` reaches past the one `Span` finds. */
  lemma SpanCovers(s: string, i: nat, j: nat, p: char -> bool)
    requires i <= j <= |s|
    requires AllIn(s, i, j, p)
    ensures j <= Span(s, i, p)
  {
  }

  // ---------------------------------------------------------------- strip

  /** No leading and no trailing whitespace. */
  predicate Stripped(s: string) { |s| == 0 || (!IsSpace(s[0]) && !IsSpace(s[|s| - 1])) }

  /** `r` sits at offset `i` of `s` with nothing but whitespace around it. */
  ghost predicate StripsTo(s: string, i: nat, r: string) {
    && i + |r| <= |s|
    && s[i..i + |r|] == r
    && All(s[..i], IsSpace)
    && All(s[i + |r|..], IsSpace)
  }

  function TrimEnd(s: string): (r: string)
    ensures |r| <= |s| && r == s[..|r|]
    ensures All(s[|r|..], IsSpace)
    ensures |r| == 0 || !IsSpace(r[|r| - 1])
  {
    if |s| > 0 && IsSpace(s[|s| - 1]) then
      var r := TrimEnd(s[..|s| - 1]);
      assert s[..|s| - 1][..|r|] == s[..|r|];
      assert s[|r|..] == s[..|s| - 1][|r|..] + [s[|s| - 1]];
      r
    else s
  }

  /** `str.strip()` with no argument. */
  function Strip(s: string): (r: string)
    ensures Stripped(r)
    ensures exists i :: StripsTo(s, i, r)
    ensures |r| == 0 <==> All(s, IsSpace)
  {
    var a := Span(s, 0, IsSpace);
    var r := TrimEnd(s[a..]);
    assert s[a..][..|r|] == s[a..a + |r|];
    assert StripsTo(s, a, r);
    assert |r| == 0 ==> a == |s| by {
      assert a < |s| ==> s[a..][0] == s[a];
    }
    r
  }

  /** The stripped string is a piece of the original. */
  lemma StripOccurs(s: string)
    ensures Occurs(s, Strip(s))
  {
    var i: nat :| StripsTo(s, i, Strip(s));
    assert OccursAt(s, Strip(s), i);
  }

  lemma StripOfStripped(s: string)
    requires Stripped(s)
    ensures Strip(s) == s
  {
    if |s| > 0 {
      assert Span(s, 0, IsSpace) == 0;
      assert s[0..] == s;
    }
  }

  lemma StripIdempotent(s: string)
    ensures Strip(Strip(s)) == Strip(s)
  {
    StripOfStripped(Strip(s));
  }

  // ---------------------------------------------------------------- lower

  function LowerChar(c: char): char
  {
    if IsUpper(c) then (c as int + 32) as char else c
  }

  /** `str.lower()`, which on ASCII only touches `A`..`Z`. */
  function Lower(s: string): (r: string)
    ensures |r| == |s|
    ensures forall k :: 0 <= k < |s| ==> !IsUpper(r[k])
    ensures forall k :: 0 <= k < |s| && !IsUpper(s[k]) ==> r[k] == s[k]
    ensures forall k :: 0 <= k < |s| ==>
      && (IsLetter(r[k]) <==> IsLetter(s[k]))
      && (IsDigit(r[k]) <==> IsDigit(s[k]))
      && (IsSpace(r[k]) <==> IsSpace(s[k]))
  {
    seq(|s|, k requires 0 <= k < |s| => LowerChar(s[k]))
  }

  lemma LowerOfLower(s: string)
    requires forall k :: 0 <= k < |s| ==> !IsUpper(s[k])
    ensures Lower(s) == s
  {
  }

  // ---------------------------------------------------------------- search

  predicate OccursAt(s: string, pat: string, k: nat) {
    k + |pat| <= |s| && s[k..k + |pat|] == pat
  }

  /** `pat in s`, as a statement about positions. */
  ghost predicate Occurs(s: string, pat: string) {
    exists k :: OccursAt(s, pat, k)
  }

  function IndexFrom(s: string, pat: string, k: nat): (r: Option<nat>)
    requires k <= |s|
    ensures r.Some? ==> k <= r.value && OccursAt(s, pat, r.value)
    ensures forall j :: k <= j && (r.None? || j < r.value) ==> !OccursAt(s, pat, j)
    decreases |s| - k
  {
    if k + |pat| > |s| then None
    else if OccursAt(s, pat, k) then Some(k)
    else IndexFrom(s, pat, k + 1)
  }

  /** `str.find`: the first position where `pat` occurs. */
  function IndexOf(s: string, pat: string): (r: Option<nat>)
    ensures r.Some? ==> OccursAt(s, pat, r.value)
    ensures r.Some? ==> forall j :: 0 <= j < r.value ==> !OccursAt(s, pat, j)
    ensures r.None? <==> !Occurs(s, pat)
  {
    IndexFrom(s, pat, 0)
  }

  /** The first occurrence is the one with none before it. */
  lemma IndexOfFirst(s: string, pat: string, j: nat)
    requires OccursAt(s, pat, j)
    requires forall m :: 0 <= m < j ==> !OccursAt(s, pat, m)
    ensures IndexOf(s, pat) == Some(j)
  {
  }

  /** The `in` operator on strings. */
  predicate Contains(s: string, pat: string) { IndexOf(s, pat).Some? }

  lemma OccursTransitive(s: string, t: string, u: string)
    requires Occurs(s, t) && Occurs(t, u)
    ensures Occurs(s, u)
  {
    var i: nat :| OccursAt(s, t, i);
    var j: nat :| OccursAt(t, u, j);
    forall m | 0 <= m < |u| ensures s[i + j + m] == u[m] {
      assert u[m] == t[j..j + |u|][m] == t[j + m];
      assert t[j + m] == s[i..i + |t|][j + m];
    }
    assert s[i + j..i + j + |u|] == u;
    assert OccursAt(s, u, i + j);
  }

  lemma PrefixOccurs(s: string, t: string, k: nat)
    requires k <= |s|
    requires Occurs(s[..k], t)
    ensures Occurs(s, t)
  {
    var j: nat :| OccursAt(s[..k], t, j);
    assert s[..k][j..j + |t|] == s[j..j + |t|];
    assert OccursAt(s, t, j);
  }

  lemma SuffixOccurs(s: string, t: string, k: nat)
    requires k <= |s|
    requires Occurs(s[k..], t)
    ensures Occurs(s, t)
  {
    var j: nat :| OccursAt(s[k..], t, j);
    assert s[k..][j..j + |t|] == s[k + j..k + j + |t|];
    assert OccursAt(s, t, k + j);
  }

  lemma OccursInItself(s: string)
    ensures Occurs(s, s)
  {
    assert s[0..|s|] == s;
    assert OccursAt(s, s, 0);
  }

  // ---------------------------------------------------------------- split

  /** Inverse of `Split`: the parts glued back with the separator between them. */
  function Join(parts: seq<string>, sep: string): string
    requires |parts| >= 1
  {
    if |parts| == 1 then parts[0] else parts[0] + sep + Join(parts[1..], sep)
  }

  /** The text before the first occurrence of `sep` holds no occurrence of it. */
  lemma BeforeFirstIsFree(s: string, sep: string, i: nat)
    requires |sep| > 0
    requires IndexOf(s, sep) == Some(i)
    ensures !Occurs(s[..i], sep)
  {
    forall j: nat ensures !OccursAt(s[..i], sep, j) {
      if j + |sep| <= i {
        assert s[..i][j..j + |sep|] == s[j..j + |sep|];
        assert !OccursAt(s, sep, j);
      }
    }
  }

  /** `str.split(sep)` with a non-empty separator, scanning left to right. */
  function Split(s: string, sep: string): (r: seq<string>)
    requires |sep| > 0
    ensures |r| >= 1
    ensures Join(r, sep) == s
    ensures forall k :: 0 <= k < |r| ==> !Occurs(r[k], sep)
    ensures forall k :: 0 <= k < |r| ==> Occurs(s, r[k])
    ensures |r| == 1 <==> !Occurs(s, sep)
    decreases |s|
  {
    match IndexOf(s, sep)
    case None =>
      OccursInItself(s);
      [s]
    case Some(i) =>
      SplitAround(s, sep, i);
      [s[..i]] + Split(s[i + |sep|..], sep)
  }

  /** Cutting `s` at the first occurrence of `sep`. */
  lemma SplitAround(s: string, sep: string, i: nat)
    requires |sep| > 0
    requires IndexOf(s, sep) == Some(i)
    ensures s[..i] + sep + s[i + |sep|..] == s
    ensures !Occurs(s[..i], sep)
    ensures Occurs(s, s[..i]) && Occurs(s, sep)
    ensures forall t :: Occurs(s[i + |sep|..], t) ==> Occurs(s, t)
  {
    BeforeFirstIsFree(s, sep, i);
    assert s[i..i + |sep|] == sep;
    assert OccursAt(s, s[..i], 0);
    forall t | Occurs(s[i + |sep|..], t) ensures Occurs(s, t) {
      SuffixOccurs(s, t, i + |sep|);
    }
  }

  /** Splitting parts joined by a one-character separator they do not hold gives the parts back. */
  lemma {:induction false} SplitOfJoin(parts: seq<string>, sep: string)
    requires |parts| >= 1 && |sep| == 1
    requires forall k :: 0 <= k < |parts| ==> !Occurs(parts[k], sep)
    ensures Split(Join(parts, sep), sep) == parts
    decreases |parts|
  {
    var s := Join(parts, sep);
    if |parts| == 1 {
      assert IndexOf(s, sep).None?;
    } else {
      var p := parts[0];
      assert s == p + sep + Join(parts[1..], sep);
      assert OccursAt(s, sep, |p|) by {
        assert s[|p|..|p| + 1] == sep;
      }
      forall m | 0 <= m < |p| ensures !OccursAt(s, sep, m) {
        assert s[m..m + 1] == p[m..m + 1];
        assert !OccursAt(p, sep, m);
      }
      IndexOfFirst(s, sep, |p|);
      assert s[..|p|] == p;
      assert s[|p| + 1..] == Join(parts[1..], sep);
      SplitOfJoin(parts[1..], sep);
      assert parts == [p] + parts[1..];
    }
  }

  /** The part of `s` after the first occurrence of `sep`, up to the second one or the end. */
  lemma SplitSecondPart(s: string, sep: string, i: nat)
    requires |sep| > 0
    requires IndexOf(s, sep) == Some(i)
    ensures |Split(s, sep)| >= 2
    ensures Split(s, sep)[0] == s[..i]
    ensures Split(s, sep)[1] == Split(s[i + |sep|..], sep)[0]
  {
  }

  /** The first part of the split is the text before the first occurrence, or all of it. */
  lemma SplitFirstPart(s: string, sep: string)
    requires |sep| > 0
    ensures IndexOf(s, sep).None? ==> Split(s, sep)[0] == s
    ensures IndexOf(s, sep).Some? ==> Split(s, sep)[0] == s[..IndexOf(s, sep).value]
  {
  }
}
