/**
 * The pure parts of ai_utils.py: the early return on a missing API key, the
 * conversion of service failures into an error message, and the removal of a
 * Markdown code fence around the model's JSON answer. The speech and language
 * services and the JSON decoder are passed in as functions.
 */
module AiUtils {
  import opened Wrappers
  import opened Text

  /** `not api_key`: no key, or the empty string. */
  predicate KeyMissing(key: Option<string>) {
    key.None? || |key.value| == 0
  }

  const KeyMissingMessage: string := "API Key missing."

  /** The `(data, error)` pair both functions return. */
  datatype Reply<T> = Reply(data: Option<T>, error: Option<string>)

  /** `(value, None)` on success, `(None, str(e))` when the call raised `e`. */
  function FromOutcome<T>(outcome: Result<T, string>): (r: Reply<T>)
    ensures r.data.Some? <==> outcome.Ok?
    ensures r.data.Some? != r.error.Some?
    ensures outcome.Ok? ==> r.data == Some(outcome.value)
    ensures outcome.Err? ==> r.error == Some(outcome.error)
  {
    match outcome
    case Ok(v) => Reply(Some(v), None)
    case Err(e) => Reply(None, Some(e))
  }

  /** `transcribe_audio`, with the speech service as `transcribe(key, audio)`. */
  function TranscribeAudio<A>(audio: A, key: Option<string>, transcribe: (string, A) -> Result<string, string>): (r: Reply<string>)
    ensures KeyMissing(key) ==> r == Reply(None, Some(KeyMissingMessage))
    ensures !KeyMissing(key) ==> r == FromOutcome(transcribe(key.value, audio))
    ensures r.data.Some? != r.error.Some?
  {
    if KeyMissing(key) then Reply(None, Some(KeyMissingMessage))
    else FromOutcome(transcribe(key.value, audio))
  }

  /**
   * `parse_workout_text`, with the language model as `generate(key, text)` (its
   * answer to the extraction prompt about `text`) and `json.loads` as `decode`.
   * `decode` gives `None` for the JSON literal `null`, so a successful call can
   * still return `(None, None)`.
   */
  function ParseWorkoutText<J>(text: string, key: Option<string>,
                               generate: (string, string) -> Result<string, string>,
                               decode: string -> Result<Option<J>, string>): (r: Reply<J>)
    ensures KeyMissing(key) ==> r == Reply(None, Some(KeyMissingMessage))
    ensures r.error.Some? ==> r.data.None?
    ensures r.error.None? <==>
      !KeyMissing(key) && generate(key.value, text).Ok? &&
      decode(StripFences(generate(key.value, text).value)).Ok?
    ensures r.error.None? ==> decode(StripFences(generate(key.value, text).value)) == Ok(r.data)
    ensures !KeyMissing(key) && generate(key.value, text).Err? ==>
      r.error == Some(generate(key.value, text).error)
    ensures (!KeyMissing(key) && generate(key.value, text).Ok? &&
             decode(StripFences(generate(key.value, text).value)).Err?) ==>
      r.error == Some(decode(StripFences(generate(key.value, text).value)).error)
  {
    if KeyMissing(key) then Reply(None, Some(KeyMissingMessage))
    else
      match generate(key.value, text)
      case Err(e) => Reply(None, Some(e))
      case Ok(content) =>
        match decode(StripFences(content))
        case Ok(data) => Reply(data, None)
        case Err(e) => Reply(None, Some(e))
  }

  /** Without a key neither service is consulted: any other services give the same reply. */
  lemma KeyGuardComesFirst<A, J>(audio: A, text: string, key: Option<string>,
                                 t1: (string, A) -> Result<string, string>, t2: (string, A) -> Result<string, string>,
                                 g1: (string, string) -> Result<string, string>, g2: (string, string) -> Result<string, string>,
                                 d1: string -> Result<Option<J>, string>, d2: string -> Result<Option<J>, string>)
    requires KeyMissing(key)
    ensures TranscribeAudio(audio, key, t1) == TranscribeAudio(audio, key, t2)
    ensures ParseWorkoutText(text, key, g1, d1) == ParseWorkoutText(text, key, g2, d2)
  {
  }

  // ---------------------------------------------------------------- fence stripping

  const Fence: string := "```"
  const JsonFence: string := "```json"

  /** The clean-up of the model's answer before it is decoded. */
  function StripFences(content: string): (r: string)
    ensures !Occurs(r, Fence)
    ensures Occurs(content, r)
  {
    if Contains(content, JsonFence) then
      var inner := Split(content, JsonFence)[1];
      var r := Split(inner, Fence)[0];
      OccursTransitive(content, inner, r);
      r
    else if Contains(content, Fence) then
      var inner := Split(content, Fence)[1];
      var r := Split(inner, Fence)[0];
      OccursTransitive(content, inner, r);
      r
    else
      OccursInItself(content);
      content
  }

  /** A fence marker with `json` after it holds a plain fence marker. */
  lemma JsonFenceHasFence(s: string)
    requires Occurs(s, JsonFence)
    ensures Occurs(s, Fence)
  {
    var k: nat :| OccursAt(s, JsonFence, k);
    assert s[k..k + 3] == s[k..k + 7][..3];
    assert OccursAt(s, Fence, k);
  }

  /** Content without a fence is handed on unchanged. */
  lemma NoFenceUnchanged(content: string)
    requires !Occurs(content, Fence)
    ensures StripFences(content) == content
  {
    if Occurs(content, JsonFence) {
      JsonFenceHasFence(content);
    }
  }

  /** Stripping a second time changes nothing. */
  lemma StripFencesIdempotent(content: string)
    ensures StripFences(StripFences(content)) == StripFences(content)
  {
    NoFenceUnchanged(StripFences(content));
  }

  /** The first occurrence of `pat` in `s` lies inside `s[..k]`, so it is the first one there too. */
  lemma IndexInPrefix(s: string, pat: string, k: nat, j: nat)
    requires IndexOf(s, pat) == Some(j) && j + |pat| <= k <= |s|
    ensures IndexOf(s[..k], pat) == Some(j)
  {
    assert s[..k][j..j + |pat|] == s[j..j + |pat|];
    forall m | 0 <= m < j ensures !OccursAt(s[..k], pat, m) {
      if m + |pat| <= k {
        assert s[..k][m..m + |pat|] == s[m..m + |pat|];
        assert !OccursAt(s, pat, m);
      }
    }
    IndexOfFirst(s[..k], pat, j);
  }

  /** When no occurrence of `pat` in `s` ends by `k`, none occurs in `s[..k]`. */
  lemma NoIndexInPrefix(s: string, pat: string, k: nat)
    requires k <= |s|
    requires IndexOf(s, pat).None? || IndexOf(s, pat).value + |pat| > k
    ensures IndexOf(s[..k], pat).None?
  {
    forall m: nat ensures !OccursAt(s[..k], pat, m) {
      if m + |pat| <= k {
        assert s[..k][m..m + |pat|] == s[m..m + |pat|];
        assert !OccursAt(s, pat, m);
      }
    }
  }

  /**
   * Cutting `s` before its first `json` fence does not move its first plain
   * fence, unless that fence runs into the `json` one (four or more backticks
   * in a row before `json`).
   */
  lemma UpToFenceBeforeJson(s: string, p: nat)
    requires IndexOf(s, JsonFence) == Some(p)
    requires !Occurs(s, "````json")
    ensures Split(s[..p], Fence)[0] == Split(s, Fence)[0]
  {
    SplitFirstPart(s, Fence);
    SplitFirstPart(s[..p], Fence);
    assert OccursAt(s, Fence, p) by {
      assert s[p..p + 3] == s[p..p + 7][..3];
    }
    var j := IndexOf(s, Fence).value;
    FenceNotInsideJsonFence(s, p, j);
    if j + 3 <= p {
      IndexInPrefix(s, Fence, p, j);
      assert s[..p][..j] == s[..j];
    } else {
      NoIndexInPrefix(s, Fence, p);
      assert s[..p] == s[..j];
    }
  }

  /** The first plain fence either starts the first `json` fence or ends before it. */
  lemma FenceNotInsideJsonFence(s: string, p: nat, j: nat)
    requires OccursAt(s, JsonFence, p)
    requires OccursAt(s, Fence, j) && j <= p
    requires !Occurs(s, "````json")
    ensures j == p || j + 3 <= p
  {
    if j < p < j + 3 {
      assert s[p - 1] == '`' by {
        assert s[j..j + 3][p - 1 - j] == s[p - 1];
      }
      assert s[p - 1..p + 7] == [s[p - 1]] + s[p..p + 7];
      assert "````json" == "`" + JsonFence;
      assert OccursAt(s, "````json", p - 1);
    }
  }

  /**
   * With a `json` fence: the text after its first occurrence, up to the next
   * plain fence or the end.
   */
  lemma JsonFenceContents(content: string, i: nat)
    requires IndexOf(content, JsonFence) == Some(i)
    requires !Occurs(content[i + 7..], "````json")
    ensures StripFences(content) == Split(content[i + 7..], Fence)[0]
  {
    var rest := content[i + 7..];
    SplitSecondPart(content, JsonFence, i);
    SplitFirstPart(rest, JsonFence);
    match IndexOf(rest, JsonFence)
    case None =>
    case Some(p) => UpToFenceBeforeJson(rest, p);
  }

  /**
   * Without a `json` fence but with a plain one: the text between the first and
   * the second fence, or to the end.
   */
  lemma PlainFenceContents(content: string, i: nat)
    requires !Occurs(content, JsonFence)
    requires IndexOf(content, Fence) == Some(i)
    ensures StripFences(content) == Split(content[i + 3..], Fence)[0]
  {
    SplitSecondPart(content, Fence, i);
  }
}
