/** Script generation (utility/script/script_generator.py): the API-key
    check and the repairs and fallbacks applied to the model's answer. */
module Script {

  import opened PyValues
  import opened Text

  // ---------------------------------------------------------------------
  // validate_groq_api

  const NoKeyMessage := "No valid Groq API key provided. Please set GROQ_API_KEY environment variable."

  /** The pair `(is_valid, key_or_message)`. */
  datatype KeyCheck = KeyCheck(valid: bool, detail: string)

  /** `validate_groq_api` with the environment variable as input (`None`
      when unset): a key is accepted exactly when it is longer than 30
      characters, and is then handed back. */
  function ValidateGroqApi(key: Option<string>): (r: KeyCheck)
    ensures r.valid <==> key.Some? && |key.value| > 30
    ensures r.valid ==> r.detail == key.value
    ensures !r.valid ==> r.detail == NoKeyMessage
  {
    match key
    case None => KeyCheck(false, NoKeyMessage)
    case Some(k) => if |k| == 0 || |k| <= 30 then KeyCheck(false, NoKeyMessage) else KeyCheck(true, k)
  }

  // ---------------------------------------------------------------------
  // fix_json_response

  /** Raw line breaks become the two-character escapes `\n` and `\r`. */
  function EscapeBreaks(s: string): (r: string)
    ensures '\n' !in r && '\r' !in r
  {
    var a := Replace(s, "\n", "\\n");
    ReplaceRemovesChar(s, '\n', "\\n");
    ReplaceRemovesChar(a, '\r', "\\r");
    assert forall c :: c in Replace(a, "\r", "\\r") ==> c in a || c in "\\r";
    Replace(a, "\r", "\\r")
  }

  /** What `fix_json_response` makes of the escaped, stripped text `t`:
      the slice from the first `{` to the last `}` when both occur in that
      order, empty when the last `}` comes before the first `{`, and `t`
      itself when either brace is missing. */
  predicate BraceCases(t: string, r: string) {
    && ('{' in t && '}' in t && Find(t, '{') < RFind(t, '}') ==>
          |r| >= 2 && r[0] == '{' && r[|r| - 1] == '}' && r == t[Find(t, '{')..RFind(t, '}') + 1])
    && ('{' in t && '}' in t && RFind(t, '}') < Find(t, '{') ==> r == [])
    && ('{' !in t || '}' !in t ==> r == t)
  }

  /** Python's `t[t.find('{'):t.rfind('}') + 1]` when both braces occur. */
  function BraceSlice(t: string): (r: string)
    ensures BraceCases(t, r)
    ensures forall c :: c in r ==> c in t
  {
    var a := Find(t, '{');
    var b := RFind(t, '}');
    if a != -1 && b != -1 then Slice(t, a, b + 1) else t
  }

  /** `fix_json_response`: an empty answer is returned as is; otherwise
      the brace slice of the answer with its line breaks escaped and its
      surrounding whitespace stripped. */
  function FixJsonResponse(s: string): (r: string)
    ensures |s| == 0 ==> r == s
    ensures |s| > 0 ==> '\n' !in r && '\r' !in r
    ensures |s| > 0 ==> BraceCases(Strip(EscapeBreaks(s)), r)
  {
    if |s| == 0 then s
    else
      StripChars(EscapeBreaks(s));
      BraceSlice(Strip(EscapeBreaks(s)))
  }

  /** A non-empty text without line breaks or surrounding whitespace that
      is its own brace slice is left alone. */
  lemma FixJsonResponseFixed(r: string)
    requires |r| > 0 && '\n' !in r && '\r' !in r
    requires Strip(r) == r && BraceSlice(r) == r
    ensures FixJsonResponse(r) == r
  {
    ReplaceAbsentChar(r, '\n', "\\n");
    ReplaceAbsentChar(r, '\r', "\\r");
    assert EscapeBreaks(r) == r;
  }

  /** Repairing a repaired answer changes nothing. */
  lemma FixJsonResponseIdempotent(s: string)
    ensures FixJsonResponse(FixJsonResponse(s)) == FixJsonResponse(s)
  {
    var r := FixJsonResponse(s);
    if |r| > 0 {
      var t := Strip(EscapeBreaks(s));
      if '{' in t && '}' in t && Find(t, '{') < RFind(t, '}') {
        StripNoEdgeSpace(r);
        assert Find(r, '{') == 0;
        assert RFind(r, '}') == |r| - 1;
      } else {
        StripStrip(EscapeBreaks(s));
      }
      FixJsonResponseFixed(r);
    }
  }

  // ---------------------------------------------------------------------
  // The last-resort extraction `re.search(r'"script":\s*"([^"]+)"', content)`

  const ScriptKey := "\"script\":"

  /** The first index at or after `i` that is not whitespace. */
  function SkipSpace(s: string, i: nat): (r: nat)
    requires i <= |s|
    ensures i <= r <= |s|
    ensures forall k :: i <= k < r ==> IsSpace(s[k])
    ensures r < |s| ==> !IsSpace(s[r])
    decreases |s| - i
  {
    if i == |s| || !IsSpace(s[i]) then i else SkipSpace(s, i + 1)
  }

  /** The first `"` at or after `i`, or -1. */
  function QuoteFrom(s: string, i: nat): (r: int)
    requires i <= |s|
    ensures r == -1 || (i <= r < |s| && s[r] == '"')
    ensures r == -1 ==> forall k :: i <= k < |s| ==> s[k] != '"'
    ensures r >= 0 ==> forall k :: i <= k < r ==> s[k] != '"'
    decreases |s| - i
  {
    if i == |s| then -1 else if s[i] == '"' then i else QuoteFrom(s, i + 1)
  }

  /** The group the pattern captures when a match starts at `p`.  The
      greedy `\s*` and `[^"]+` never need to give characters back: what
      follows them must be a `"`, which neither of them consumes. */
  function MatchAt(s: string, p: nat): (r: Option<string>)
    requires p <= |s|
    ensures r.Some? ==> |r.value| > 0 && '"' !in r.value
  {
    if !OccursAt(s, ScriptKey, p) then None
    else
      var q := SkipSpace(s, p + |ScriptKey|);
      if q == |s| || s[q] != '"' then None
      else
        var e := QuoteFrom(s, q + 1);
        if e <= q + 1 then None else Some(s[q + 1..e])
  }

  /** `k` is the first index from `p` on where the pattern matches. */
  predicate LeftmostMatch(s: string, p: nat, k: nat) {
    && p <= k <= |s| && MatchAt(s, k).Some?
    && forall j :: p <= j < k ==> MatchAt(s, j).None?
  }

  /** The leftmost match from index `p` on. */
  function SearchFrom(s: string, p: nat): (r: Option<string>)
    requires p <= |s|
    ensures r.Some? ==> |r.value| > 0 && '"' !in r.value
    ensures r.Some? <==> exists k :: p <= k <= |s| && MatchAt(s, k).Some?
    ensures r.Some? ==> exists k :: p <= k <= |s| && MatchAt(s, k) == r
    decreases |s| - p
  {
    if MatchAt(s, p).Some? then MatchAt(s, p)
    else if p == |s| then None
    else
      var r := SearchFrom(s, p + 1);
      assert (exists k :: p <= k <= |s| && MatchAt(s, k).Some?) ==> exists k :: p + 1 <= k <= |s| && MatchAt(s, k).Some?;
      r
  }

  /** The search returns the group of the first position that matches. */
  lemma {:induction false} SearchFromLeftmost(s: string, p: nat)
    requires p <= |s|
    ensures SearchFrom(s, p).Some? ==> exists k :: LeftmostMatch(s, p, k) && MatchAt(s, k) == SearchFrom(s, p)
    decreases |s| - p
  {
    if MatchAt(s, p).Some? {
      assert LeftmostMatch(s, p, p);
    } else if p < |s| {
      SearchFromLeftmost(s, p + 1);
      if SearchFrom(s, p + 1).Some? {
        var k :| LeftmostMatch(s, p + 1, k) && MatchAt(s, k) == SearchFrom(s, p + 1);
        assert LeftmostMatch(s, p, k);
      }
    }
  }

  /** `re.search(...).group(1)`, or `None` without a match: the group of
      the leftmost match, a non-empty script without any `"`. */
  function ExtractScript(content: string): (r: Option<string>)
    ensures r.Some? ==> |r.value| > 0 && '"' !in r.value
    ensures r.Some? <==> exists k :: 0 <= k <= |content| && MatchAt(content, k).Some?
    ensures r.Some? ==> exists k :: LeftmostMatch(content, 0, k) && MatchAt(content, k) == r
  {
    SearchFromLeftmost(content, 0);
    SearchFrom(content, 0)
  }

  /** A script written as `"script": "<text>"` at the start of the answer
      is recovered exactly. */
  lemma ExtractScriptRoundTrip(x: string, rest: string)
    requires |x| > 0 && '"' !in x
    ensures ExtractScript(ScriptKey + " \"" + x + "\"" + rest) == Some(x)
  {
    var s := ScriptKey + " \"" + x + "\"" + rest;
    assert s[..|ScriptKey|] == ScriptKey;
    assert OccursAt(s, ScriptKey, 0);
    assert s[9] == ' ' && s[10] == '"';
    assert SkipSpace(s, 10) == 10;
    assert SkipSpace(s, 9) == 10;
    assert forall k :: 11 <= k < 11 + |x| ==> s[k] == x[k - 11];
    assert s[11 + |x|] == '"';
    assert QuoteFrom(s, 11) == 11 + |x|;
    assert s[11..11 + |x|] == x;
  }

  // ---------------------------------------------------------------------
  // The decision chain of generate_script after the model has answered

  /** What `json.loads(text)` followed by `.get("script", "")` gives: a
      decoding error, a value without `.get` (not an object), or the
      script field (`Str("")` when absent). */
  datatype Loaded = DecodeError | NotObject | Object(script: Value)

  /** The first fallback after a decoding error: the script of the
      repaired answer, when that decodes to an object whose script is
      truthy. */
  function RepairedScript(content: string, load: string -> Loaded): (r: Option<Value>)
    ensures r.Some? ==> Truthy(r.value)
  {
    match load(FixJsonResponse(content))
    case Object(v) => if Truthy(v) then Some(v) else None
    case _ => None
  }

  /** The script `generate_script` returns for the model's answer
      `content`, with `json.loads` as the oracle `load`.  A well-formed
      answer with an empty script raises ValueError, which only the outer
      handler catches; so does an answer that is not an object. */
  function ScriptFromContent(content: string, load: string -> Loaded): (r: Option<Value>)
    ensures r.Some? ==> Truthy(r.value)
    ensures load(content).Object? ==>
      r == (if Truthy(load(content).script) then Some(load(content).script) else None)
    ensures load(content).NotObject? ==> r.None?
    ensures load(content).DecodeError? && r.None? ==> ExtractScript(content).None?
    ensures load(content).DecodeError? && RepairedScript(content, load).Some? ==> r == RepairedScript(content, load)
    ensures load(content).DecodeError? && RepairedScript(content, load).None? ==>
      r == (if ExtractScript(content).Some? then Some(Str(ExtractScript(content).value)) else None)
  {
    match load(content)
    case Object(v) => if Truthy(v) then Some(v) else None
    case NotObject => None
    case DecodeError =>
      match load(FixJsonResponse(content))
      case Object(v) =>
        if Truthy(v) then Some(v)
        else (match ExtractScript(content) case Some(x) => Some(Str(x)) case None => None)
      case _ => match ExtractScript(content) case Some(x) => Some(Str(x)) case None => None
  }

  /** When neither the answer nor its repair decodes, a leading
      `"script": "<text>"` is still recovered, by the last-resort regex. */
  lemma ScriptFromUndecodable(x: string, rest: string, load: string -> Loaded)
    requires |x| > 0 && '"' !in x
    requires forall t :: load(t) == DecodeError
    ensures ScriptFromContent(ScriptKey + " \"" + x + "\"" + rest, load) == Some(Str(x))
  {
    ExtractScriptRoundTrip(x, rest);
  }
}
