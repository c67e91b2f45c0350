/** Search-query generation (utility/video/video_search_query_generator.py):
    cutting the JSON array out of model output, repairing it, the
    acceptance and retry rule around the model call, and the merging of
    segments that found no video. */
module SearchQueries {

  import opened PyValues
  import opened Text
  import Captions

  // ---------------------------------------------------------------------
  // clean_json_response and fix_json

  /** The markdown fences removed from model output, then `strip()`. */
  function Unfence(s: string): (r: string)
    ensures |r| == 0 || (!IsSpace(r[0]) && !IsSpace(r[|r| - 1]))
  {
    Strip(Replace(Replace(s, "```json", ""), "```", ""))
  }

  /** Some `[` occurs before some `]`. */
  predicate HasBracketPair(t: string) {
    exists i, j :: 0 <= i < j < |t| && t[i] == '[' && t[j] == ']'
  }

  lemma FirstLastBrackets(t: string)
    ensures HasBracketPair(t) <==> (Find(t, '[') != -1 && RFind(t, ']') > Find(t, '['))
  {
    if HasBracketPair(t) {
      var i, j :| 0 <= i < j < |t| && t[i] == '[' && t[j] == ']';
      assert Find(t, '[') != -1;
    }
  }

  /** `v` is the text of `t` from its first `[` to its last `]`
      inclusive, the first coming before the last. */
  predicate IsBracketSlice(t: string, v: string) {
    && 0 <= Find(t, '[') < RFind(t, ']')
    && v == t[Find(t, '[')..RFind(t, ']') + 1]
  }

  /** The bracketed part of `t`, when the first `[` comes before the last
      `]`. */
  function BracketSlice(t: string): (r: Option<string>)
    ensures r.Some? <==> HasBracketPair(t)
    ensures r.Some? ==> IsBracketSlice(t, r.value)
    ensures r.Some? ==> |r.value| >= 2 && r.value[0] == '[' && r.value[|r.value| - 1] == ']'
  {
    var a := Find(t, '[');
    var b := RFind(t, ']');
    FirstLastBrackets(t);
    if a != -1 && b != -1 && b > a then Some(t[a..b + 1]) else None
  }

  /** `clean_json_response`: after removing fences, the text from the
      first `[` to the last `]` inclusive, or `None` when there is no `[`
      followed somewhere later by a `]`. */
  function CleanJsonResponse(response: string): (r: Option<string>)
    ensures r.Some? <==> HasBracketPair(Unfence(response))
    ensures r.Some? ==> IsBracketSlice(Unfence(response), r.value)
  {
    BracketSlice(Unfence(response))
  }

  /** The final step of `fix_json`: a `[` in front unless the text already
      starts with one, a `]` at the end unless it already ends with one. */
  function Bracketed(s: string): (r: string)
    ensures |r| >= 2 && r[0] == '[' && r[|r| - 1] == ']'
    ensures |s| > 0 && s[0] == '[' && s[|s| - 1] == ']' ==> r == s
  {
    var front := if |s| > 0 && s[0] == '[' then s else "[" + s;
    if front[|front| - 1] == ']' then front else front + "]"
  }

  lemma BracketedNoGap(s: string)
    requires NoGap(s, ']', '[')
    ensures NoGap(Bracketed(s), ']', '[')
  {
    var front := if |s| > 0 && s[0] == '[' then s else "[" + s;
    if !(|s| > 0 && s[0] == '[') {
      NoGapPrepend('[', s, ']', '[');
    }
    if front[|front| - 1] != ']' {
      NoGapAppend(front, ']', ']', '[');
    }
  }

  /** A repaired answer: bracketed, with no `]` followed, across
      whitespace only, by a `[`. */
  predicate WellBracketed(r: string) {
    && |r| >= 2 && r[0] == '[' && r[|r| - 1] == ']'
    && NoGap(r, ']', '[')
  }

  /** The substitutions of `fix_json` after the quote repairs: commas
      between adjacent arrays, then between adjacent objects, then the
      outer brackets. */
  function Rejoin(t: string): (r: string)
    ensures WellBracketed(r)
  {
    var arrays := CommaJoin(t, ']', '[');
    var objects := CommaJoin(arrays, '}', '{');
    CommaJoinNoGap(t, ']', '[');
    CommaJoinKeepsNoGap(arrays, ']', '[', '}', '{');
    BracketedNoGap(objects);
    Bracketed(objects)
  }

  /** `fix_json`.  Empty or missing input is returned as is; otherwise the
      result is bracketed and no `]` is followed, across whitespace only,
      by a `[`.  The typographic-quote replacements are not modelled. */
  function FixJson(input: Option<string>): (r: Option<string>)
    ensures input.None? ==> r.None?
    ensures input == Some("") ==> r == Some("")
    ensures input.Some? && |input.value| > 0 ==> r.Some? && WellBracketed(r.value)
  {
    match input
    case None => None
    case Some(s) =>
      if |s| == 0 then input
      else
        var quoted := Replace(Replace(s, "\"you didn\"t\"", "\"you didn't\""), "\"\"", "\"");
        Some(Rejoin(Unfence(quoted)))
  }

  /** Array text the repairs have nothing to do for: it starts with `[`
      and ends with `]`, contains no fence, no `""` and no
      `"you didn"t"`, and no `]` or `}` is followed, across whitespace
      only, by `[` or `{` respectively. */
  predicate CleanArrayText(s: string) {
    && |s| >= 2 && s[0] == '[' && s[|s| - 1] == ']'
    && Absent(s, "```") && Absent(s, "\"\"") && Absent(s, "\"you didn\"t\"")
    && NoGap(s, ']', '[') && NoGap(s, '}', '{')
  }

  /** Text without fences or surrounding whitespace is its own `Unfence`. */
  lemma UnfenceClean(s: string)
    requires |s| > 0 && !IsSpace(s[0]) && !IsSpace(s[|s| - 1]) && Absent(s, "```")
    ensures Unfence(s) == s
  {
    AbsentExtension(s, "```", "```json");
    ReplaceAbsent(s, "```json", "");
    ReplaceAbsent(s, "```", "");
    StripNoEdgeSpace(s);
  }

  /** Bracketed text with no `]`-whitespace-`[` gap and no
      `}`-whitespace-`{` gap is its own `Rejoin`. */
  lemma RejoinClean(s: string)
    requires WellBracketed(s) && NoGap(s, '}', '{')
    ensures Rejoin(s) == s
  {
    CommaJoinClean(s, ']', '[');
    CommaJoinClean(s, '}', '{');
  }

  /** `fix_json` returns clean array text as it is: every repair it makes
      is triggered by a defect of the input. */
  lemma FixJsonKeepsCleanArray(s: string)
    requires CleanArrayText(s)
    ensures FixJson(Some(s)) == Some(s)
  {
    ReplaceAbsent(s, "\"you didn\"t\"", "\"you didn't\"");
    ReplaceAbsent(s, "\"\"", "\"");
    UnfenceClean(s);
    RejoinClean(s);
  }

  // ---------------------------------------------------------------------
  // getVideoSearchQueriesTimed

  const MaxRetries: nat := 3

  /** The end of the last segment of a parsed answer, when the answer has
      the shape `[..., [[t1, t2], ...]]` and `t2` takes part in arithmetic. */
  function LastSegmentEnd(parsed: Value): (r: Option<real>)
    ensures r.Some? ==> parsed.List? && |parsed.items| > 0
  {
    if !(parsed.List? && |parsed.items| > 0) then None
    else
      var last := parsed.items[|parsed.items| - 1];
      if last.List? && |last.items| >= 2 && last.items[0].List? && |last.items[0].items| >= 2
      then AsNumber(last.items[0].items[1])
      else None
  }

  datatype Verdict = Accept(value: Value) | Retry | GiveUp

  /** The parsed answer passes the time-coverage test: its last segment
      ends within one second of `endTime`. */
  predicate Covers(parsed: Option<Value>, endTime: real) {
    && parsed.Some?
    && match LastSegmentEnd(parsed.value) case Some(e) => Abs(e - endTime) <= 1.0 case None => false
  }

  /** One attempt of the loop: an empty answer, a non-list, an empty list
      or a time mismatch is retried; an unparsable answer is retried except
      on the last attempt, which gives up. */
  function Attempt(attempt: nat, endTime: real, raw: Option<string>, parse: string -> Option<Value>): (v: Verdict)
    ensures v.Accept? <==> raw.Some? && |Strip(raw.value)| > 0 && Covers(parse(raw.value), endTime)
    ensures v.Accept? ==> v.value == parse(raw.value).value
    ensures v.GiveUp? <==> attempt >= MaxRetries - 1 && raw.Some? && |Strip(raw.value)| > 0 && parse(raw.value).None?
  {
    match raw
    case None => Retry
    case Some(text) =>
      if |Strip(text)| == 0 then Retry
      else
        match parse(text)
        case None => if attempt < MaxRetries - 1 then Retry else GiveUp
        case Some(parsed) =>
          match LastSegmentEnd(parsed)
          case Some(e) => if Abs(e - endTime) <= 1.0 then Accept(parsed) else Retry
          case None => Retry
  }

  /** The outcome of the retry loop and how many times the model was called. */
  datatype Queries = Queries(result: Option<Value>, calls: nat)

  function AttemptsFrom(attempt: nat, endTime: real, respond: nat -> Option<string>, parse: string -> Option<Value>): (q: Queries)
    requires attempt <= MaxRetries
    ensures q.calls <= MaxRetries - attempt
    ensures attempt < MaxRetries ==> q.calls >= 1
    ensures q.result.Some? ==> (match LastSegmentEnd(q.result.value) case Some(e) => Abs(e - endTime) <= 1.0 case None => false)
    decreases MaxRetries - attempt
  {
    if attempt == MaxRetries then Queries(None, 0)
    else
      match Attempt(attempt, endTime, respond(attempt), parse)
      case Accept(v) => Queries(Some(v), 1)
      case GiveUp => Queries(None, 1)
      case Retry =>
        var rest := AttemptsFrom(attempt + 1, endTime, respond, parse);
        Queries(rest.result, rest.calls + 1)
  }

  /** Attempt `k` is the first from `attempt` on whose verdict is not
      `Retry`. */
  predicate FirstDecided(attempt: nat, k: nat, endTime: real, respond: nat -> Option<string>, parse: string -> Option<Value>) {
    && attempt <= k < MaxRetries
    && !Attempt(k, endTime, respond(k), parse).Retry?
    && forall j :: attempt <= j < k ==> Attempt(j, endTime, respond(j), parse).Retry?
  }

  /** The loop stops at the first attempt that accepts or gives up, with
      that attempt's answer (or `None`) after `k - attempt + 1` calls; when
      every attempt asks to retry, it returns `None` after all of them. */
  lemma {:induction false} AttemptsFromDecided(attempt: nat, endTime: real, respond: nat -> Option<string>,
                                               parse: string -> Option<Value>)
    requires attempt <= MaxRetries
    ensures forall k: nat :: FirstDecided(attempt, k, endTime, respond, parse) ==>
      AttemptsFrom(attempt, endTime, respond, parse)
        == Queries(match Attempt(k, endTime, respond(k), parse) case Accept(v) => Some(v) case _ => None, k - attempt + 1)
    ensures (forall j :: attempt <= j < MaxRetries ==> Attempt(j, endTime, respond(j), parse).Retry?) ==>
      AttemptsFrom(attempt, endTime, respond, parse) == Queries(None, MaxRetries - attempt)
    decreases MaxRetries - attempt
  {
    if attempt < MaxRetries {
      AttemptsFromDecided(attempt + 1, endTime, respond, parse);
      forall k: nat | FirstDecided(attempt, k, endTime, respond, parse)
        ensures AttemptsFrom(attempt, endTime, respond, parse)
          == Queries(match Attempt(k, endTime, respond(k), parse) case Accept(v) => Some(v) case _ => None, k - attempt + 1)
      {
        if k > attempt {
          assert FirstDecided(attempt + 1, k, endTime, respond, parse);
        }
      }
    }
  }

  /** `getVideoSearchQueriesTimed` with the model call (`respond`, one
      answer per attempt) and `advanced_json_parse` (`parse`) as inputs.
      Empty captions give `None` without calling the model; otherwise the
      model is called at most three times, and a returned list's last
      segment ends within one second of the last caption. */
  function QueriesTimed(captions: seq<Captions.Caption>, respond: nat -> Option<string>, parse: string -> Option<Value>): (q: Queries)
    ensures |captions| == 0 ==> q == Queries(None, 0)
    ensures |captions| > 0 ==> 1 <= q.calls <= MaxRetries
    ensures |captions| > 0 && q.result.Some? ==>
      && q.result.value.List? && |q.result.value.items| > 0
      && (match LastSegmentEnd(q.result.value)
          case Some(e) => Abs(e - captions[|captions| - 1].end) <= 1.0
          case None => false)
    ensures |captions| > 0 ==>
      var first := Attempt(0, captions[|captions| - 1].end, respond(0), parse);
      first.Accept? ==> q == Queries(Some(first.value), 1)
  {
    if |captions| == 0 then Queries(None, 0)
    else AttemptsFrom(0, captions[|captions| - 1].end, respond, parse)
  }

  /** Only the first three answers of the model matter. */
  lemma {:induction false} AtMostThreeAttempts(attempt: nat, endTime: real, respond1: nat -> Option<string>,
                                                respond2: nat -> Option<string>, parse: string -> Option<Value>)
    requires attempt <= MaxRetries
    requires forall k :: attempt <= k < MaxRetries ==> respond1(k) == respond2(k)
    ensures AttemptsFrom(attempt, endTime, respond1, parse) == AttemptsFrom(attempt, endTime, respond2, parse)
    decreases MaxRetries - attempt
  {
    if attempt < MaxRetries {
      AtMostThreeAttempts(attempt + 1, endTime, respond1, respond2, parse);
    }
  }

  // ---------------------------------------------------------------------
  // merge_empty_intervals

  /** An entry `[interval, url]` of the merged list. */
  datatype Merged = Merged(interval: Value, url: Value)

  /** The state of the loop after one iteration: the next index and the
      merged list so far. */
  datatype Step = Step(next: nat, merged: seq<Merged>)

  /** A segment that passes the shape check and unpacks into
      `interval, url`: a list of exactly two items.  Longer lists pass the
      check but fail to unpack, and the exception handler skips them. */
  predicate IsPair(v: Value) {
    v.List? && |v.items| == 2
  }

  /** A well-formed segment that carries a url. */
  predicate HasUrl(v: Value) {
    IsPair(v) && v.items[1] != Nil
  }

  /** The entry a segment with a url is copied to. */
  function Entry(v: Value): Merged
    requires IsPair(v)
  {
    Merged(v.items[0], v.items[1])
  }

  /** A segment that the run scan absorbs: `len(v) >= 2 and v[1] is None`. */
  predicate NoUrl(v: Value) {
    v.Sized() && v.Len() >= 2 && v.At(1) == Nil
  }

  /** `segs[k]` has no length and every segment from `j` up to it is
      absorbed by the run scan, so the scan reaches it and `len()` raises. */
  predicate ScanRaisesAt(segs: seq<Value>, j: nat, k: nat) {
    && j <= k < |segs| && !segs[k].Sized()
    && forall m :: j <= m < k ==> NoUrl(segs[m])
  }

  /** The run scan from `j` reaches a segment without a length. */
  predicate ScanRaises(segs: seq<Value>, j: nat) {
    exists k :: j <= k < |segs| && ScanRaisesAt(segs, j, k)
  }

  /** The scan for consecutive segments without a url, starting at `j`:
      `None` when `len()` raises on an item that has no length. */
  function ScanRun(segs: seq<Value>, j: nat): (r: Option<nat>)
    requires j <= |segs|
    ensures r.None? <==> ScanRaises(segs, j)
    ensures r.Some? ==> j <= r.value <= |segs|
    ensures r.Some? ==> forall k :: j <= k < r.value ==> NoUrl(segs[k])
    ensures r.Some? && r.value < |segs| ==> segs[r.value].Sized() && !NoUrl(segs[r.value])
    decreases |segs| - j
  {
    if j == |segs| then Some(j)
    else if !segs[j].Sized() then
      assert ScanRaisesAt(segs, j, j);
      None
    else
      ScanRaisesStep(segs, j);
      if NoUrl(segs[j]) then ScanRun(segs, j + 1)
      else Some(j)
  }

  /** Past a sized segment, the scan raises later exactly when it raises
      from the next segment on and the segment is absorbed. */
  lemma ScanRaisesStep(segs: seq<Value>, j: nat)
    requires j < |segs| && segs[j].Sized()
    ensures ScanRaises(segs, j) <==> NoUrl(segs[j]) && ScanRaises(segs, j + 1)
  {
    if ScanRaises(segs, j) {
      var k :| j <= k < |segs| && ScanRaisesAt(segs, j, k);
      assert j < k;
      assert j + 1 <= k < |segs| && ScanRaisesAt(segs, j + 1, k);
    }
    if NoUrl(segs[j]) && ScanRaises(segs, j + 1) {
      var k :| j + 1 <= k < |segs| && ScanRaisesAt(segs, j + 1, k);
      assert j <= k < |segs| && ScanRaisesAt(segs, j, k);
    }
  }

  /** `segments[j-1][0][1]` can be read: the interval of the last
      segment of the run starting at `i` has at least two items. */
  predicate RunEndOk(segs: seq<Value>, i: nat, j: nat)
    requires i < j <= |segs|
    requires IsPair(segs[i]) && forall k :: i < k < j ==> NoUrl(segs[k])
  {
    assert j - 1 == i || NoUrl(segs[j - 1]);
    var last := segs[j - 1].At(0);
    last.Sized() && last.Len() >= 2
  }

  /** The test on the previous entry raises: `len()` of something that
      has no length. */
  predicate TouchRaises(prev: Merged, interval: Value) {
    prev.url != Nil
    && (!prev.interval.Sized() || (prev.interval.Len() >= 2 && !interval.Sized()))
  }

  /** The previous entry has a url and ends where `interval` starts. */
  predicate Touches(prev: Merged, interval: Value) {
    && prev.url != Nil
    && prev.interval.Sized() && prev.interval.Len() >= 2
    && interval.Sized() && interval.Len() >= 2
    && PyEq(prev.interval.At(1), interval.At(0))
  }

  /** The paths of the url-less iteration that raise: the run scan meets
      an item without a length, the touch test does, or the run's last
      interval is too short to read its end. */
  predicate RunRaises(segs: seq<Value>, i: nat, merged: seq<Merged>)
    requires i < |segs| && IsPair(segs[i])
  {
    match ScanRun(segs, i + 1)
    case None => true
    case Some(j) =>
      && i > 0 && |merged| > 0
      && (|| TouchRaises(merged[|merged| - 1], segs[i].items[0])
          || (Touches(merged[|merged| - 1], segs[i].items[0]) && !RunEndOk(segs, i, j)))
  }

  /** The urls that occur in a merged list. */
  function Urls(merged: seq<Merged>): set<Value> {
    set m | 0 <= m < |merged| :: merged[m].url
  }

  lemma UrlsAppend(merged: seq<Merged>, m: Merged)
    ensures Urls(merged + [m]) == Urls(merged) + {m.url}
  {
    var r := merged + [m];
    assert r[|merged|] == m;
    forall k | 0 <= k < |merged|
      ensures merged[k].url in Urls(r)
    {
      assert r[k] == merged[k];
    }
  }

  /** Replacing the last entry by one with the same url keeps the urls. */
  lemma UrlsReplaceLast(merged: seq<Merged>, m: Merged)
    requires |merged| > 0 && m.url == merged[|merged| - 1].url
    ensures Urls(merged[..|merged| - 1] + [m]) == Urls(merged)
  {
    var r := merged[..|merged| - 1] + [m];
    assert r[|merged| - 1] == m;
    forall k | 0 <= k < |merged| - 1
      ensures merged[k].url in Urls(r)
    {
      assert r[k] == merged[k];
    }
  }

  /** The urls of the well-formed input segments. */
  function SourceUrls(segs: seq<Value>): set<Value> {
    set k | 0 <= k < |segs| && IsPair(segs[k]) :: segs[k].items[1]
  }

  /** The iteration for a segment `[interval, None]`: the scan for the
      run of url-less segments after it, then either a new entry without
      a url (at the start or with nothing merged yet), the previous
      entry extended to the end of the run when it touches, or a new
      entry inheriting the previous url.  In that last case only the
      run's first interval is kept: the loop resumes after the run, so
      the later intervals of the run are dropped, and the url comes from
      an entry the run does not touch.  A path that raises (`len()` of
      something without a length) ends in the handler: one step on,
      nothing merged. */
  function RunStep(segs: seq<Value>, i: nat, merged: seq<Merged>): (r: Step)
    requires i < |segs| && IsPair(segs[i]) && segs[i].items[1] == Nil
    ensures i < r.next <= |segs|
    ensures |r.merged| <= |merged| + 1
    ensures forall k :: i < k < r.next ==> NoUrl(segs[k])
    ensures Urls(merged) <= Urls(r.merged) <= Urls(merged) + {Nil}
    ensures ScanRun(segs, i + 1).Some? && (i == 0 || |merged| == 0) ==>
      r == Step(ScanRun(segs, i + 1).value, merged + [Merged(segs[i].items[0], Nil)])
    ensures (&& ScanRun(segs, i + 1).Some? && i > 0 && |merged| > 0
             && Touches(merged[|merged| - 1], segs[i].items[0])
             && RunEndOk(segs, i, ScanRun(segs, i + 1).value)) ==>
      && r.next == ScanRun(segs, i + 1).value
      && |r.merged| == |merged|
      && r.merged[..|merged| - 1] == merged[..|merged| - 1]
      && r.merged[|merged| - 1].url == merged[|merged| - 1].url
      && r.merged[|merged| - 1].interval
         == List([merged[|merged| - 1].interval.At(0), segs[ScanRun(segs, i + 1).value - 1].At(0).At(1)])
    ensures (&& ScanRun(segs, i + 1).Some? && i > 0 && |merged| > 0
             && !TouchRaises(merged[|merged| - 1], segs[i].items[0])
             && !Touches(merged[|merged| - 1], segs[i].items[0])) ==>
      r == Step(ScanRun(segs, i + 1).value, merged + [Merged(segs[i].items[0], merged[|merged| - 1].url)])
    ensures RunRaises(segs, i, merged) ==> r == Step(i + 1, merged)
  {
    var interval := segs[i].items[0];
    match ScanRun(segs, i + 1)
    case None => Step(i + 1, merged)
    case Some(j) =>
      if i > 0 && |merged| > 0 then
        var prev := merged[|merged| - 1];
        if TouchRaises(prev, interval) then Step(i + 1, merged)
        else if Touches(prev, interval) then
          var runLast := segs[j - 1].At(0);
          if !RunEndOk(segs, i, j) then Step(i + 1, merged)
          else
            var r := merged[..|merged| - 1] + [Merged(List([prev.interval.At(0), runLast.At(1)]), prev.url)];
            UrlsReplaceLast(merged, Merged(List([prev.interval.At(0), runLast.At(1)]), prev.url));
            Step(j, r)
        else
          UrlsAppend(merged, Merged(interval, prev.url));
          Step(j, merged + [Merged(interval, prev.url)])
      else
        UrlsAppend(merged, Merged(interval, Nil));
        Step(j, merged + [Merged(interval, Nil)])
  }

  /** One iteration of the `while i < len(segments)` loop.  Every path
      that raises inside the `try` ends in the handler, which advances `i`
      by one and leaves `merged` as it was. */
  function MergeStep(segs: seq<Value>, i: nat, merged: seq<Merged>): (r: Step)
    requires i < |segs|
    ensures i < r.next <= |segs|
    ensures |r.merged| <= |merged| + 1
    ensures forall k :: i < k < r.next ==> NoUrl(segs[k])
    ensures !IsPair(segs[i]) ==> r == Step(i + 1, merged)
    ensures HasUrl(segs[i]) ==> r == Step(i + 1, merged + [Entry(segs[i])])
    ensures Urls(merged) <= Urls(r.merged)
    ensures Urls(r.merged) <= Urls(merged) + SourceUrls(segs) + {Nil}
  {
    var seg := segs[i];
    if !IsPair(seg) then Step(i + 1, merged)
    else if seg.items[1] != Nil then
      assert seg.items[1] in SourceUrls(segs);
      UrlsAppend(merged, Merged(seg.items[0], seg.items[1]));
      Step(i + 1, merged + [Merged(seg.items[0], seg.items[1])])
    else RunStep(segs, i, merged)
  }

  /** The loop from index `i` on. */
  function MergeFrom(segs: seq<Value>, i: nat, merged: seq<Merged>): (r: seq<Merged>)
    requires i <= |segs|
    ensures |r| <= |merged| + (|segs| - i)
    decreases |segs| - i
  {
    if i == |segs| then merged
    else
      var step := MergeStep(segs, i, merged);
      MergeFrom(segs, step.next, step.merged)
  }

  /** The loop keeps every url it has merged, adds the url of every
      well-formed segment with one, and invents none. */
  lemma {:induction false} MergeFromUrls(segs: seq<Value>, i: nat, merged: seq<Merged>)
    requires i <= |segs|
    ensures Urls(merged) <= Urls(MergeFrom(segs, i, merged)) <= Urls(merged) + SourceUrls(segs) + {Nil}
    ensures forall k :: i <= k < |segs| && HasUrl(segs[k]) ==> segs[k].items[1] in Urls(MergeFrom(segs, i, merged))
    decreases |segs| - i
  {
    if i < |segs| {
      var step := MergeStep(segs, i, merged);
      var r := MergeFrom(segs, step.next, step.merged);
      MergeFromUrls(segs, step.next, step.merged);
      forall k | i <= k < |segs| && HasUrl(segs[k])
        ensures segs[k].items[1] in Urls(r)
      {
        if k == i {
          assert step.merged[|merged|].url == segs[k].items[1];
        } else {
          assert !NoUrl(segs[k]);
        }
      }
    }
  }

  /** `merged` followed by the entries of the segments from `i` on, each
      copied as it is. */
  function CopyFrom(segs: seq<Value>, i: nat, merged: seq<Merged>): (r: seq<Merged>)
    requires i <= |segs| && forall k :: i <= k < |segs| ==> HasUrl(segs[k])
    ensures |r| == |merged| + |segs| - i
    ensures r[..|merged|] == merged
    ensures forall k :: i <= k < |segs| && HasUrl(segs[k]) ==> r[|merged| + k - i] == Entry(segs[k])
    decreases |segs| - i
  {
    if i == |segs| then merged
    else
      assert HasUrl(segs[i]);
      var e := Entry(segs[i]);
      var r := CopyFrom(segs, i + 1, merged + [e]);
      assert r[..|merged|] == r[..|merged| + 1][..|merged|];
      assert r[|merged|] == (merged + [e])[|merged|];
      r
  }

  /** Every segment from `i` on is a pair with a url. */
  predicate AllHaveUrls(segs: seq<Value>, i: nat) {
    i <= |segs| && forall k :: i <= k < |segs| ==> HasUrl(segs[k])
  }

  /** When every segment is a pair with a url, each is copied unchanged
      and nothing is merged. */
  lemma {:induction false} MergeCopiesUrlSegments(segs: seq<Value>, i: nat, merged: seq<Merged>)
    requires AllHaveUrls(segs, i)
    ensures MergeFrom(segs, i, merged) == CopyFrom(segs, i, merged)
    decreases |segs| - i
  {
    if i < |segs| {
      var next := MergeCopyStep(segs, i, merged);
      MergeCopiesUrlSegments(segs, i + 1, next);
    }
  }

  /** A segment with a url is appended by both the loop and the copy. */
  lemma MergeCopyStep(segs: seq<Value>, i: nat, merged: seq<Merged>) returns (next: seq<Merged>)
    requires AllHaveUrls(segs, i) && i < |segs|
    ensures AllHaveUrls(segs, i + 1)
    ensures MergeFrom(segs, i, merged) == MergeFrom(segs, i + 1, next)
    ensures CopyFrom(segs, i, merged) == CopyFrom(segs, i + 1, next)
  {
    assert HasUrl(segs[i]);
    next := merged + [Entry(segs[i])];
    assert MergeStep(segs, i, merged) == Step(i + 1, next);
  }

  /** A run that does not touch the entry before it keeps only its first
      interval, under that entry's url: `[[0, 1], "A"]`, `[[5, 6], None]`,
      `[[6, 7], None]` merge to `[[0, 1], "A"]`, `[[5, 6], "A"]`, and the
      interval `[6, 7]` is lost. */
  lemma MergeDropsRunTail()
    ensures var a := List([Num(0.0), Num(1.0)]);
            var b := List([Num(5.0), Num(6.0)]);
            var c := List([Num(6.0), Num(7.0)]);
      MergeEmptyIntervals(List([List([a, Str("A")]), List([b, Nil]), List([c, Nil])]))
        == [Merged(a, Str("A")), Merged(b, Str("A"))]
  {
    var a := List([Num(0.0), Num(1.0)]);
    var b := List([Num(5.0), Num(6.0)]);
    var c := List([Num(6.0), Num(7.0)]);
    var segs := [List([a, Str("A")]), List([b, Nil]), List([c, Nil])];
    var first := [Merged(a, Str("A"))];
    assert MergeStep(segs, 0, []) == Step(1, first);
    assert NoUrl(segs[2]);
    assert ScanRun(segs, 3) == Some(3);
    assert ScanRun(segs, 2) == Some(3);
    assert !PyEq(Num(1.0), Num(5.0));
    assert !Touches(first[0], b);
    var second := first + [Merged(b, Str("A"))];
    assert RunStep(segs, 1, first) == Step(3, second);
    assert MergeFrom(segs, 1, first) == MergeFrom(segs, 3, second) == second;
    assert MergeFrom(segs, 0, []) == MergeFrom(segs, 1, first);
  }

  /** A run at the start keeps only its first interval too, with no url:
      `[[0, 1], None]`, `[[1, 2], None]` merge to `[[0, 1], None]`, and the
      interval `[1, 2]` is lost although the two touch. */
  lemma MergeDropsLeadingRun()
    ensures var a := List([Num(0.0), Num(1.0)]);
            var b := List([Num(1.0), Num(2.0)]);
      MergeEmptyIntervals(List([List([a, Nil]), List([b, Nil])])) == [Merged(a, Nil)]
  {
    var a := List([Num(0.0), Num(1.0)]);
    var b := List([Num(1.0), Num(2.0)]);
    var segs := [List([a, Nil]), List([b, Nil])];
    assert NoUrl(segs[1]);
    assert ScanRun(segs, 2) == Some(2);
    assert ScanRun(segs, 1) == Some(2);
    assert RunStep(segs, 0, []) == Step(2, [Merged(a, Nil)]);
    assert MergeFrom(segs, 0, []) == MergeFrom(segs, 2, [Merged(a, Nil)]);
  }

  /** `merge_empty_intervals`: `[]` for `None`, a non-list or an empty
      list; otherwise no longer than the input, every url of a well-formed
      segment survives, and no url is invented. */
  function MergeEmptyIntervals(segments: Value): (r: seq<Merged>)
    ensures !segments.List? || |segments.items| == 0 ==> r == []
    ensures segments.List? ==> |r| <= |segments.items|
    ensures segments.List? ==>
      forall k :: 0 <= k < |segments.items| && HasUrl(segments.items[k]) ==>
        segments.items[k].items[1] in Urls(r)
    ensures segments.List? ==> Urls(r) <= SourceUrls(segments.items) + {Nil}
  {
    if !segments.List? || |segments.items| == 0 then []
    else
      MergeFromUrls(segments.items, 0, []);
      MergeFrom(segments.items, 0, [])
  }
}
