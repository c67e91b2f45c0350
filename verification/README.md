# StoryForge data-shaping core in Dafny

StoryForge turns a topic into a narrated short video. A language model writes a
script, a TTS engine reads it, Whisper transcribes the narration into timed
words, the language model proposes stock-video search terms per time segment,
Pexels supplies footage, and moviepy composites the result. Every one of those
steps is a call into an external service. This project models the pure code
between the calls, which reshapes loosely typed tuples and lists from one stage
into the input of the next:

- **Captions** (`captions.dfy`): grouping transcribed words into captions of at
  most `max_caption_size` words, and `validate_caption_format`.
- **SearchQueries** (`search_queries.dfy`): `clean_json_response`, `fix_json`,
  the acceptance/retry rule of `getVideoSearchQueriesTimed`, and
  `merge_empty_intervals`.
- **BackgroundVideo** (`background_video.dfy`): `safe_unpack`, the lenient
  `normalize_data_format`, the selection rules of `getBestVideo`, and
  `generate_video_url_fixed`.
- **Render** (`render.dfy`): the strict `normalize_data_format`, frame size,
  centre crop, and which entries of `get_output_media`'s input become clips.
- **Script** (`script.dfy`): `validate_groq_api`, `fix_json_response`, the
  last-resort `"script"` regex, and the decision chain around them.
- **Pipeline** (`pipeline.dfy`): how the url entries meet `merge_empty_intervals`.

Supporting modules:

- **PyValues** (`values.dfy`) holds the dynamic Python value. Its kinds are
  `None`, `bool`, numbers, `str`, `list` and `tuple`. It also defines Python
  truthiness, `float(...)`, `==` and `str(...)`.
- **Text** (`text.dfy`) holds the string methods the code uses: `strip`,
  `find`, `rfind`, `replace`, `' '.join`, and `re.sub(r'X\s*Y', 'X, Y', s)`.
- **Sorting** (`sorting.dfy`) holds `sorted(..., key=...)` as a stable
  insertion sort, proved sorted and a permutation.

Oracles are parameters. Three things are supplied by the caller:

- `float(str)`, as a `FloatParser`;
- `advanced_json_parse` and `json.loads`, as functions over strings;
- the answers of the language model and of the Pexels search.

Times are exact reals. Aspect-ratio tests use integer cross-multiplication.

`merge_empty_intervals` loses data in two branches, and the model keeps that
behaviour. In both, the loop jumps past a whole run of url-less segments but
adds only the run's first interval, so the run's later intervals are dropped.

- A run at index 0, or with nothing merged yet, adds its first interval with
  url `None` (`SearchQueries.MergeDropsLeadingRun`).
- A later run that does not extend the previous entry adds its first interval
  under that entry's url. This happens when the intervals do not touch, or
  when the previous entry's url is `None`. The url is borrowed although the
  segments need not be adjacent (`SearchQueries.MergeDropsRunTail`).

Only a run that touches a previous entry with a url keeps its extent: that
entry is stretched to the run's last end (`SearchQueries.RunStep`).

## Model

| member | source | states |
|---|---|---|
| Captions.KeptWordsStripped | utility/captions/timed_captions_generator.py:57-63 | every word the loop keeps has non-empty text that `strip()` leaves unchanged |
| Captions.GroupWords | utility/captions/timed_captions_generator.py:49-81 | the loop's captions are exactly the consecutive blocks of `max_caption_size` kept words (the last block possibly shorter), in input order; a size below 1 acts as 1 |
| Captions.ProgressGrouped | utility/captions/timed_captions_generator.py:57-76 | after each word, the closed captions are the full blocks of the words they hold, and those words followed by the pending group are exactly the words kept so far |
| Captions.GroupedCaptions | utility/captions/timed_captions_generator.py:65-81 | concatenating the blocks gives back exactly the kept words in order; every block but the last has `max_caption_size` words, the last has 1 to `max_caption_size`; there are no captions exactly when no word is kept |
| Captions.TimedCaptions | utility/captions/timed_captions_generator.py:65-81 | one caption per block: it starts at its first word's start, ends at its last word's end, carries `caption_color`, and its text is its words joined by single spaces |
| Captions.GroupTextsStripped | utility/captions/timed_captions_generator.py:73-74 | the `.strip()` applied to each joined caption text changes nothing |
| Captions.CheckCaption | utility/captions/timed_captions_generator.py:97-116 | an item is accepted only if it is a list/tuple of at least 2 items whose time is a list/tuple of at least 2 items that `float` accepts. The accepted text is non-empty and stripped. The colour is the third item, else "white". Every item that meets these conditions is accepted |
| Captions.ValidateCaptions | utility/captions/timed_captions_generator.py:92-123 | the output is no longer than the input and every entry has non-empty text |
| Captions.ValidateAppend | utility/captions/timed_captions_generator.py:96-120 | validation is item by item: validating `a + b` is validating `a` then `b`, so input order is kept |
| SearchQueries.CleanJsonResponse | utility/video/video_search_query_generator.py:54-68 | a result exists exactly when the fence-stripped text has a `[` before some `]`. It is then the slice from the first `[` to the last `]` inclusive |
| SearchQueries.BracketSlice | utility/video/video_search_query_generator.py:61-68 | on the stripped text, a result exists exactly when some `[` precedes some `]`. It is the slice from the first `[` to the last `]`, so it starts with `[` and ends with `]` |
| SearchQueries.FixJson | utility/video/video_search_query_generator.py:70-100 | missing or empty input comes back unchanged. Any other output starts with `[`, ends with `]`, and has no `]` followed by only whitespace and then `[` |
| SearchQueries.FixJsonKeepsCleanArray | utility/video/video_search_query_generator.py:74-100 | text that is already a clean array is returned unchanged: it starts with `[`, ends with `]`, and has no fence, no `""`, no `"you didn"t"` and no `]`/`}` followed across whitespace by `[`/`{`. So every repair is triggered by a defect in the input |
| SearchQueries.Rejoin | utility/video/video_search_query_generator.py:88-98 | after the two comma substitutions and the bracket fix, the text starts with `[`, ends with `]`, and has no `]`-whitespace-`[` gap, whatever text went in |
| SearchQueries.RejoinClean | utility/video/video_search_query_generator.py:88-98 | text that starts with `[`, ends with `]`, and has neither a `]`-whitespace-`[` nor a `}`-whitespace-`{` gap passes through both substitutions and the bracket fix unchanged |
| SearchQueries.BracketedNoGap | utility/video/video_search_query_generator.py:95-98 | adding the missing outer brackets creates no `]`-whitespace-`[` gap |
| Text.CommaJoinNoGap | utility/video/video_search_query_generator.py:89 | after `re.sub(r'\]\s*\[', '], [', s)` no `]` is followed by only whitespace and then `[` |
| Text.CommaJoinGap | utility/video/video_search_query_generator.py:89 | what a gap becomes: `]`, any run of whitespace and `[` are replaced by exactly `], [`, and the substitution resumes after the `[` |
| Text.CommaJoinClean | utility/video/video_search_query_generator.py:89-92 | text with no gap passes through either substitution unchanged |
| Text.ReplaceAbsent | utility/video/video_search_query_generator.py:82-86 | `str.replace` of a pattern that does not occur returns the text unchanged |
| Text.CommaJoinKeepsNoGap | utility/video/video_search_query_generator.py:92 | the later `}\s*{` substitution does not bring such a gap back |
| SearchQueries.QueriesTimed | utility/video/video_search_query_generator.py:166-229 | empty captions give `None` without a model call. Otherwise the model is called 1 to 3 times. A returned value is a non-empty list whose last segment's `[0][1]` is a number within 1.0 of the last caption's end. An acceptable first answer is returned after exactly one call |
| SearchQueries.Attempt | utility/video/video_search_query_generator.py:184-221 | an attempt accepts exactly when the answer is non-blank, parses, and passes the time-coverage test, and then returns the parsed value. It gives up exactly when a non-blank answer fails to parse at the last attempt. Everything else is retried |
| SearchQueries.AttemptsFromDecided | utility/video/video_search_query_generator.py:175-229 | the loop returns the verdict of the first attempt that accepts or gives up (the value, or `None`), after one call per attempt up to and including it. When every attempt retries, it returns `None` after all three calls |
| SearchQueries.AtMostThreeAttempts | utility/video/video_search_query_generator.py:175-177 | the outcome depends only on the first three answers of the model |
| SearchQueries.ScanRun | utility/video/video_search_query_generator.py:298-300 | the inner scan stops at the end of a maximal run of segments with `len >= 2` and `seg[1] is None`. It fails (an exception) exactly when the run reaches an item without a length |
| SearchQueries.MergeStep | utility/video/video_search_query_generator.py:287-319 | one iteration: a malformed item is skipped, and a segment with a url is copied unchanged. The index always advances, only past url-less segments, and at most one entry is added. No merged url is lost and none is invented |
| SearchQueries.RunStep | utility/video/video_search_query_generator.py:296-312 | a url-less segment at index 0, or with nothing merged yet, adds `[interval, None]` and jumps past its run. A run touching a previous entry that has a url extends that entry to the run's last end and keeps its url and the earlier entries. A run that does not touch adds only its first interval under the previous entry's url and jumps past the rest. A run whose scan or test raises advances one segment and merges nothing. The only url it can add is `None` or one already merged |
| SearchQueries.MergeFromUrls | utility/video/video_search_query_generator.py:287-321 | the loop keeps the urls merged so far, adds the url of every well-formed segment that has one, and adds no url that is not in the input or `None` |
| SearchQueries.MergeEmptyIntervals | utility/video/video_search_query_generator.py:268-321 | `[]` for `None`, a non-list or an empty list. Otherwise the output is no longer than the input, every url of a well-formed segment survives, and no url is invented |
| SearchQueries.MergeCopiesUrlSegments | utility/video/video_search_query_generator.py:287-315 | when every segment is a pair with a url, the output has one entry per segment, and entry k is `[interval_k, url_k]` |
| SearchQueries.MergeDropsRunTail | utility/video/video_search_query_generator.py:303-312 | `[[0, 1], "A"]`, `[[5, 6], None]`, `[[6, 7], None]` merge to `[[0, 1], "A"]`, `[[5, 6], "A"]`: the untouched run keeps only its first interval and borrows a url from a non-adjacent segment |
| SearchQueries.MergeDropsLeadingRun | utility/video/video_search_query_generator.py:309-312 | `[[0, 1], None]`, `[[1, 2], None]` merge to `[[0, 1], None]`: a run at the start keeps only its first interval, although the two intervals touch |
| BackgroundVideo.SafeUnpack | utility/video/background_video_generator.py:9-57 | always exactly `expected_count` values. Position k holds `data[k]` when `data` is a list/tuple long enough, else the usable default at k, else `None`. Equal or longer input is cut to its prefix; shorter input is a prefix of the result |
| BackgroundVideo.NormalizeLenient | utility/video/background_video_generator.py:59-136 | falsy or non-sequence input gives `None`. Two items: needs a numeric pair first. Three items: a numeric pair first drops the third, otherwise `(start, end, content)`. More than three: content is `data[1]` after a pair, otherwise `data[2]` after two numbers |
| BackgroundVideo.LinkBase | utility/video/background_video_generator.py:272 | the link up to its first `.hd`: a prefix of the link with no `.hd` in it, followed in the link by `.hd` when it is shorter; the whole link when it has no `.hd` |
| BackgroundVideo.Candidates | utility/video/background_video_generator.py:180-229 | the candidates are exactly the videos passing the primary filter, or, only when none does, exactly those passing the fallback filter, in both cases as the order-keeping filter of the input |
| BackgroundVideo.Filter | utility/video/background_video_generator.py:183-203 | the kept elements all pass and come from the input, and every passing input element is kept |
| BackgroundVideo.FilterAppend | utility/video/background_video_generator.py:183-203 | the loop works element by element: filtering `a + b` gives the kept elements of `a` followed by those of `b`, so the input order is kept |
| BackgroundVideo.FilterCount | utility/video/background_video_generator.py:183-203 | a passing element is kept exactly as often as it occurs in the input, and no failing element is kept |
| BackgroundVideo.VideoLink | utility/video/background_video_generator.py:238-288 | a video yields a link exactly when one of its files passes the link, dimension, used-link and orientation checks. The link is that of an acceptable file whose sort key (largest area first) is not beaten by any acceptable file of the video |
| BackgroundVideo.FirstGoodFileAt | utility/video/background_video_generator.py:261-284 | the inner loop returns the link of the first file that passes every check |
| BackgroundVideo.SortedBestFile | utility/video/background_video_generator.py:244-284 | after the `reverse=True` sort, the first acceptable file has a key no acceptable file of the video beats: no larger area, and on equal areas no long side farther from 1920, then no short side farther from 1080 |
| BackgroundVideo.TryVideos | utility/video/background_video_generator.py:238-291 | a link is found exactly when some video has an acceptable file, and it is the link of the first such video in sort order |
| BackgroundVideo.BestVideo | utility/video/background_video_generator.py:168-291 | no videos gives `None`. Otherwise a link is returned exactly when some candidate video has an acceptable file. The link is the best link of a playable candidate whose duration is as close to 12 s as any playable candidate's. The link's base is not in `used_vids`. Its file has positive dimensions, and either height > width with height ≥ 720 (portrait) or width > height with width ≥ 1280 (landscape) |
| BackgroundVideo.SortedCandidatesClosest | utility/video/background_video_generator.py:231-291 | trying the candidates after sorting by `abs(12 - duration)` yields the best link of a playable candidate at least as close to 12 s as every other playable candidate |
| Sorting.SortBy | utility/video/background_video_generator.py:231-257 | `sorted(..., key=...)` returns a permutation of its input ordered by the key |
| BackgroundVideo.SegmentTime | utility/video/background_video_generator.py:331-342 | each segment's time is a sequence of at least two items. It is the segment's own first item when that is a pair, and `(-1, -1)` for a non-sequence or empty segment. Otherwise it is the `(start, end)` that the lenient normaliser finds for the segment, or `(-1, -1)` when that finds none |
| BackgroundVideo.SegmentTimeFlat | utility/video/background_video_generator.py:331-342 | a flat segment `[start, end, terms]` gets the time `(start, end)` |
| BackgroundVideo.GenerateVideoUrls | utility/video/background_video_generator.py:293-411 | `None`, empty, non-list input or a server other than "pexel" gives `[]`. For "pexel" there is exactly one entry per segment, in order, and every url is `None` |
| Pipeline.UrlEntriesNotMerged | utility/video/video_search_query_generator.py:289 | `merge_empty_intervals` drops every entry of `generate_video_url_fixed`, because they are tuples, not lists |
| Render.NormalizeStrict | utility/render/render_engine.py:8-55 | falsy or non-sequence input gives `None`. Two items: needs a time pair of exactly two numbers and gives `((s, e), second)`. Three items: only flat `(start, end, content)`. Any other length gives `None`. Whatever it accepts, the lenient normaliser of the background-video generator accepts with the same result |
| Render.LenientAcceptsMore | utility/render/render_engine.py:42-48 | a nested `((s, e), c, x)` is normalised by the lenient variant and rejected by the strict one |
| Render.FrameFor | utility/render/render_engine.py:78-84 | "portrait" gives 1080×1920 with font 60; any other orientation gives 1920×1080 with font 80 |
| Render.CenterCrop | utility/render/render_engine.py:126-131 | a crop happens exactly when the clip is wider than the frame. The window is exactly the frame width, lies inside the clip, and its two margins differ by at most one pixel |
| Render.VideoClipOf | utility/render/render_engine.py:99-114 | an entry becomes a clip exactly when it normalises and its url is not `None`. The clip lasts `end - start` |
| Render.TextClipOf | utility/render/render_engine.py:157-191 | non-sequences and items with fewer than 2 elements are skipped. Two items get "white"; three or more use the third. The time must be a pair `float` accepts, and the stripped text must be non-empty. The clip lasts `end - start`. A caption becomes a clip exactly when `validate_caption_format` accepts it, with the same times, text and colour |
| Render.TextClipsMatchValidation | utility/render/render_engine.py:151-218 | the caption clips are, entry for entry, the captions `validate_caption_format` keeps |
| Render.PlanMedia | utility/render/render_engine.py:78-224 | `None` ("No clips created!") exactly when no video entry and no caption yields a clip. Otherwise the frame follows the orientation and no more clips than inputs are made |
| Script.ValidateGroqApi | utility/script/script_generator.py:5-10 | valid exactly when the key is present and longer than 30 characters, and then the key itself is returned |
| Script.FixJsonResponse | utility/script/script_generator.py:12-28 | empty input is returned unchanged. Otherwise there is no raw `\n` or `\r`. If the first `{` precedes the last `}`, the output is that slice and starts with `{` and ends with `}`. It is empty if the last `}` precedes the first `{`. It is the escaped, stripped text if either brace is missing |
| Script.FixJsonResponseIdempotent | utility/script/script_generator.py:12-28 | repairing an already repaired answer changes nothing |
| Script.ExtractScript | utility/script/script_generator.py:124-129 | a match yields a non-empty script with no `"`; there is one exactly when the pattern matches at some position, and it is the match at the leftmost such position |
| Script.SearchFromLeftmost | utility/script/script_generator.py:125 | the scan from a position returns the match at the first position from there where the pattern matches |
| Script.ExtractScriptRoundTrip | utility/script/script_generator.py:125-127 | an answer beginning `"script": "<text>"` gives back exactly `<text>` |
| Script.ScriptFromContent | utility/script/script_generator.py:92-131 | a returned script is truthy. If the answer parses as an object, its script is returned when truthy and `None` otherwise. A non-object answer gives `None`. After a decode error, the script of the repaired answer is returned when it is truthy; failing that, the regex match when there is one, and otherwise `None` |
| Script.ScriptFromUndecodable | utility/script/script_generator.py:105-129 | an answer the decoder rejects, before and after repair, that reads `"script": "<text>"...`, with `<text>` non-empty and free of `"`, gives back `<text>` through the regex |

The loops of the source are recursive helpers without rows of their own.
Their behaviour is stated by the rows of their callers:

- `SearchQueries.AttemptsFrom` (the retry loop) under `QueriesTimed` and `AttemptsFromDecided`;
- `SearchQueries.MergeFrom` (the merge loop) under `MergeFromUrls` and `MergeEmptyIntervals`;
- `BackgroundVideo.FirstGoodFile` (the file loop) under `FirstGoodFileAt` and `VideoLink`;
- `Script.SearchFrom` (the regex scan) under `SearchFromLeftmost` and `ExtractScript`;
- `Script.EscapeBreaks` and `Script.BraceSlice` under `FixJsonResponse`;
- `Render.VideoClips` and `Render.TextClips` under `PlanMedia` and `TextClipsMatchValidation`.

## Left out

- Network and API calls are not modelled: `search_videos`, `call_OpenAI`,
  `download_file`, the Groq client and the module-level client setup that calls
  `exit(1)`. The model's answers and the search response are inputs instead.
- Whisper transcription is not modelled. The grouping loop takes the word list
  as input; missing `word`, `start` and `end` keys are supplied by the caller
  as `""`, 0 and 0.
- moviepy is not modelled: clip construction, resizing, looping, compositing,
  audio and writing the file. Neither are `convert_to_wav`, temporary files,
  or exceptions raised inside moviepy.
- `advanced_json_parse` and `json.loads` are oracles, as they depend on the
  JSON decoder and the regex engine.
- SearchQueries.FixJson: the typographic-quote replacements of
  video_search_query_generator.py:78-79 are not modelled. Their characters are
  mangled in the source, and the second one replaces a literal code fragment.
- The wiring of url entries into the merge is hypothetical. app.py:7 imports
  `generate_video_url`, which background_video_generator.py does not define,
  so app.py never reaches the call at app.py:88 with
  `generate_video_url_fixed`'s output. The lemma is about the two functions
  themselves (`Pipeline.UrlEntriesNotMerged`).
- As written, the caption grouping loop is never reached.
  timed_captions_generator.py calls `whisper` at line 38 without importing it.
  That raises `NameError`, which the handler at lines 87-89 turns into `[]`.
  The model states what the loop does when it is given the words
  (`Captions.GroupWords`).
- utility/audio/audio_generator.py (TTS with async I/O) and app.py (argument
  parsing and orchestration) are not part of this model.
- Printing, logging and `preview_captions` are left out, because they do not
  change results.
- `float()` of strings is the `FloatParser` parameter. Python floats are exact
  reals, so rounding, NaN and infinities are not modelled.
- PyValues.Display: `str()` of a non-string is only modelled as non-empty text
  with no surrounding whitespace, not its exact characters. Only emptiness
  after `strip()` matters to the code.
- Text.Strip: whitespace means space, `\t`, `\n`, `\r`, `\v` and `\f`. Python's
  `strip()` and `\s` also cover `\x1c`-`\x1f` and non-ASCII spaces.
- Sorting.SortBy: stability is implemented (equal keys keep their input order)
  but not proved.
- BackgroundVideo.BestVideo: among playable candidates equally close to 12 s,
  the one whose link is returned is not identified. The source takes the
  earliest in input order, which follows from the unproved stability of the
  sort. The same applies to files with equal keys in
  BackgroundVideo.VideoLink.
- Python dicts are not a kind of `Value`. Their behaviour is not modelled where
  they could appear: a dict segment in `merge_empty_intervals`, the dict shape
  of search responses, or a JSON object returned by the parse oracle.
- BackgroundVideo.BestVideo: the `except` paths for durations or dimensions
  that are not integers are not modelled. Those paths either leave the
  candidates unsorted or raise, and durations and dimensions here are
  integers. A `link` key whose value is not a string is not modelled either.
- BackgroundVideo.GenerateVideoUrls: the search-term checks at
  background_video_generator.py:347-391 are not modelled. They only decide
  which log lines are printed, because the lookup that would set the url is
  commented out. The `orientation` argument has no effect on the output.
- SearchQueries.QueriesTimed: the `script` argument is not modelled, because
  it only reaches the prompt sent to the model.
