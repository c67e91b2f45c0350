/** How the stages fit together: the url entries of the per-segment
    mapping are tuples, while `merge_empty_intervals` only accepts lists. */
module Pipeline {

  import opened PyValues
  import SearchQueries
  import BackgroundVideo

  /** The loop skips a suffix made only of segments that are not
      two-item lists. */
  lemma {:induction false} MergeSkipsNonPairs(segs: seq<Value>, i: nat, merged: seq<SearchQueries.Merged>)
    requires i <= |segs|
    requires forall k :: i <= k < |segs| ==> !SearchQueries.IsPair(segs[k])
    ensures SearchQueries.MergeFrom(segs, i, merged) == merged
    decreases |segs| - i
  {
    if i < |segs| {
      MergeSkipsNonPairs(segs, i + 1, merged);
    }
  }

  /** Merging the entries `generate_video_url_fixed` produces gives the
      empty list: each entry is a tuple `(time_info, url)` and fails the
      `isinstance(segments[i], list)` test. */
  lemma UrlEntriesNotMerged(searches: Value, server: string, parse: FloatParser)
    ensures var entries := BackgroundVideo.GenerateVideoUrls(searches, server, parse);
      SearchQueries.MergeEmptyIntervals(List(seq(|entries|, k requires 0 <= k < |entries| => BackgroundVideo.EntryValue(entries[k])))) == []
  {
    var entries := BackgroundVideo.GenerateVideoUrls(searches, server, parse);
    var segs := seq(|entries|, k requires 0 <= k < |entries| => BackgroundVideo.EntryValue(entries[k]));
    if |segs| > 0 {
      MergeSkipsNonPairs(segs, 0, []);
    }
  }
}
