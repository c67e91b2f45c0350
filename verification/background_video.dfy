/** Background-video selection (utility/video/background_video_generator.py):
    the tolerant tuple helpers, the choice of a stock-video file among
    search results, and the mapping from search segments to url entries. */
module BackgroundVideo {

  import opened PyValues
  import Text
  import Sorting

  // ---------------------------------------------------------------------
  // safe_unpack

  /** `default_values and len(default_values) == expected_count`.  `None`
      and `[]` for `default_values` behave alike, so defaults are a
      sequence, empty when absent. */
  predicate DefaultsUsable(defaults: seq<Value>, expectedCount: nat) {
    |defaults| > 0 && |defaults| == expectedCount
  }

  function Nones(n: nat): (r: seq<Value>)
    ensures |r| == n && forall k :: 0 <= k < n ==> r[k] == Nil
  {
    seq(n, _ => Nil)
  }

  /** `safe_unpack(data, expected_count, default_values)`: a tuple of
      exactly `expected_count` values.  Position `k` holds `data[k]` when
      `data` is a list or tuple long enough, otherwise the default at `k`
      when the defaults are usable, otherwise `None`. */
  function SafeUnpack(data: Value, expectedCount: nat, defaults: seq<Value>): (r: seq<Value>)
    ensures |r| == expectedCount
    ensures forall k :: 0 <= k < expectedCount ==>
      r[k] == (if data.IsSeq() && k < |data.items| then data.items[k]
               else if DefaultsUsable(defaults, expectedCount) then defaults[k]
               else Nil)
    ensures data.IsSeq() && |data.items| >= expectedCount ==> r == data.items[..expectedCount]
    ensures data.IsSeq() && |data.items| < expectedCount ==> r[..|data.items|] == data.items
  {
    if !data.IsSeq() then
      if DefaultsUsable(defaults, expectedCount) then defaults else Nones(expectedCount)
    else if |data.items| == expectedCount then data.items
    else if |data.items| > expectedCount then data.items[..expectedCount]
    else if DefaultsUsable(defaults, expectedCount) then
      (data.items + defaults[|data.items|..])[..expectedCount]
    else data.items + Nones(expectedCount - |data.items|)
  }

  // ---------------------------------------------------------------------
  // normalize_data_format (the lenient variant)

  /** `(float(p[0]), float(p[1]))` for a list or tuple `p` of at least two
      items, `None` when it is not one or `float` raises. */
  function TimesOf(p: Value, parse: FloatParser): (r: Option<(real, real)>)
    ensures r.Some? ==> p.IsSeq() && |p.items| >= 2
    ensures r.Some? <==>
      && p.IsSeq() && |p.items| >= 2
      && ToFloat(p.items[0], parse).Some? && ToFloat(p.items[1], parse).Some?
    ensures r.Some? ==> r.value == (ToFloat(p.items[0], parse).value, ToFloat(p.items[1], parse).value)
  {
    if !(p.IsSeq() && |p.items| >= 2) then None
    else
      match (ToFloat(p.items[0], parse), ToFloat(p.items[1], parse))
      case (Some(s), Some(e)) => Some((s, e))
      case _ => None
  }

  /** `(float(a), float(b))` for two loose values. */
  function FlatTimes(a: Value, b: Value, parse: FloatParser): (r: Option<(real, real)>)
    ensures r.Some? <==> ToFloat(a, parse).Some? && ToFloat(b, parse).Some?
    ensures r.Some? ==> r.value == (ToFloat(a, parse).value, ToFloat(b, parse).value)
  {
    match (ToFloat(a, parse), ToFloat(b, parse))
    case (Some(s), Some(e)) => Some((s, e))
    case _ => None
  }

  function WithContent(t: Option<(real, real)>, content: Value): (r: Option<Timed>)
    ensures r.Some? <==> t.Some?
    ensures r.Some? ==> r.value == Timed(t.value.0, t.value.1, content)
  {
    match t
    case Some(p) => Some(Timed(p.0, p.1, content))
    case None => None
  }

  /** `normalize_data_format` of background_video_generator.py.  Both
      two-item branches of the source test the same thing (the second,
      list-only, test repeats the first), so one test stands for them. */
  function NormalizeLenient(data: Value, parse: FloatParser): (r: Option<Timed>)
    ensures !Truthy(data) || !data.IsSeq() ==> r.None?
    ensures r.Some? ==> 2 <= |data.items|
    ensures data.IsSeq() && |data.items| == 2 ==>
      r == WithContent(TimesOf(data.items[0], parse), data.items[1])
    ensures data.IsSeq() && |data.items| == 3 ==>
      r == if TimesOf(data.items[0], parse).Some?
           then WithContent(TimesOf(data.items[0], parse), data.items[1])
           else WithContent(FlatTimes(data.items[0], data.items[1], parse), data.items[2])
    ensures data.IsSeq() && |data.items| > 3 ==>
      r == if data.items[0].IsSeq() && |data.items[0].items| >= 2
           then WithContent(TimesOf(data.items[0], parse), data.items[1])
           else WithContent(FlatTimes(data.items[0], data.items[1], parse), data.items[2])
  {
    if !Truthy(data) || !data.IsSeq() then None
    else
      var xs := data.items;
      if |xs| == 2 then WithContent(TimesOf(xs[0], parse), xs[1])
      else if |xs| == 3 then
        match TimesOf(xs[0], parse)
        case Some(t) => Some(Timed(t.0, t.1, xs[1]))
        case None => WithContent(FlatTimes(xs[0], xs[1], parse), xs[2])
      else if |xs| > 3 then
        if xs[0].IsSeq() && |xs[0].items| >= 2 then WithContent(TimesOf(xs[0], parse), xs[1])
        else WithContent(FlatTimes(xs[0], xs[1], parse), xs[2])
      else None
  }

  // ---------------------------------------------------------------------
  // getBestVideo

  /** One downloadable file of a search hit.  A missing `link` is `None`,
      missing dimensions are 0 (the source's `.get(..., 0)`). */
  datatype VideoFile = VideoFile(link: Option<string>, width: int, height: int)

  /** One search hit.  A missing `width`/`height` is 0 and a missing
      `duration` is 12; `files` is `None` when `video_files` is absent. */
  datatype Video = Video(width: int, height: int, duration: int, files: Option<seq<VideoFile>>)

  /** The primary filter: positive dimensions, at least 720x1080
      (portrait) or 1920x1080 (landscape), and a long-side/short-side
      ratio between 1.5 and 2.0, by cross-multiplication. */
  predicate PrimaryOk(v: Video, portrait: bool) {
    && v.width > 0 && v.height > 0
    && if portrait then
         v.height >= 1080 && v.width >= 720 && 2 * v.height >= 3 * v.width && v.height <= 2 * v.width
       else
         v.width >= 1920 && v.height >= 1080 && 2 * v.width >= 3 * v.height && v.width <= 2 * v.height
  }

  /** The fallback filter: the right orientation and a long side of at
      least 720 (portrait) or 1280 (landscape). */
  predicate FallbackOk(v: Video, portrait: bool) {
    if portrait then v.height > v.width && v.height >= 720
    else v.width > v.height && v.width >= 1280
  }

  /** The files the source would return: a link, positive dimensions, a
      link base not used before, and the requested orientation. */
  predicate FileOk(f: VideoFile, portrait: bool, used: seq<string>) {
    && f.link.Some?
    && f.width > 0 && f.height > 0
    && LinkBase(f.link.value) !in used
    && if portrait then f.height > f.width && f.height >= 720
       else f.width > f.height && f.width >= 1280
  }

  /** `link.split('.hd')[0] if '.hd' in link else link`: the link up to the
      first `.hd`. */
  function LinkBase(link: string): (r: string)
    ensures |r| <= |link| && r == link[..|r|]
    ensures (forall k :: 0 <= k <= |link| - 3 ==> !Text.OccursAt(link, ".hd", k)) ==> r == link
    ensures forall k :: 0 <= k <= |r| - 3 ==> !Text.OccursAt(r, ".hd", k)
    ensures |r| < |link| ==> Text.OccursAt(link, ".hd", |r|)
  {
    var i := Text.FindSub(link, ".hd");
    if i >= 0 then
      forall k | 0 <= k <= i - 3
        ensures !Text.OccursAt(link[..i], ".hd", k)
      {
        assert |".hd"| == 3;
        assert !Text.OccursAt(link, ".hd", k);
        assert link[..i][k..k + 3] == link[k..k + 3];
      }
      link[..i]
    else link
  }

  /** `filter(p, s)` keeping order. */
  function Filter<T(!new)>(s: seq<T>, p: T -> bool): (r: seq<T>)
    ensures |r| <= |s|
    ensures forall i :: 0 <= i < |r| ==> r[i] in s && p(r[i])
    ensures forall i :: 0 <= i < |s| && p(s[i]) ==> s[i] in r
    decreases |s|
  {
    if |s| == 0 then []
    else (if p(s[0]) then [s[0]] else []) + Filter(s[1..], p)
  }

  /** Every element that passes is kept as often as it occurs, and no
      other element is kept. */
  lemma {:induction false} FilterCount<T(!new)>(s: seq<T>, p: T -> bool)
    ensures forall x :: multiset(Filter(s, p))[x] == if p(x) then multiset(s)[x] else 0
    decreases |s|
  {
    if |s| > 0 {
      FilterCount(s[1..], p);
      var head := if p(s[0]) then [s[0]] else [];
      assert Filter(s, p) == head + Filter(s[1..], p);
      assert multiset(s) == multiset{s[0]} + multiset(s[1..]) by {
        assert s == [s[0]] + s[1..];
      }
    }
  }

  /** Filtering works element by element: the kept elements of `a + b`
      are those of `a` followed by those of `b`, so input order is kept. */
  lemma {:induction false} FilterAppend<T(!new)>(a: seq<T>, b: seq<T>, p: T -> bool)
    ensures Filter(a + b, p) == Filter(a, p) + Filter(b, p)
    decreases |a|
  {
    if |a| == 0 {
      assert a + b == b;
    } else {
      var head := if p(a[0]) then [a[0]] else [];
      assert (a + b)[0] == a[0];
      assert (a + b)[1..] == a[1..] + b;
      assert Filter(a + b, p) == head + Filter(a[1..] + b, p);
      FilterAppend(a[1..], b, p);
      assert Filter(a, p) == head + Filter(a[1..], p);
      ConcatAssoc(head, Filter(a[1..], p), Filter(b, p));
    }
  }

  lemma ConcatAssoc<T>(x: seq<T>, y: seq<T>, z: seq<T>)
    ensures x + (y + z) == (x + y) + z
  {
  }

  /** The videos the search continues with: those passing the primary
      filter, or, only when there are none, those passing the fallback. */
  function Candidates(videos: seq<Video>, portrait: bool): (r: seq<Video>)
    ensures forall v :: v in r ==> v in videos
    ensures (exists v :: v in videos && PrimaryOk(v, portrait)) ==>
      && (forall v :: v in r <==> v in videos && PrimaryOk(v, portrait))
      && r == Filter(videos, PrimaryTest(portrait))
    ensures (forall v :: v in videos ==> !PrimaryOk(v, portrait)) ==>
      && (forall v :: v in r <==> v in videos && FallbackOk(v, portrait))
      && r == Filter(videos, FallbackTest(portrait))
  {
    var primary := Filter(videos, PrimaryTest(portrait));
    if |primary| > 0 then
      assert primary[0] in videos && PrimaryOk(primary[0], portrait);
      primary
    else
      Filter(videos, FallbackTest(portrait))
  }

  /** The two filters as the predicates handed to `Filter`. */
  function PrimaryTest(portrait: bool): Video -> bool {
    v => PrimaryOk(v, portrait)
  }

  function FallbackTest(portrait: bool): Video -> bool {
    v => FallbackOk(v, portrait)
  }

  /** The sort key of a video: the distance of its duration from 12 s. */
  function DurationKey(v: Video): seq<int> {
    [AbsInt(12 - v.duration)]
  }

  /** The sort key of a file, negated because the source sorts with
      `reverse=True`: the largest area first; among equal areas, the long
      side FARTHEST from 1920 first, then the short side farthest from
      1080, since the reversal applies to the whole tuple. */
  function FileKey(portrait: bool): VideoFile -> seq<int> {
    if portrait then
      (f: VideoFile) => [-(f.height * f.width), -AbsInt(1920 - f.height), -AbsInt(1080 - f.width)]
    else
      (f: VideoFile) => [-(f.height * f.width), -AbsInt(1920 - f.width), -AbsInt(1080 - f.height)]
  }

  predicate HasGoodFile(files: seq<VideoFile>, portrait: bool, used: seq<string>) {
    exists j :: 0 <= j < |files| && FileOk(files[j], portrait, used)
  }

  /** `link` is the link of an acceptable file among `files`. */
  predicate GoodLink(files: seq<VideoFile>, link: string, portrait: bool, used: seq<string>) {
    exists f :: f in files && FileOk(f, portrait, used) && f.link == Some(link)
  }

  /** Past a file that is not acceptable, the rest has the same
      acceptable files. */
  lemma GoodFileTail(files: seq<VideoFile>, portrait: bool, used: seq<string>)
    requires |files| > 0 && !FileOk(files[0], portrait, used)
    ensures HasGoodFile(files, portrait, used) <==> HasGoodFile(files[1..], portrait, used)
    ensures forall link :: GoodLink(files[1..], link, portrait, used) ==> GoodLink(files, link, portrait, used)
  {
    if HasGoodFile(files, portrait, used) {
      var j :| 0 <= j < |files| && FileOk(files[j], portrait, used);
      assert files[1..][j - 1] == files[j];
    }
    if HasGoodFile(files[1..], portrait, used) {
      var j :| 0 <= j < |files[1..]| && FileOk(files[1..][j], portrait, used);
      assert files[j + 1] == files[1..][j];
    }
    forall link | GoodLink(files[1..], link, portrait, used)
      ensures GoodLink(files, link, portrait, used)
    {
      var f :| f in files[1..] && FileOk(f, portrait, used) && f.link == Some(link);
      assert f in files;
    }
  }

  /** The link of the first acceptable file. */
  function FirstGoodFile(files: seq<VideoFile>, portrait: bool, used: seq<string>): (r: Option<string>)
    ensures r.Some? <==> HasGoodFile(files, portrait, used)
    ensures r.Some? ==> GoodLink(files, r.value, portrait, used)
    decreases |files|
  {
    if |files| == 0 then None
    else if FileOk(files[0], portrait, used) then files[0].link
    else
      GoodFileTail(files, portrait, used);
      FirstGoodFile(files[1..], portrait, used)
  }

  /** A video has a file the source would accept. */
  predicate Playable(v: Video, portrait: bool, used: seq<string>) {
    v.files.Some? && HasGoodFile(v.files.value, portrait, used)
  }

  lemma SortedGoodFile(files: seq<VideoFile>, portrait: bool, used: seq<string>)
    ensures HasGoodFile(Sorting.SortBy(files, FileKey(portrait)), portrait, used) <==> HasGoodFile(files, portrait, used)
  {
    var s := Sorting.SortBy(files, FileKey(portrait));
    Sorting.SortByMembers(files, FileKey(portrait));
    if HasGoodFile(files, portrait, used) {
      var j :| 0 <= j < |files| && FileOk(files[j], portrait, used);
      assert files[j] in s;
    }
    if HasGoodFile(s, portrait, used) {
      var j :| 0 <= j < |s| && FileOk(s[j], portrait, used);
      assert s[j] in files;
    }
  }

  /** `files[j]` is the first acceptable file of `files`. */
  predicate FirstGoodAt(files: seq<VideoFile>, j: int, portrait: bool, used: seq<string>) {
    && 0 <= j < |files| && FileOk(files[j], portrait, used)
    && forall k :: 0 <= k < j ==> !FileOk(files[k], portrait, used)
  }

  /** The link found is that of the first acceptable file. */
  lemma {:induction false} FirstGoodFileAt(files: seq<VideoFile>, portrait: bool, used: seq<string>)
    ensures FirstGoodFile(files, portrait, used).Some? ==>
      exists j :: FirstGoodAt(files, j, portrait, used) && files[j].link == FirstGoodFile(files, portrait, used)
    decreases |files|
  {
    if |files| > 0 {
      if FileOk(files[0], portrait, used) {
        assert FirstGoodAt(files, 0, portrait, used);
      } else {
        FirstGoodFileAt(files[1..], portrait, used);
        var r := FirstGoodFile(files[1..], portrait, used);
        if r.Some? {
          var j :| FirstGoodAt(files[1..], j, portrait, used) && files[1..][j].link == r;
          assert files[j + 1] == files[1..][j];
          forall k | 0 <= k < j + 1
            ensures !FileOk(files[k], portrait, used)
          {
            if k > 0 { assert files[k] == files[1..][k - 1]; }
          }
          assert FirstGoodAt(files, j + 1, portrait, used);
        }
      }
    }
  }

  /** `f` is an acceptable file of `files` that no acceptable file beats
      under the sort key: the largest area, then the tie-breaks of
      `FileKey`. */
  predicate BestGoodFile(files: seq<VideoFile>, f: VideoFile, portrait: bool, used: seq<string>) {
    && f in files && FileOk(f, portrait, used)
    && forall g :: g in files && FileOk(g, portrait, used) ==>
         Sorting.LexLe(FileKey(portrait)(f), FileKey(portrait)(g))
  }

  /** In a list sorted by the file key, the first acceptable file beats
      every acceptable file of any list whose files all occur in it. */
  lemma FirstGoodIsBest(sorted: seq<VideoFile>, files: seq<VideoFile>, j: int, portrait: bool, used: seq<string>)
    requires Sorting.SortedBy(sorted, FileKey(portrait)) && FirstGoodAt(sorted, j, portrait, used)
    requires sorted[j] in files && forall g :: g in files ==> g in sorted
    ensures BestGoodFile(files, sorted[j], portrait, used)
  {
    var key := FileKey(portrait);
    forall g | g in files && FileOk(g, portrait, used)
      ensures Sorting.LexLe(key(sorted[j]), key(g))
    {
      var m :| 0 <= m < |sorted| && sorted[m] == g;
      assert j <= m;
      Sorting.LexLeTotal(key(g), key(g));
    }
  }

  /** The first acceptable file after sorting is a best one. */
  lemma SortedBestFile(files: seq<VideoFile>, portrait: bool, used: seq<string>)
    ensures var r := FirstGoodFile(Sorting.SortBy(files, FileKey(portrait)), portrait, used);
      r.Some? ==> exists f :: BestGoodFile(files, f, portrait, used) && f.link == r
  {
    var sorted := Sorting.SortBy(files, FileKey(portrait));
    var r := FirstGoodFile(sorted, portrait, used);
    if r.Some? {
      FirstGoodFileAt(sorted, portrait, used);
      Sorting.SortByMembers(files, FileKey(portrait));
      var j :| FirstGoodAt(sorted, j, portrait, used) && sorted[j].link == r;
      FirstGoodIsBest(sorted, files, j, portrait, used);
    }
  }

  /** The files of one video, best first, and the first acceptable one:
      a link of an acceptable file that no acceptable file of the video
      beats under the sort key. */
  function VideoLink(v: Video, portrait: bool, used: seq<string>): (r: Option<string>)
    ensures r.Some? <==> Playable(v, portrait, used)
    ensures r.Some? ==> v.files.Some? && GoodLink(v.files.value, r.value, portrait, used)
    ensures r.Some? ==> v.files.Some? && exists f :: BestGoodFile(v.files.value, f, portrait, used) && f.link == r
  {
    match v.files
    case None => None
    case Some(files) =>
      var sorted := Sorting.SortBy(files, FileKey(portrait));
      SortedGoodFile(files, portrait, used);
      SortedBestFile(files, portrait, used);
      Sorting.SortByMembers(files, FileKey(portrait));
      var r := FirstGoodFile(sorted, portrait, used);
      assert r.Some? ==> GoodLink(files, r.value, portrait, used) by {
        if r.Some? {
          var f :| f in sorted && FileOk(f, portrait, used) && f.link == Some(r.value);
          assert f in files;
        }
      }
      r
  }

  /** `link` is the link `videos[i]` yields, and no earlier video has an
      acceptable file. */
  predicate FirstPlayableLink(videos: seq<Video>, i: int, link: string, portrait: bool, used: seq<string>) {
    && 0 <= i < |videos|
    && videos[i].files.Some? && GoodLink(videos[i].files.value, link, portrait, used)
    && VideoLink(videos[i], portrait, used) == Some(link)
    && forall k :: 0 <= k < i ==> !Playable(videos[k], portrait, used)
  }

  /** Past a video that is not playable, the rest has the same playable
      videos, and a first one there is a first one overall. */
  lemma PlayableTail(videos: seq<Video>, portrait: bool, used: seq<string>)
    requires |videos| > 0 && !Playable(videos[0], portrait, used)
    ensures (exists i :: 0 <= i < |videos| && Playable(videos[i], portrait, used))
      <==> (exists i :: 0 <= i < |videos[1..]| && Playable(videos[1..][i], portrait, used))
    ensures forall i, link :: FirstPlayableLink(videos[1..], i, link, portrait, used) ==>
      FirstPlayableLink(videos, i + 1, link, portrait, used)
  {
    if exists i :: 0 <= i < |videos| && Playable(videos[i], portrait, used) {
      var i :| 0 <= i < |videos| && Playable(videos[i], portrait, used);
      assert videos[1..][i - 1] == videos[i];
    }
    if exists i :: 0 <= i < |videos[1..]| && Playable(videos[1..][i], portrait, used) {
      var i :| 0 <= i < |videos[1..]| && Playable(videos[1..][i], portrait, used);
      assert videos[i + 1] == videos[1..][i];
    }
    forall i, link | FirstPlayableLink(videos[1..], i, link, portrait, used)
      ensures FirstPlayableLink(videos, i + 1, link, portrait, used)
    {
      assert videos[i + 1] == videos[1..][i];
      forall k | 0 <= k < i + 1
        ensures !Playable(videos[k], portrait, used)
      {
        if k > 0 { assert videos[k] == videos[1..][k - 1]; }
      }
    }
  }

  /** The loop over the sorted videos: the first video with an acceptable
      file supplies the link of its best such file. */
  function TryVideos(videos: seq<Video>, portrait: bool, used: seq<string>): (r: Option<string>)
    ensures r.Some? <==> exists i :: 0 <= i < |videos| && Playable(videos[i], portrait, used)
    ensures r.Some? ==> exists i :: FirstPlayableLink(videos, i, r.value, portrait, used)
    decreases |videos|
  {
    if |videos| == 0 then None
    else
      var here := VideoLink(videos[0], portrait, used);
      if here.Some? then
        assert FirstPlayableLink(videos, 0, here.value, portrait, used);
        here
      else
        PlayableTail(videos, portrait, used);
        TryVideos(videos[1..], portrait, used)
  }

  /** What any returned link satisfies: its base is not in `used`, and it
      is the link of a file with positive dimensions in the requested
      orientation. */
  ghost predicate AcceptableLink(link: string, portrait: bool, used: seq<string>) {
    && LinkBase(link) !in used
    && exists f: VideoFile ::
      && f.link == Some(link) && f.width > 0 && f.height > 0
      && (portrait ==> f.height > f.width && f.height >= 720)
      && (!portrait ==> f.width > f.height && f.width >= 1280)
  }

  lemma GoodLinkAcceptable(files: seq<VideoFile>, link: string, portrait: bool, used: seq<string>)
    requires GoodLink(files, link, portrait, used)
    ensures AcceptableLink(link, portrait, used)
  {
    var f :| f in files && FileOk(f, portrait, used) && f.link == Some(link);
    assert f.link.value == link;
  }

  /** Trying the candidates in duration order finds a link exactly when
      some candidate is playable. */
  lemma SortedCandidatesPlayable(candidates: seq<Video>, portrait: bool, used: seq<string>)
    ensures TryVideos(Sorting.SortBy(candidates, DurationKey), portrait, used).Some?
      <==> exists v :: v in candidates && Playable(v, portrait, used)
  {
    var sorted := Sorting.SortBy(candidates, DurationKey);
    Sorting.SortByMembers(candidates, DurationKey);
    if exists v :: v in candidates && Playable(v, portrait, used) {
      var v :| v in candidates && Playable(v, portrait, used);
      var i :| 0 <= i < |sorted| && sorted[i] == v;
    }
  }

  /** A link found comes from an acceptable file of a candidate. */
  lemma SortedCandidatesLink(candidates: seq<Video>, portrait: bool, used: seq<string>)
    ensures var r := TryVideos(Sorting.SortBy(candidates, DurationKey), portrait, used);
      r.Some? ==>
        && (exists v :: v in candidates && v.files.Some? && GoodLink(v.files.value, r.value, portrait, used))
        && AcceptableLink(r.value, portrait, used)
  {
    var sorted := Sorting.SortBy(candidates, DurationKey);
    var r := TryVideos(sorted, portrait, used);
    if r.Some? {
      Sorting.SortByMembers(candidates, DurationKey);
      var i :| FirstPlayableLink(sorted, i, r.value, portrait, used);
      assert sorted[i] in candidates;
      GoodLinkAcceptable(sorted[i].files.value, r.value, portrait, used);
    }
  }

  /** `v` is a playable candidate whose duration is as close to 12 s as
      that of any playable candidate. */
  predicate ClosestPlayable(candidates: seq<Video>, v: Video, portrait: bool, used: seq<string>) {
    && v in candidates && Playable(v, portrait, used)
    && forall w :: w in candidates && Playable(w, portrait, used) ==>
         AbsInt(12 - v.duration) <= AbsInt(12 - w.duration)
  }

  /** `videos[i]` is the first playable video of `videos`. */
  predicate FirstPlayableAt(videos: seq<Video>, i: int, portrait: bool, used: seq<string>) {
    && 0 <= i < |videos| && Playable(videos[i], portrait, used)
    && forall k :: 0 <= k < i ==> !Playable(videos[k], portrait, used)
  }

  /** In a list sorted by duration key, the first playable video is at
      least as close to 12 s as every playable video of any list whose
      videos all occur in it. */
  lemma FirstPlayableIsClosest(sorted: seq<Video>, candidates: seq<Video>, i: int, portrait: bool, used: seq<string>)
    requires Sorting.SortedBy(sorted, DurationKey) && FirstPlayableAt(sorted, i, portrait, used)
    requires sorted[i] in candidates && forall w :: w in candidates ==> w in sorted
    ensures ClosestPlayable(candidates, sorted[i], portrait, used)
  {
    forall w | w in candidates && Playable(w, portrait, used)
      ensures AbsInt(12 - sorted[i].duration) <= AbsInt(12 - w.duration)
    {
      var m :| 0 <= m < |sorted| && sorted[m] == w;
      assert i <= m;
      if i < m {
        assert Sorting.LexLe(DurationKey(sorted[i]), DurationKey(sorted[m]));
      }
    }
  }

  /** The link found comes from a playable candidate of least distance
      from 12 s, and is that video's own best link. */
  lemma SortedCandidatesClosest(candidates: seq<Video>, portrait: bool, used: seq<string>)
    ensures var r := TryVideos(Sorting.SortBy(candidates, DurationKey), portrait, used);
      r.Some? ==> exists v :: ClosestPlayable(candidates, v, portrait, used) && VideoLink(v, portrait, used) == r
  {
    var sorted := Sorting.SortBy(candidates, DurationKey);
    var r := TryVideos(sorted, portrait, used);
    if r.Some? {
      Sorting.SortByMembers(candidates, DurationKey);
      var i :| FirstPlayableLink(sorted, i, r.value, portrait, used);
      assert FirstPlayableAt(sorted, i, portrait, used);
      FirstPlayableIsClosest(sorted, candidates, i, portrait, used);
    }
  }

  /** `getBestVideo` with the search response as input (`None` when it has
      no `videos` key).  The link returned comes from a file that passes
      every check, of a video that passed the filters; there is one
      exactly when some candidate video has an acceptable file, and it is
      the best link of a playable candidate closest to 12 s. */
  function BestVideo(response: Option<seq<Video>>, portrait: bool, used: seq<string>): (r: Option<string>)
    ensures response.None? || response == Some([]) ==> r.None?
    ensures response.Some? ==>
      (r.Some? <==> exists v :: v in Candidates(response.value, portrait) && Playable(v, portrait, used))
    ensures r.Some? ==> exists v :: v in Candidates(response.value, portrait) && v.files.Some?
                                 && GoodLink(v.files.value, r.value, portrait, used)
    ensures r.Some? ==> AcceptableLink(r.value, portrait, used)
    ensures r.Some? ==> exists v :: ClosestPlayable(Candidates(response.value, portrait), v, portrait, used)
                                 && VideoLink(v, portrait, used) == r
  {
    match response
    case None => None
    case Some(videos) =>
      if |videos| == 0 then None
      else
        var candidates := Candidates(videos, portrait);
        if |candidates| == 0 then None
        else
          var r := TryVideos(Sorting.SortBy(candidates, DurationKey), portrait, used);
          SortedCandidatesPlayable(candidates, portrait, used);
          SortedCandidatesLink(candidates, portrait, used);
          SortedCandidatesClosest(candidates, portrait, used);
          r
  }

  // ---------------------------------------------------------------------
  // generate_video_url_fixed

  /** `(time_info, url)`.  The url is always `None`: the lookup that would
      fill it is commented out in the source. */
  datatype UrlEntry = UrlEntry(time: Value, url: Option<string>)

  /** The time of a segment: the first item of its `safe_unpack`, or, when
      that is not a pair, the time found by `normalize_data_format`, or
      `(-1, -1)`. */
  function SegmentTime(item: Value, parse: FloatParser): (t: Value)
    ensures t.IsSeq() && |t.items| >= 2
    ensures !item.IsSeq() || |item.items| == 0 ==> t == TimePair(-1.0, -1.0)
    ensures item.IsSeq() && |item.items| > 0 && item.items[0].IsSeq() && |item.items[0].items| >= 2 ==> t == item.items[0]
    ensures item.IsSeq() && |item.items| > 0 && !(item.items[0].IsSeq() && |item.items[0].items| >= 2) ==>
      t == match NormalizeLenient(item, parse)
           case Some(n) => TimePair(n.start, n.end)
           case None => TimePair(-1.0, -1.0)
  {
    var timeInfo := SafeUnpack(item, 2, [TimePair(-1.0, -1.0), Nil])[0];
    if timeInfo.IsSeq() && |timeInfo.items| >= 2 then timeInfo
    else
      match NormalizeLenient(item, parse)
      case Some(n) => TimePair(n.start, n.end)
      case None => TimePair(-1.0, -1.0)
  }

  /** A flat segment `[start, end, terms]` is read through the
      normaliser: `[0, 5, "kw"]` gets the time `(0.0, 5.0)`. */
  lemma SegmentTimeFlat(start: real, end: real, terms: Value, parse: FloatParser)
    ensures SegmentTime(List([Num(start), Num(end), terms]), parse) == TimePair(start, end)
  {
    var item := List([Num(start), Num(end), terms]);
    assert TimesOf(item.items[0], parse).None?;
    assert FlatTimes(Num(start), Num(end), parse) == Some((start, end));
  }

  /** `generate_video_url_fixed`: nothing for `None`, an empty or non-list
      input or a server other than "pexel"; otherwise one entry per
      segment, in order, each without a url. */
  function GenerateVideoUrls(searches: Value, server: string, parse: FloatParser): (r: seq<UrlEntry>)
    ensures !searches.List? || |searches.items| == 0 || server != "pexel" ==> r == []
    ensures searches.List? && server == "pexel" ==>
      && |r| == |searches.items|
      && forall k :: 0 <= k < |r| ==> r[k] == UrlEntry(SegmentTime(searches.items[k], parse), None)
  {
    if !Truthy(searches) || !searches.List? || server != "pexel" then []
    else seq(|searches.items|, k requires 0 <= k < |searches.items| => UrlEntry(SegmentTime(searches.items[k], parse), None))
  }

  /** The entries as Python values: tuples `(time_info, None)`. */
  function EntryValue(e: UrlEntry): (v: Value)
    ensures v.Tuple? && |v.items| == 2
  {
    Tuple([e.time, match e.url case Some(u) => Str(u) case None => Nil])
  }
}
