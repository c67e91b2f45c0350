/** The decisions of `get_output_media` (utility/render/render_engine.py)
    before any media library is involved: the strict normaliser, the frame
    size, the centre crop, and which video entries and captions become
    clips. */
module Render {

  import opened PyValues
  import Text
  import Captions
  import BackgroundVideo

  // ---------------------------------------------------------------------
  // normalize_data_format (the strict variant)

  /** `normalize_data_format` of render_engine.py: a two-item input needs
      a time pair of exactly two items; a three-item input is read only as
      `(start, end, content)`; anything else is `None`. */
  function NormalizeStrict(data: Value, parse: FloatParser): (r: Option<Timed>)
    ensures !Truthy(data) || !data.IsSeq() ==> r.None?
    ensures r.Some? ==> |data.items| == 2 || |data.items| == 3
    ensures r.Some? && |data.items| == 2 ==>
      && data.items[0].IsSeq() && |data.items[0].items| == 2
      && ToFloat(data.items[0].items[0], parse) == Some(r.value.start)
      && ToFloat(data.items[0].items[1], parse) == Some(r.value.end)
      && r.value.content == data.items[1]
    ensures r.Some? && |data.items| == 3 ==>
      && ToFloat(data.items[0], parse) == Some(r.value.start)
      && ToFloat(data.items[1], parse) == Some(r.value.end)
      && r.value.content == data.items[2]
    ensures (&& data.IsSeq() && |data.items| == 2 && data.items[0].IsSeq() && |data.items[0].items| == 2
             && ToFloat(data.items[0].items[0], parse).Some? && ToFloat(data.items[0].items[1], parse).Some?) ==> r.Some?
    ensures (&& data.IsSeq() && |data.items| == 3
             && ToFloat(data.items[0], parse).Some? && ToFloat(data.items[1], parse).Some?) ==> r.Some?
    ensures r.Some? ==> BackgroundVideo.NormalizeLenient(data, parse) == r
  {
    if !Truthy(data) || !data.IsSeq() then None
    else
      var xs := data.items;
      if |xs| == 2 then
        var first := xs[0];
        if first.IsSeq() && |first.items| == 2 then
          match (ToFloat(first.items[0], parse), ToFloat(first.items[1], parse))
          case (Some(s), Some(e)) => Some(Timed(s, e, xs[1]))
          case _ => None
        else None
      else if |xs| == 3 then
        match (ToFloat(xs[0], parse), ToFloat(xs[1], parse))
        case (Some(s), Some(e)) => Some(Timed(s, e, xs[2]))
        case _ => None
      else None
  }

  /** The converse of the last clause of `NormalizeStrict` fails: a
      nested `((s, e), c, x)` is normalised by the lenient variant and
      rejected by the strict one. */
  lemma LenientAcceptsMore(parse: FloatParser)
    ensures var data := Tuple([TimePair(0.0, 1.0), Str("c"), Str("x")]);
      && BackgroundVideo.NormalizeLenient(data, parse) == Some(Timed(0.0, 1.0, Str("c")))
      && NormalizeStrict(data, parse).None?
  {
    var data := Tuple([TimePair(0.0, 1.0), Str("c"), Str("x")]);
    assert BackgroundVideo.TimesOf(data.items[0], parse) == Some((0.0, 1.0));
  }

  // ---------------------------------------------------------------------
  // get_output_media

  /** The frame and the caption font size for an orientation. */
  datatype Frame = Frame(width: nat, height: nat, fontSize: nat)

  function FrameFor(orientation: string): (f: Frame)
    ensures orientation == "portrait" ==> f == Frame(1080, 1920, 60)
    ensures orientation != "portrait" ==> f == Frame(1920, 1080, 80)
    ensures f.width < f.height <==> orientation == "portrait"
  {
    if orientation == "portrait" then Frame(1080, 1920, 60) else Frame(1920, 1080, 80)
  }

  /** The horizontal window `[x1, x2)` kept from a clip of width
      `clipWidth` once it has been scaled to the frame height, or `None`
      when the clip is not wider than the frame.  Python's `//` on
      non-negative operands is Dafny's `/`. */
  function CenterCrop(clipWidth: int, frameWidth: nat): (r: Option<(int, int)>)
    ensures r.Some? <==> clipWidth > frameWidth
    ensures r.Some? ==> r.value.1 - r.value.0 == frameWidth
    ensures r.Some? ==> 0 <= r.value.0 <= r.value.1 <= clipWidth
    ensures r.Some? ==> -1 <= (clipWidth - r.value.1) - r.value.0 <= 1
  {
    if clipWidth > frameWidth then
      var center := clipWidth / 2;
      var x1 := center - frameWidth / 2;
      Some((x1, x1 + frameWidth))
    else None
  }

  /** A background clip: from `start` for `end - start` seconds. */
  datatype VideoClip = VideoClip(start: real, end: real, duration: real, url: Value)

  /** One entry of `background_video_data`: skipped when it does not
      normalise or carries no url. */
  function VideoClipOf(data: Value, parse: FloatParser): (r: Option<VideoClip>)
    ensures r.Some? <==> NormalizeStrict(data, parse).Some? && NormalizeStrict(data, parse).value.content != Nil
    ensures r.Some? ==> var n := NormalizeStrict(data, parse).value;
      && r.value.start == n.start && r.value.end == n.end && r.value.url == n.content
    ensures r.Some? ==> r.value.duration == r.value.end - r.value.start && r.value.url != Nil
  {
    match NormalizeStrict(data, parse)
    case None => None
    case Some(n) =>
      if n.content == Nil then None
      else Some(VideoClip(n.start, n.end, n.end - n.start, n.content))
  }

  /** A caption clip with its colour (any value the caption carried). */
  datatype TextClip = TextClip(start: real, end: real, duration: real, text: string, color: Value)

  /** One caption: a list or tuple of two items gets colour "white", one
      of three or more uses its third and ignores the rest, anything else
      is skipped, as is a time that is not a pair `float` accepts and a
      text that is empty once stripped.  A caption thus becomes a clip
      exactly when `validate_caption_format` accepts it, with the same
      times, text and colour. */
  function TextClipOf(caption: Value, parse: FloatParser): (r: Option<TextClip>)
    ensures !caption.IsSeq() || |caption.items| < 2 ==> r.None?
    ensures r.Some? ==> r.value.color == (if |caption.items| >= 3 then caption.items[2] else Str("white"))
    ensures r.Some? ==> |r.value.text| > 0 && r.value.text == Text.Strip(Display(caption.items[1]))
    ensures r.Some? ==> r.value.duration == r.value.end - r.value.start
    ensures r.Some? ==> BackgroundVideo.TimesOf(caption.items[0], parse) == Some((r.value.start, r.value.end))
    ensures r.Some? <==> Captions.CheckCaption(caption, parse).Some?
    ensures r.Some? ==> var c := Captions.CheckCaption(caption, parse).value;
      r.value.start == c.start && r.value.end == c.end && r.value.text == c.text && r.value.color == c.color
  {
    if !(caption.IsSeq() && |caption.items| >= 2) then None
    else
      var xs := caption.items;
      var color := if |xs| >= 3 then xs[2] else Str("white");
      match BackgroundVideo.TimesOf(xs[0], parse)
      case None => None
      case Some(t) =>
        var text := Text.Strip(Display(xs[1]));
        if |text| == 0 then None
        else Some(TextClip(t.0, t.1, t.1 - t.0, text, color))
  }

  /** The clips the renderer would composite, with the frame. */
  datatype Plan = Plan(frame: Frame, videos: seq<VideoClip>, texts: seq<TextClip>)

  function VideoClips(data: seq<Value>, parse: FloatParser): (r: seq<VideoClip>)
    ensures |r| <= |data|
    ensures forall k :: 0 <= k < |r| ==> r[k].url != Nil && r[k].duration == r[k].end - r[k].start
  {
    if |data| == 0 then []
    else
      VideoClips(data[..|data| - 1], parse)
      + match VideoClipOf(data[|data| - 1], parse) case Some(c) => [c] case None => []
  }

  function TextClips(captions: seq<Value>, parse: FloatParser): (r: seq<TextClip>)
    ensures |r| <= |captions|
    ensures forall k :: 0 <= k < |r| ==> |r[k].text| > 0 && r[k].duration == r[k].end - r[k].start
  {
    if |captions| == 0 then []
    else
      TextClips(captions[..|captions| - 1], parse)
      + match TextClipOf(captions[|captions| - 1], parse) case Some(c) => [c] case None => []
  }

  /** The text clips are exactly the captions `validate_caption_format`
      keeps, in the same order. */
  lemma {:induction false} TextClipsMatchValidation(captions: seq<Value>, parse: FloatParser)
    ensures |TextClips(captions, parse)| == |Captions.ValidateCaptions(captions, parse)|
    ensures forall k :: 0 <= k < |TextClips(captions, parse)| ==>
      var t := TextClips(captions, parse)[k];
      var c := Captions.ValidateCaptions(captions, parse)[k];
      t.start == c.start && t.end == c.end && t.text == c.text && t.color == c.color
    decreases |captions|
  {
    if |captions| > 0 {
      var init := captions[..|captions| - 1];
      TextClipsMatchValidation(init, parse);
    }
  }

  /** `get_output_media` up to the composition: `None` when neither a
      video entry nor a caption yields a clip ("No clips created!"). */
  function PlanMedia(captions: seq<Value>, videos: seq<Value>, orientation: string, parse: FloatParser): (r: Option<Plan>)
    ensures r.None? <==> |VideoClips(videos, parse)| == 0 && |TextClips(captions, parse)| == 0
    ensures r.Some? ==> r.value.frame == FrameFor(orientation)
    ensures r.Some? ==> |r.value.videos| + |r.value.texts| > 0
    ensures r.Some? ==> |r.value.videos| <= |videos| && |r.value.texts| <= |captions|
  {
    var vs := VideoClips(videos, parse);
    var ts := TextClips(captions, parse);
    if |vs| == 0 && |ts| == 0 then None else Some(Plan(FrameFor(orientation), vs, ts))
  }
}
