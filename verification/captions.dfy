/** Timed captions: grouping transcribed words into fixed-size captions
    (utility/captions/timed_captions_generator.py) and the validator that
    re-checks captions of unknown shape. */
module Captions {

  import opened PyValues
  import Text

  /** One transcribed word with its timing.  A missing `word` key is the
      empty string and missing times are 0, as the source's `.get`
      defaults say. */
  datatype Word = Word(text: string, start: real, end: real)

  /** `((start, end), text, color)` as produced by the grouping loop. */
  datatype Caption = Caption(start: real, end: real, text: string, color: string)

  /** The word as the loop sees it: stripped, or `None` when it is empty. */
  function KeepWord(w: Word): (r: Option<Word>)
    ensures r.Some? ==> |r.value.text| > 0 && r.value.start == w.start && r.value.end == w.end
  {
    var t := Text.Strip(w.text);
    if |t| == 0 then None else Some(Word(t, w.start, w.end))
  }

  /** The words among the first `n` that the loop keeps: each text
      stripped, empty ones dropped. */
  function KeptUpTo(words: seq<Word>, n: nat): (r: seq<Word>)
    requires n <= |words|
    ensures |r| <= n
  {
    if n == 0 then []
    else KeptUpTo(words, n - 1) + (match KeepWord(words[n - 1]) case Some(w) => [w] case None => [])
  }

  /** Every kept word is non-empty and has no surrounding whitespace. */
  lemma {:induction false} KeptWordsStripped(words: seq<Word>, n: nat)
    requires n <= |words|
    ensures forall k :: 0 <= k < |KeptUpTo(words, n)| ==>
      var w := KeptUpTo(words, n)[k];
      |w.text| > 0 && Text.Strip(w.text) == w.text
    decreases n
  {
    if n > 0 {
      KeptWordsStripped(words, n - 1);
      Text.StripStrip(words[n - 1].text);
    }
  }

  function Kept(words: seq<Word>): (r: seq<Word>)
    ensures |r| <= |words|
  {
    KeptUpTo(words, |words|)
  }

  /** A maximum caption size below 1 behaves like 1: the size test
      `len(current_words) >= max_caption_size` fires after every word. */
  function Capacity(maxCaptionSize: int): (n: nat)
    ensures n >= 1
    ensures maxCaptionSize >= 1 ==> n == maxCaptionSize
  {
    if maxCaptionSize < 1 then 1 else maxCaptionSize
  }

  /** Reference grouping: consecutive blocks of `cap` words, the last one
      possibly shorter. */
  function Blocks(ws: seq<Word>, cap: nat): (r: seq<seq<Word>>)
    requires cap >= 1
    decreases |ws|
  {
    if |ws| == 0 then []
    else if |ws| <= cap then [ws]
    else [ws[..cap]] + Blocks(ws[cap..], cap)
  }

  function Texts(ws: seq<Word>): (r: seq<string>)
    ensures |r| == |ws|
    ensures forall k :: 0 <= k < |ws| ==> r[k] == ws[k].text
  {
    if |ws| == 0 then [] else [ws[0].text] + Texts(ws[1..])
  }

  /** A caption for a non-empty group: from the first word's start to the
      last word's end, the words joined by single spaces. */
  function CaptionOf(group: seq<Word>, color: string): (c: Caption)
    requires |group| > 0
  {
    Caption(group[0].start, group[|group| - 1].end, Text.Strip(Text.JoinSpaced(Texts(group))), color)
  }

  function Concat(groups: seq<seq<Word>>): (r: seq<Word>)
  {
    if |groups| == 0 then [] else groups[0] + Concat(groups[1..])
  }

  /** Every block but the last holds exactly `cap` words, the last one
      between 1 and `cap`. */
  lemma {:induction false} BlocksSizes(ws: seq<Word>, cap: nat)
    requires cap >= 1
    ensures var b := Blocks(ws, cap);
      && (forall k :: 0 <= k < |b| - 1 ==> |b[k]| == cap)
      && (|b| > 0 ==> 1 <= |b[|b| - 1]| <= cap)
      && (|b| == 0 <==> |ws| == 0)
    decreases |ws|
  {
    if |ws| > cap {
      BlocksSizes(ws[cap..], cap);
    }
  }

  /** Nothing is dropped or duplicated: the blocks concatenate back to the
      kept words, in order. */
  lemma {:induction false} BlocksConcat(ws: seq<Word>, cap: nat)
    requires cap >= 1
    ensures Concat(Blocks(ws, cap)) == ws
    decreases |ws|
  {
    if |ws| == 0 {
    } else if |ws| <= cap {
      assert Concat([ws]) == ws + Concat([]);
    } else {
      BlocksConcat(ws[cap..], cap);
      var b := Blocks(ws, cap);
      assert b[1..] == Blocks(ws[cap..], cap);
      assert ws == ws[..cap] + ws[cap..];
    }
  }

  /** `ws` splits into blocks of exactly `cap` words. */
  predicate WholeBlocks(ws: seq<Word>, cap: nat)
    requires cap >= 1
    decreases |ws|
  {
    |ws| == 0 || (|ws| >= cap && WholeBlocks(ws[cap..], cap))
  }

  lemma {:induction false} WholeBlocksAppend(done: seq<Word>, cur: seq<Word>, cap: nat)
    requires cap >= 1 && WholeBlocks(done, cap) && |cur| == cap
    ensures WholeBlocks(done + cur, cap)
    decreases |done|
  {
    if |done| == 0 {
      assert done + cur == cur;
      assert cur[cap..] == [];
    } else {
      assert (done + cur)[cap..] == done[cap..] + cur;
      WholeBlocksAppend(done[cap..], cur, cap);
    }
  }

  /** Appending one short group after whole blocks appends one block. */
  lemma {:induction false} BlocksAppend(done: seq<Word>, cur: seq<Word>, cap: nat)
    requires cap >= 1 && WholeBlocks(done, cap) && 0 < |cur| <= cap
    ensures Blocks(done + cur, cap) == Blocks(done, cap) + [cur]
    decreases |done|
  {
    if |done| == 0 {
      assert done + cur == cur;
    } else {
      assert (done + cur)[..cap] == done[..cap];
      assert (done + cur)[cap..] == done[cap..] + cur;
      BlocksAppend(done[cap..], cur, cap);
    }
  }

  /** One more word of the loop: the kept prefix grows by the word when
      it is kept. */
  lemma KeptStep(words: seq<Word>, i: nat, done: seq<Word>, current: seq<Word>)
    requires i < |words| && KeptUpTo(words, i) == done + current
    ensures KeepWord(words[i]).Some? ==> KeptUpTo(words, i + 1) == done + (current + [KeepWord(words[i]).value])
    ensures KeepWord(words[i]).None? ==> KeptUpTo(words, i + 1) == done + current
  {
    if KeepWord(words[i]).Some? {
      assert done + (current + [KeepWord(words[i]).value]) == (done + current) + [KeepWord(words[i]).value];
    }
  }

  /** Closing a full group keeps the blocks invariant. */
  lemma BlocksFlush(done: seq<Word>, current: seq<Word>, cap: nat)
    requires cap >= 1 && WholeBlocks(done, cap) && |current| == cap
    ensures Blocks(done + current, cap) == Blocks(done, cap) + [current]
    ensures WholeBlocks(done + current, cap)
  {
    BlocksAppend(done, current, cap);
    WholeBlocksAppend(done, current, cap);
  }

  /** The loop invariant after the first `i` words: the closed groups are
      the blocks of the words they hold, and those words followed by the
      pending group are the words kept so far. */
  predicate Grouped(words: seq<Word>, i: nat, groups: seq<seq<Word>>, done: seq<Word>, current: seq<Word>, cap: nat)
    requires cap >= 1 && i <= |words|
  {
    && KeptUpTo(words, i) == done + current
    && |current| < cap && WholeBlocks(done, cap)
    && groups == Blocks(done, cap)
  }

  /** The loop state after the first `i` words: the closed groups, the
      words they hold, and the pending group. */
  datatype Progress = Progress(groups: seq<seq<Word>>, done: seq<Word>, current: seq<Word>)

  /** One iteration: a kept word joins the pending group, which is closed
      once it holds `cap` words. */
  function Advance(p: Progress, kept: Option<Word>, cap: nat): (q: Progress)
  {
    match kept
    case None => p
    case Some(w) =>
      var current := p.current + [w];
      if |current| >= cap then Progress(p.groups + [current], p.done + current, [])
      else Progress(p.groups, p.done, current)
  }

  function ProgressAfter(words: seq<Word>, i: nat, cap: nat): (p: Progress)
    requires i <= |words|
  {
    if i == 0 then Progress([], [], [])
    else Advance(ProgressAfter(words, i - 1, cap), KeepWord(words[i - 1]), cap)
  }

  /** The loop state always satisfies the grouping invariant. */
  lemma {:induction false} ProgressGrouped(words: seq<Word>, i: nat, cap: nat)
    requires cap >= 1 && i <= |words|
    ensures var p := ProgressAfter(words, i, cap);
      Grouped(words, i, p.groups, p.done, p.current, cap)
    decreases i
  {
    if i > 0 {
      var p := ProgressAfter(words, i - 1, cap);
      ProgressGrouped(words, i - 1, cap);
      KeptStep(words, i - 1, p.done, p.current);
      var kept := KeepWord(words[i - 1]);
      if kept.Some? && |p.current + [kept.value]| >= cap {
        BlocksFlush(p.done, p.current + [kept.value], cap);
      }
    }
  }

  /** After the last word: the pending group, if any, is the last block. */
  lemma FinishGroups(words: seq<Word>, done: seq<Word>, current: seq<Word>, cap: nat)
    requires cap >= 1 && Grouped(words, |words|, Blocks(done, cap), done, current, cap)
    ensures |current| > 0 ==> Blocks(Kept(words), cap) == Blocks(done, cap) + [current]
    ensures |current| == 0 ==> Blocks(Kept(words), cap) == Blocks(done, cap)
  {
    if |current| > 0 {
      BlocksAppend(done, current, cap);
    } else {
      assert done + current == done;
    }
  }

  /** The grouping loop of `generate_timed_captions` over the words of all
      transcribed segments, flattened (the loop's state carries across
      segment boundaries).  It returns the word groups; `CaptionsOf` turns
      them into captions.  The groups are exactly the reference blocks of
      the capacity's worth of kept words. */
  method GroupWords(words: seq<Word>, maxCaptionSize: int) returns (groups: seq<seq<Word>>)
    ensures groups == Blocks(Kept(words), Capacity(maxCaptionSize))
  {
    var cap := Capacity(maxCaptionSize);
    groups := [];
    var current: seq<Word> := [];
    var i := 0;
    while i < |words|
      invariant 0 <= i <= |words|
      invariant groups == ProgressAfter(words, i, cap).groups
      invariant current == ProgressAfter(words, i, cap).current
    {
      var kept := KeepWord(words[i]);
      if kept.Some? {
        current := current + [kept.value];
        if |current| >= cap {
          groups := groups + [current];
          current := [];
        }
      }
      i := i + 1;
    }
    ProgressGrouped(words, |words|, cap);
    FinishGroups(words, ProgressAfter(words, |words|, cap).done, current, cap);
    if |current| > 0 {
      groups := groups + [current];
    }
  }

  lemma {:induction false} BlocksNonEmpty(ws: seq<Word>, cap: nat)
    requires cap >= 1
    ensures forall k :: 0 <= k < |Blocks(ws, cap)| ==> |Blocks(ws, cap)[k]| > 0
    decreases |ws|
  {
    if |ws| > cap {
      BlocksNonEmpty(ws[cap..], cap);
    }
  }

  /** The captions of the groups: each runs from its first word's start to
      its last word's end and carries the given colour. */
  function CaptionsOf(groups: seq<seq<Word>>, color: string): (r: seq<Caption>)
    requires forall k :: 0 <= k < |groups| ==> |groups[k]| > 0
    ensures |r| == |groups|
    ensures forall k :: 0 <= k < |groups| ==>
      && r[k].start == groups[k][0].start && r[k].end == groups[k][|groups[k]| - 1].end
      && r[k].text == Text.Strip(Text.JoinSpaced(Texts(groups[k]))) && r[k].color == color
  {
    if |groups| == 0 then [] else [CaptionOf(groups[0], color)] + CaptionsOf(groups[1..], color)
  }

  /** `generate_timed_captions` after transcription: the captions of the
      word groups. */
  method TimedCaptions(words: seq<Word>, maxCaptionSize: int, captionColor: string) returns (captions: seq<Caption>)
    ensures var b := Blocks(Kept(words), Capacity(maxCaptionSize));
      && |captions| == |b|
      && forall k :: 0 <= k < |b| ==>
        && |b[k]| > 0
        && captions[k].start == b[k][0].start && captions[k].end == b[k][|b[k]| - 1].end
        && captions[k].text == Text.JoinSpaced(Texts(b[k])) && captions[k].color == captionColor
  {
    var groups := GroupWords(words, maxCaptionSize);
    BlocksNonEmpty(Kept(words), Capacity(maxCaptionSize));
    captions := CaptionsOf(groups, captionColor);
    GroupTextsStripped(words, Capacity(maxCaptionSize));
  }

  /** Every word of a block is a word of the input. */
  lemma {:induction false} BlocksWords(ws: seq<Word>, cap: nat)
    requires cap >= 1
    ensures forall k, j :: 0 <= k < |Blocks(ws, cap)| && 0 <= j < |Blocks(ws, cap)[k]| ==> Blocks(ws, cap)[k][j] in ws
    decreases |ws|
  {
    if |ws| > cap {
      BlocksWords(ws[cap..], cap);
      var b := Blocks(ws, cap);
      forall k, j | 0 <= k < |b| && 0 <= j < |b[k]|
        ensures b[k][j] in ws
      {
        if k == 0 {
          assert b[0][j] == ws[j];
        } else {
          assert b[k] == Blocks(ws[cap..], cap)[k - 1];
          assert b[k][j] in ws[cap..];
        }
      }
    }
  }

  /** The `.strip()` after `' '.join(current_words)` changes nothing: the
      kept words are non-empty and already stripped, so a caption's text
      is its words joined by single spaces. */
  lemma GroupTextsStripped(words: seq<Word>, cap: nat)
    requires cap >= 1
    ensures var b := Blocks(Kept(words), cap);
      forall k :: 0 <= k < |b| ==> Text.Strip(Text.JoinSpaced(Texts(b[k]))) == Text.JoinSpaced(Texts(b[k]))
  {
    var ws := Kept(words);
    var b := Blocks(ws, cap);
    KeptWordsStripped(words, |words|);
    BlocksWords(ws, cap);
    BlocksNonEmpty(ws, cap);
    forall k | 0 <= k < |b|
      ensures Text.Strip(Text.JoinSpaced(Texts(b[k]))) == Text.JoinSpaced(Texts(b[k]))
    {
      var ts := Texts(b[k]);
      forall i | 0 <= i < |ts|
        ensures |ts[i]| > 0 && !Text.IsSpace(ts[i][0]) && !Text.IsSpace(ts[i][|ts[i]| - 1])
      {
        assert b[k][i] in ws;
        var m :| 0 <= m < |ws| && ws[m] == b[k][i];
        assert Text.Strip(ts[i]) == ts[i];
      }
      Text.JoinSpacedEdges(ts);
      Text.StripNoEdgeSpace(Text.JoinSpaced(ts));
    }
  }

  /** What the grouping promises of every caption: the sizes, the word
      order and the timing. */
  lemma GroupedCaptions(words: seq<Word>, maxCaptionSize: int, color: string)
    ensures var cap := Capacity(maxCaptionSize);
      var b := Blocks(Kept(words), cap);
      && Concat(b) == Kept(words)
      && (forall k :: 0 <= k < |b| - 1 ==> |b[k]| == cap)
      && (|b| > 0 ==> 1 <= |b[|b| - 1]| <= cap)
      && (|b| == 0 <==> |Kept(words)| == 0)
  {
    BlocksSizes(Kept(words), Capacity(maxCaptionSize));
    BlocksConcat(Kept(words), Capacity(maxCaptionSize));
  }

  // ---------------------------------------------------------------------
  // validate_caption_format

  /** A caption after validation: float times, stripped text, and the
      colour as given (any value) or "white". */
  datatype Checked = Checked(start: real, end: real, text: string, color: Value)

  /** The verdict on one item: `None` when it is skipped (wrong shape, a
      time that `float` rejects, or empty text). */
  function CheckCaption(c: Value, parse: FloatParser): (r: Option<Checked>)
    ensures r.Some? ==> c.IsSeq() && |c.items| >= 2
    ensures r.Some? ==> |r.value.text| > 0 && Text.Strip(r.value.text) == r.value.text
    ensures r.Some? ==> r.value.color == (if |c.items| > 2 then c.items[2] else Str("white"))
    ensures r.Some? ==>
      && c.items[0].IsSeq() && |c.items[0].items| >= 2
      && ToFloat(c.items[0].items[0], parse) == Some(r.value.start)
      && ToFloat(c.items[0].items[1], parse) == Some(r.value.end)
    ensures (&& c.IsSeq() && |c.items| >= 2 && c.items[0].IsSeq() && |c.items[0].items| >= 2
             && ToFloat(c.items[0].items[0], parse).Some? && ToFloat(c.items[0].items[1], parse).Some?
             && |Text.Strip(Display(c.items[1]))| > 0) ==> r.Some?
  {
    if !(c.IsSeq() && |c.items| >= 2) then None
    else
      var time := c.items[0];
      var color := if |c.items| > 2 then c.items[2] else Str("white");
      if !(time.IsSeq() && |time.items| >= 2) then None
      else
        match (ToFloat(time.items[0], parse), ToFloat(time.items[1], parse))
        case (Some(s), Some(e)) =>
          var text := Text.Strip(Display(c.items[1]));
          if |text| > 0 then
            Text.StripStrip(Display(c.items[1]));
            Some(Checked(s, e, text, color))
          else None
        case _ => None
  }

  /** `validate_caption_format`: the accepted items, in input order. */
  function ValidateCaptions(captions: seq<Value>, parse: FloatParser): (r: seq<Checked>)
    ensures |r| <= |captions|
    ensures forall k :: 0 <= k < |r| ==> |r[k].text| > 0
  {
    if |captions| == 0 then []
    else
      var rest := ValidateCaptions(captions[..|captions| - 1], parse);
      match CheckCaption(captions[|captions| - 1], parse)
      case Some(c) => rest + [c]
      case None => rest
  }

  /** Validation works item by item: on a concatenation it is the
      concatenation of the two results, so order is kept and each accepted
      item contributes exactly one entry. */
  lemma {:induction false} ValidateAppend(a: seq<Value>, b: seq<Value>, parse: FloatParser)
    ensures ValidateCaptions(a + b, parse) == ValidateCaptions(a, parse) + ValidateCaptions(b, parse)
    decreases |b|
  {
    if |b| == 0 {
      assert a + b == a;
    } else {
      var b' := b[..|b| - 1];
      assert (a + b)[..|a + b| - 1] == a + b';
      assert (a + b)[|a + b| - 1] == b[|b| - 1];
      ValidateAppend(a, b', parse);
    }
  }
}
