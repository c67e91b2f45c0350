/** The Python string operations the pipeline relies on: `strip`, `find`,
    `rfind`, `replace`, slicing, and the two `re.sub` rewrites that insert
    a comma between adjacent brackets. */
module Text {

  /** The ASCII whitespace set of `str.strip()` and regex `\s`. */
  predicate IsSpace(c: char) {
    c == ' ' || c == '\t' || c == '\n' || c == '\r' || c == '\U{B}' || c == '\U{C}'
  }

  predicate AllSpace(s: string) {
    forall k :: 0 <= k < |s| ==> IsSpace(s[k])
  }

  /** `s.lstrip()` */
  function TrimStart(s: string): (r: string)
    ensures |r| <= |s|
    ensures |r| == 0 || !IsSpace(r[0])
  {
    if |s| > 0 && IsSpace(s[0]) then TrimStart(s[1..]) else s
  }

  /** `s.rstrip()` */
  function TrimEnd(s: string): (r: string)
    ensures |r| <= |s|
    ensures |r| == 0 || !IsSpace(r[|r| - 1])
  {
    if |s| > 0 && IsSpace(s[|s| - 1]) then TrimEnd(s[..|s| - 1]) else s
  }

  /** `s.strip()`: what is left between the leading and the trailing
      whitespace. */
  function Strip(s: string): (r: string)
    ensures |r| <= |s|
    ensures |r| == 0 || (!IsSpace(r[0]) && !IsSpace(r[|r| - 1]))
  {
    TrimEndSlice(TrimStart(s));
    TrimEnd(TrimStart(s))
  }

  lemma {:induction false} TrimStartSlice(s: string)
    ensures var r := TrimStart(s); r == s[|s| - |r|..] && AllSpace(s[..|s| - |r|])
    decreases |s|
  {
    if |s| > 0 && IsSpace(s[0]) {
      TrimStartSlice(s[1..]);
      var r := TrimStart(s);
      assert s[..|s| - |r|] == [s[0]] + s[1..][..|s| - 1 - |r|];
    }
  }

  lemma {:induction false} TrimEndSlice(s: string)
    ensures var r := TrimEnd(s); r == s[..|r|] && AllSpace(s[|r|..])
    decreases |s|
  {
    if |s| > 0 && IsSpace(s[|s| - 1]) {
      TrimEndSlice(s[..|s| - 1]);
      var r := TrimEnd(s);
      assert s[|r|..] == s[..|s| - 1][|r|..] + [s[|s| - 1]];
    }
  }

  /** `strip()` removes whitespace only, from both ends, and keeps the
      middle as it is. */
  lemma StripSlice(s: string)
    ensures var r := Strip(s);
      exists a :: 0 <= a && a + |r| <= |s| && r == s[a..a + |r|] && AllSpace(s[..a]) && AllSpace(s[a + |r|..])
  {
    var t := TrimStart(s);
    TrimStartSlice(s);
    TrimEndSlice(t);
    var r := Strip(s);
    var a := |s| - |t|;
    assert t == s[a..];
    assert r == t[..|r|];
    assert s[a..][..|r|] == s[a..a + |r|];
    assert s[a + |r|..] == t[|r|..];
  }

  /** No character appears in `strip()`'s result that was not in `s`. */
  lemma StripChars(s: string)
    ensures forall c :: c in Strip(s) ==> c in s
  {
    var t := TrimStart(s);
    TrimStartSlice(s);
    TrimEndSlice(t);
    var r := Strip(s);
    forall c | c in r
      ensures c in s
    {
      var k :| 0 <= k < |r| && r[k] == c;
      assert t[k] == c;
      assert s[|s| - |t| + k] == c;
    }
  }

  /** `s.find(c)`: the first index of `c`, or -1. */
  function Find(s: string, c: char): (r: int)
    ensures -1 <= r < |s|
    ensures r == -1 <==> c !in s
    ensures r >= 0 ==> s[r] == c && c !in s[..r]
  {
    if |s| == 0 then -1
    else if s[0] == c then 0
    else
      var k := Find(s[1..], c);
      if k == -1 then -1 else k + 1
  }

  /** `s.rfind(c)`: the last index of `c`, or -1. */
  function RFind(s: string, c: char): (r: int)
    ensures -1 <= r < |s|
    ensures r == -1 <==> c !in s
    ensures r >= 0 ==> s[r] == c && c !in s[r + 1..]
  {
    if |s| == 0 then -1
    else if s[|s| - 1] == c then |s| - 1
    else RFind(s[..|s| - 1], c)
  }

  /** `pat` occurs in `s` at index `i`. */
  predicate OccursAt(s: string, pat: string, i: nat) {
    i + |pat| <= |s| && s[i..i + |pat|] == pat
  }

  /** The first occurrence of `pat` at or after index `i`, or -1. */
  function FindFrom(s: string, pat: string, i: nat): (r: int)
    requires i <= |s|
    ensures r == -1 || (i <= r && OccursAt(s, pat, r))
    ensures r == -1 ==> forall k :: i <= k <= |s| - |pat| ==> !OccursAt(s, pat, k)
    ensures r >= 0 ==> forall k :: i <= k < r ==> !OccursAt(s, pat, k)
    decreases |s| - i
  {
    if i + |pat| > |s| then -1
    else if OccursAt(s, pat, i) then i
    else FindFrom(s, pat, i + 1)
  }

  /** `s.find(pat)` for a substring. */
  function FindSub(s: string, pat: string): (r: int)
    ensures r == -1 <==> forall k :: 0 <= k <= |s| - |pat| ==> !OccursAt(s, pat, k)
    ensures r >= 0 ==> OccursAt(s, pat, r) && forall k :: 0 <= k < r ==> !OccursAt(s, pat, k)
  {
    FindFrom(s, pat, 0)
  }

  /** `s[a:b]` for `0 <= a` and `b <= len(s)`: empty when `b <= a`. */
  function Slice(s: string, a: nat, b: nat): (r: string)
    requires a <= |s| && b <= |s|
    ensures b <= a ==> r == []
    ensures a <= b ==> r == s[a..b]
  {
    if b <= a then [] else s[a..b]
  }

  /** `s.replace(pat, rep)`: every non-overlapping occurrence of `pat`,
      scanning left to right, is replaced by `rep`. */
  function Replace(s: string, pat: string, rep: string): (r: string)
    requires |pat| > 0
    ensures forall c :: c in r ==> c in s || c in rep
    decreases |s|
  {
    if |s| < |pat| then s
    else if s[..|pat|] == pat then rep + Replace(s[|pat|..], pat, rep)
    else [s[0]] + Replace(s[1..], pat, rep)
  }

  /** Replacing a one-character pattern by text that does not contain it
      leaves no occurrence of that character behind. */
  lemma {:induction false} ReplaceRemovesChar(s: string, c: char, rep: string)
    requires c !in rep
    ensures c !in Replace(s, [c], rep)
    decreases |s|
  {
    if |s| < 1 {
    } else if s[..1] == [c] {
      ReplaceRemovesChar(s[1..], c, rep);
    } else {
      ReplaceRemovesChar(s[1..], c, rep);
      assert s[0] != c by { assert s[..1] == [s[0]]; }
    }
  }

  /** Replacing a one-character pattern that does not occur changes
      nothing. */
  lemma {:induction false} ReplaceAbsentChar(s: string, c: char, rep: string)
    requires c !in s
    ensures Replace(s, [c], rep) == s
    decreases |s|
  {
    if |s| >= 1 {
      assert s[..1] == [s[0]];
      ReplaceAbsentChar(s[1..], c, rep);
      assert [s[0]] + s[1..] == s;
    }
  }

  /** `pat` occurs nowhere in `s`. */
  predicate Absent(s: string, pat: string) {
    forall k :: 0 <= k <= |s| - |pat| ==> !OccursAt(s, pat, k)
  }

  /** Replacing a pattern that does not occur changes nothing. */
  lemma {:induction false} ReplaceAbsent(s: string, pat: string, rep: string)
    requires |pat| > 0 && Absent(s, pat)
    ensures Replace(s, pat, rep) == s
    decreases |s|
  {
    if |s| >= |pat| {
      assert !OccursAt(s, pat, 0);
      assert Absent(s[1..], pat) by {
        forall k | 0 <= k <= |s[1..]| - |pat|
          ensures !OccursAt(s[1..], pat, k)
        {
          assert !OccursAt(s, pat, k + 1);
          assert s[1..][k..k + |pat|] == s[k + 1..k + 1 + |pat|];
        }
      }
      ReplaceAbsent(s[1..], pat, rep);
      assert [s[0]] + s[1..] == s;
    }
  }

  /** A text without `pat` has no pattern that starts with `pat` either. */
  lemma AbsentExtension(s: string, pat: string, longer: string)
    requires Absent(s, pat) && |pat| <= |longer| && longer[..|pat|] == pat
    ensures Absent(s, longer)
  {
    forall k | 0 <= k <= |s| - |longer|
      ensures !OccursAt(s, longer, k)
    {
      assert !OccursAt(s, pat, k);
      assert s[k..k + |pat|] == s[k..k + |longer|][..|pat|];
    }
  }

  // ---------------------------------------------------------------------
  // `re.sub(r'X\s*Y', 'X, Y', s)` for a closing character X and an
  // opening character Y.

  /** `t` starts with whitespace followed by `open`: the rest of a match
      of `X\s*Y` after its `X`. */
  predicate GapTo(t: string, open: char)
    decreases |t|
  {
    |t| > 0 && (t[0] == open || (IsSpace(t[0]) && GapTo(t[1..], open)))
  }

  /** What follows the `open` character of a gap. */
  function AfterGap(t: string, open: char): (r: string)
    requires GapTo(t, open)
    ensures |r| < |t| && r == t[|t| - |r|..]
    decreases |t|
  {
    if t[0] == open then t[1..] else AfterGap(t[1..], open)
  }

  /** The regex substitution.  At each position a match is tried first
      (greedy `\s*`, which can only succeed when the whitespace run ends in
      `open`); on a match the scan resumes after it, otherwise one
      character is copied. */
  function CommaJoin(s: string, close: char, open: char): (r: string)
    decreases |s|
  {
    if |s| == 0 then []
    else if s[0] == close && GapTo(s[1..], open) then
      [close, ',', ' ', open] + CommaJoin(AfterGap(s[1..], open), close, open)
    else [s[0]] + CommaJoin(s[1..], close, open)
  }

  /** A whitespace run ending in `open` is a gap, and the rest after it
      is what follows that `open`. */
  lemma {:induction false} GapThrough(w: string, rest: string, open: char)
    requires AllSpace(w) && !IsSpace(open)
    ensures GapTo(w + [open] + rest, open) && AfterGap(w + [open] + rest, open) == rest
    decreases |w|
  {
    var t := w + [open] + rest;
    if |w| == 0 {
      assert t == [open] + rest;
      assert t[1..] == rest;
    } else {
      assert t[0] == w[0];
      assert t[1..] == w[1..] + [open] + rest;
      assert AllSpace(w[1..]) by {
        forall k | 0 <= k < |w[1..]|
          ensures IsSpace(w[1..][k])
        {
          assert w[1..][k] == w[k + 1];
        }
      }
      GapThrough(w[1..], rest, open);
    }
  }

  /** What a gap becomes: `close`, whitespace and `open` are replaced by
      `close, open` with one space, and the scan goes on after `open`. */
  lemma CommaJoinGap(w: string, rest: string, close: char, open: char)
    requires AllSpace(w) && !IsSpace(open)
    ensures CommaJoin([close] + w + [open] + rest, close, open) == [close, ',', ' ', open] + CommaJoin(rest, close, open)
  {
    var s := [close] + w + [open] + rest;
    assert s[1..] == w + [open] + rest;
    GapThrough(w, rest, open);
  }

  /** Text without a gap passes through the substitution unchanged. */
  lemma {:induction false} CommaJoinClean(s: string, close: char, open: char)
    requires NoGap(s, close, open)
    ensures CommaJoin(s, close, open) == s
    decreases |s|
  {
    if |s| > 0 {
      CommaJoinClean(s[1..], close, open);
      assert [s[0]] + s[1..] == s;
    }
  }

  /** No `close` in `s` is followed, after only whitespace, by `open`. */
  predicate NoGap(s: string, close: char, open: char)
    decreases |s|
  {
    |s| == 0 || ((s[0] != close || !GapTo(s[1..], open)) && NoGap(s[1..], close, open))
  }

  /** The rewrite either emits `close` (never the start of a gap towards
      `target`) or copies the leading character, so a gap at the start of
      the output is a gap at the start of the input. */
  lemma {:induction false} CommaJoinGapTo(t: string, close: char, open: char, target: char)
    requires !IsSpace(close) && close != target
    ensures GapTo(CommaJoin(t, close, open), target) ==> GapTo(t, target)
    decreases |t|
  {
    if |t| == 0 {
    } else if t[0] == close {
      assert CommaJoin(t, close, open)[0] == close;
    } else {
      var u := CommaJoin(t, close, open);
      assert u == [t[0]] + CommaJoin(t[1..], close, open);
      assert u[1..] == CommaJoin(t[1..], close, open);
      CommaJoinGapTo(t[1..], close, open, target);
    }
  }

  lemma {:induction false} NoGapSuffix(s: string, n: nat, close: char, open: char)
    requires n <= |s| && NoGap(s, close, open)
    ensures NoGap(s[n..], close, open)
    decreases n
  {
    if n > 0 {
      NoGapSuffix(s[1..], n - 1, close, open);
      assert s[1..][n - 1..] == s[n..];
    }
  }

  /** After the substitution no gap between `close` and `open` is left. */
  lemma {:induction false} CommaJoinNoGap(s: string, close: char, open: char)
    requires close != open && close != ',' && open != ','
    requires !IsSpace(close) && !IsSpace(open)
    ensures NoGap(CommaJoin(s, close, open), close, open)
    decreases |s|
  {
    if |s| == 0 {
    } else if s[0] == close && GapTo(s[1..], open) {
      var rest := CommaJoin(AfterGap(s[1..], open), close, open);
      CommaJoinNoGap(AfterGap(s[1..], open), close, open);
      NoGapPrepend(open, rest, close, open);
      NoGapPrepend(' ', [open] + rest, close, open);
      NoGapPrepend(',', [' '] + ([open] + rest), close, open);
      var v := [','] + ([' '] + ([open] + rest));
      assert !GapTo(v, open);
      assert NoGap([close] + v, close, open) by {
        assert ([close] + v)[1..] == v;
      }
      assert [close, ',', ' ', open] + rest == [close] + v;
    } else {
      var rest := CommaJoin(s[1..], close, open);
      CommaJoinNoGap(s[1..], close, open);
      var u := [s[0]] + rest;
      assert u[1..] == rest;
      CommaJoinGapTo(s[1..], close, open, open);
    }
  }

  /** The substitution for one pair of characters keeps the absence of
      gaps for another, unrelated pair. */
  lemma {:induction false} CommaJoinKeepsNoGap(s: string, close: char, open: char, close2: char, open2: char)
    requires NoGap(s, close, open)
    requires close2 != close && close2 != open && open2 != close && ',' != close
    requires !IsSpace(close2) && !IsSpace(close)
    ensures NoGap(CommaJoin(s, close2, open2), close, open)
    decreases |s|
  {
    if |s| == 0 {
    } else if s[0] == close2 && GapTo(s[1..], open2) {
      var tail := AfterGap(s[1..], open2);
      NoGapSuffix(s, |s| - |tail|, close, open);
      CommaJoinKeepsNoGap(tail, close, open, close2, open2);
      var rest := CommaJoin(tail, close2, open2);
      NoGapPrepend(open2, rest, close, open);
      NoGapPrepend(' ', [open2] + rest, close, open);
      NoGapPrepend(',', [' '] + ([open2] + rest), close, open);
      NoGapPrepend(close2, [','] + ([' '] + ([open2] + rest)), close, open);
      assert [close2, ',', ' ', open2] + rest == [close2] + ([','] + ([' '] + ([open2] + rest)));
    } else {
      var rest := CommaJoin(s[1..], close2, open2);
      CommaJoinKeepsNoGap(s[1..], close, open, close2, open2);
      var u := [s[0]] + rest;
      assert u[1..] == rest;
      CommaJoinGapTo(s[1..], close2, open2, open);
    }
  }

  lemma {:induction false} NoGapPrepend(c: char, s: string, close: char, open: char)
    requires NoGap(s, close, open) && c != close
    ensures NoGap([c] + s, close, open)
  {
    assert ([c] + s)[1..] == s;
  }

  lemma {:induction false} GapToAppend(t: string, c: char, open: char)
    requires c != open
    ensures GapTo(t + [c], open) ==> GapTo(t, open)
    decreases |t|
  {
    if |t| == 0 {
      assert t + [c] == [c];
      assert !GapTo([], open);
    } else {
      assert (t + [c])[1..] == t[1..] + [c];
      GapToAppend(t[1..], c, open);
    }
  }

  lemma {:induction false} NoGapAppend(s: string, c: char, close: char, open: char)
    requires NoGap(s, close, open) && c != open
    ensures NoGap(s + [c], close, open)
    decreases |s|
  {
    if |s| == 0 {
      assert [] + [c] == [c];
      assert [c][1..] == [];
    } else {
      NoGapAppend(s[1..], c, close, open);
      assert (s + [c])[1..] == s[1..] + [c];
      GapToAppend(s[1..], c, open);
    }
  }

  /** A string with no whitespace at either end is its own `strip()`. */
  lemma StripNoEdgeSpace(s: string)
    requires |s| > 0 && !IsSpace(s[0]) && !IsSpace(s[|s| - 1])
    ensures Strip(s) == s
  {
    assert TrimStart(s) == s;
    assert TrimEnd(s) == s;
  }

  /** Stripping twice is stripping once. */
  lemma StripStrip(s: string)
    ensures Strip(Strip(s)) == Strip(s)
  {
    var r := Strip(s);
    if |r| > 0 {
      StripNoEdgeSpace(r);
    }
  }

  /** `' '.join(words)` */
  function JoinSpaced(words: seq<string>): (r: string)
    ensures |words| == 0 ==> r == []
    ensures |words| == 1 ==> r == words[0]
  {
    if |words| == 0 then []
    else if |words| == 1 then words[0]
    else words[0] + " " + JoinSpaced(words[1..])
  }

  /** Joining words that are non-empty and have no whitespace at either
      end gives text with no whitespace at either end. */
  lemma {:induction false} JoinSpacedEdges(words: seq<string>)
    requires |words| > 0
    requires forall k :: 0 <= k < |words| ==> |words[k]| > 0 && !IsSpace(words[k][0]) && !IsSpace(words[k][|words[k]| - 1])
    ensures var r := JoinSpaced(words); |r| > 0 && !IsSpace(r[0]) && !IsSpace(r[|r| - 1])
    decreases |words|
  {
    if |words| > 1 {
      JoinSpacedEdges(words[1..]);
      var rest := JoinSpaced(words[1..]);
      var r := words[0] + " " + rest;
      assert r[0] == words[0][0];
      assert r[|r| - 1] == rest[|rest| - 1];
    }
  }
}
