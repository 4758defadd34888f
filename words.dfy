/** The keyword test of the answer classifier, `String.prototype.includesAny`: the
    answer is cut into words at every run of characters outside
    `[a-zäöüß]`, words of at most four characters are dropped, and the test
    succeeds when one of the remaining words occurs in the explanation. */
module Words {
  import opened Text

  /** The letters of the regular expression class `[a-zäöüß]`. */
  predicate IsWordChar(c: char) {
    ('a' <= c <= 'z') || c == '\U{E4}' || c == '\U{F6}' || c == '\U{FC}' || c == '\U{DF}'
  }

  /** `s.split(/[^a-zäöüß]+/)`: the pieces between maximal runs of
      separators. As in JavaScript there is always at least one piece, and a
      separator at either end yields an empty first or last piece. A
      separator followed by another separator continues the same run. */
  function Split(s: string): (r: seq<string>)
    ensures |r| >= 1
    ensures forall k, j :: 0 <= k < |r| && 0 <= j < |r[k]| ==> IsWordChar(r[k][j])
    decreases |s|
  {
    if s == [] then [[]]
    else
      var t := Split(s[1..]);
      if IsWordChar(s[0]) then [[s[0]] + t[0]] + t[1..]
      else if |s| > 1 && !IsWordChar(s[1]) then t
      else [[]] + t
  }

  /** `w` sits at position `p` of `s` and is delimited the way a piece of
      `Split` is: the first piece starts at 0 and every other one right after
      a separator; the last piece ends at the end of `s` and every other one
      right before a separator. */
  ghost predicate Block(s: string, p: int, w: string, first: bool, last: bool) {
    0 <= p <= |s| - |w| && s[p..p + |w|] == w
    && (if first then p == 0 else 0 < p && !IsWordChar(s[p - 1]))
    && (if last then p + |w| == |s| else p + |w| < |s| && !IsWordChar(s[p + |w|]))
  }

  /** Piece `k` of `Split(s)` is a block of `s` at position `p`. */
  ghost predicate SegmentAt(s: string, k: int, p: int) {
    0 <= k < |Split(s)| && Block(s, p, Split(s)[k], k == 0, k == |Split(s)| - 1)
  }

  /** `s[p..q]` is a maximal run of word characters: non-empty, made of
      `[a-zäöüß]` only, and not extendable on either side. */
  ghost predicate IsRun(s: string, p: int, q: int) {
    0 <= p < q <= |s|
    && (forall i :: p <= i < q ==> IsWordChar(s[i]))
    && (p == 0 || !IsWordChar(s[p - 1]))
    && (q == |s| || !IsWordChar(s[q]))
  }

  /** A block of `s[1..]` is a block of `s` one position further on. */
  lemma BlockShift(s: string, p: int, w: string, first: bool, last: bool)
    requires |s| > 0 && Block(s[1..], p, w, first, last)
    requires first ==> !IsWordChar(s[0])
    ensures Block(s, p + 1, w, false, last)
  {
    assert s[p + 1..p + 1 + |w|] == s[1..][p..p + |w|];
  }

  /** Every piece of `Split(s)` is a delimited block of `s`. */
  lemma {:induction false} SplitSegmentAt(s: string, k: int)
    requires 0 <= k < |Split(s)|
    ensures exists p :: SegmentAt(s, k, p)
    decreases |s|, 1
  {
    if s == [] {
      assert SegmentAt(s, k, 0);
    } else if IsWordChar(s[0]) {
      SegmentAtAfterLetter(s, k);
    } else if |s| > 1 && !IsWordChar(s[1]) {
      SegmentAtInsideRun(s, k);
    } else {
      SegmentAtAfterSeparator(s, k);
    }
  }

  /** `SplitSegmentAt` when `s` starts with a word character, which extends
      the first piece of `Split(s[1..])`. */
  lemma {:induction false} SegmentAtAfterLetter(s: string, k: int)
    requires s != [] && IsWordChar(s[0]) && 0 <= k < |Split(s)|
    ensures exists p :: SegmentAt(s, k, p)
    decreases |s|, 0
  {
    var r, t := Split(s), Split(s[1..]);
    SplitSegmentAt(s[1..], k);
    var p :| SegmentAt(s[1..], k, p);
    if k == 0 {
      assert s[0..|r[0]|] == [s[0]] + s[1..][0..|t[0]|];
      assert SegmentAt(s, 0, 0);
    } else {
      BlockShift(s, p, t[k], false, k == |t| - 1);
      assert SegmentAt(s, k, p + 1);
    }
  }

  /** `SplitSegmentAt` when `s` starts with two separators, so that the first
      one only lengthens the separator run in front of `Split(s[1..])`. */
  lemma {:induction false} SegmentAtInsideRun(s: string, k: int)
    requires |s| > 1 && !IsWordChar(s[0]) && !IsWordChar(s[1]) && 0 <= k < |Split(s)|
    ensures exists p :: SegmentAt(s, k, p)
    decreases |s|, 0
  {
    var t := Split(s[1..]);
    SplitSegmentAt(s[1..], k);
    var p :| SegmentAt(s[1..], k, p);
    if k == 0 {
      assert SegmentAt(s, 0, 0);
    } else {
      BlockShift(s, p, t[k], false, k == |t| - 1);
      assert SegmentAt(s, k, p + 1);
    }
  }

  /** `SplitSegmentAt` when `s` starts with a separator that ends its run,
      which opens an empty first piece. */
  lemma {:induction false} SegmentAtAfterSeparator(s: string, k: int)
    requires s != [] && !IsWordChar(s[0]) && (|s| == 1 || IsWordChar(s[1])) && 0 <= k < |Split(s)|
    ensures exists p :: SegmentAt(s, k, p)
    decreases |s|, 0
  {
    if k == 0 {
      assert SegmentAt(s, 0, 0);
    } else {
      var t := Split(s[1..]);
      SplitSegmentAt(s[1..], k - 1);
      var p :| SegmentAt(s[1..], k - 1, p);
      BlockShift(s, p, t[k - 1], k - 1 == 0, k - 1 == |t| - 1);
      assert SegmentAt(s, k, p + 1);
    }
  }

  /** A maximal run at the start of `s` is the first piece of `Split(s)`. */
  lemma FirstRunIsFirstSegment(s: string, q: int)
    requires IsRun(s, 0, q)
    ensures SegmentAt(s, 0, 0) && |Split(s)[0]| == q
  {
    SplitSegmentAt(s, 0);
    var p :| SegmentAt(s, 0, p);
    var w := Split(s)[0];
    assert p == 0 && s[..|w|] == w;
  }

  /** A maximal run that does not start at 0 is a maximal run of `s[1..]`,
      one position earlier. */
  lemma RunShift(s: string, p: int, q: int)
    requires IsRun(s, p, q) && p > 0
    ensures IsRun(s[1..], p - 1, q - 1)
  {
    forall i | p - 1 <= i < q - 1
      ensures IsWordChar(s[1..][i])
    {
      assert s[1..][i] == s[i + 1];
    }
  }

  /** Every maximal run of word characters of `s` is a piece of `Split(s)`,
      found at the run's own position. */
  lemma {:induction false} RunIsSegment(s: string, p: int, q: int)
    requires IsRun(s, p, q)
    ensures exists k :: SegmentAt(s, k, p) && |Split(s)[k]| == q - p
    decreases |s|, 1
  {
    if p == 0 {
      FirstRunIsFirstSegment(s, q);
    } else {
      LaterRunIsSegment(s, p, q);
    }
  }

  /** `RunIsSegment` for a run after position 0: it is a piece of
      `Split(s[1..])`, and the piece keeps its place or moves one up
      depending on how `s` starts. */
  lemma {:induction false} LaterRunIsSegment(s: string, p: int, q: int)
    requires IsRun(s, p, q) && p > 0
    ensures exists k :: SegmentAt(s, k, p) && |Split(s)[k]| == q - p
    decreases |s|, 0
  {
    var t := Split(s[1..]);
    RunShift(s, p, q);
    RunIsSegment(s[1..], p - 1, q - 1);
    var k :| SegmentAt(s[1..], k, p - 1) && |t[k]| == q - p;
    if IsWordChar(s[0]) || (|s| > 1 && !IsWordChar(s[1])) {
      assert k != 0;
      BlockShift(s, p - 1, t[k], false, k == |t| - 1);
      assert SegmentAt(s, k, p);
    } else {
      BlockShift(s, p - 1, t[k], k == 0, k == |t| - 1);
      assert SegmentAt(s, k + 1, p);
    }
  }

  /** `.filter((w) => w.length > 4)`: the pieces longer than four characters. */
  function LongWords(ws: seq<string>): (r: seq<string>)
    ensures forall w :: w in r <==> w in ws && |w| > 4
  {
    if ws == [] then []
    else (if |ws[0]| > 4 then [ws[0]] else []) + LongWords(ws[1..])
  }

  /** `ws.some((word) => text.includes(word))`. */
  function AnyIncluded(text: string, ws: seq<string>): (b: bool)
    ensures b <==> exists i :: 0 <= i < |ws| && Contains(text, ws[i])
  {
    if ws == [] then false
    else if Contains(text, ws[0]) then
      true
    else
      var b := AnyIncluded(text, ws[1..]);
      assert forall i :: 0 < i < |ws| ==> ws[i] == ws[1..][i - 1];
      b
  }

  /** `text.includesAny(input)`: some piece of `input` longer than four
      characters occurs in `text`. */
  function IncludesAny(text: string, input: string): (b: bool)
    ensures b <==> exists w :: w in Split(input) && |w| > 4 && Contains(text, w)
  {
    AnyIncluded(text, LongWords(Split(input)))
  }

  /** A successful keyword test is witnessed by a long maximal run. */
  lemma IncludesAnyHasRun(text: string, input: string)
    requires IncludesAny(text, input)
    ensures exists p, q :: IsRun(input, p, q) && q - p > 4 && Contains(text, input[p..q])
  {
    var w :| w in Split(input) && |w| > 4 && Contains(text, w);
    var k :| 0 <= k < |Split(input)| && Split(input)[k] == w;
    SplitSegmentAt(input, k);
    var p :| SegmentAt(input, k, p);
    assert input[p..p + |w|] == w;
    forall i | p <= i < p + |w|
      ensures IsWordChar(input[i])
    {
      assert input[i] == w[i - p];
    }
    assert IsRun(input, p, p + |w|);
  }

  /** A long maximal run that occurs in the text makes the keyword test
      succeed. */
  lemma RunMakesIncludesAny(text: string, input: string, p: int, q: int)
    requires IsRun(input, p, q) && q - p > 4 && Contains(text, input[p..q])
    ensures IncludesAny(text, input)
  {
    RunIsSegment(input, p, q);
    var k :| SegmentAt(input, k, p) && |Split(input)[k]| == q - p;
    assert Split(input)[k] == input[p..q];
    assert Split(input)[k] in Split(input);
  }

  /** The keyword test in terms of the input itself: it succeeds exactly when
      some maximal run of `[a-zäöüß]` in `input` is longer than four
      characters and occurs in `text`. */
  lemma IncludesAnyRuns(text: string, input: string)
    ensures IncludesAny(text, input)
            <==> exists p, q :: IsRun(input, p, q) && q - p > 4 && Contains(text, input[p..q])
  {
    if IncludesAny(text, input) {
      IncludesAnyHasRun(text, input);
    }
    if exists p, q :: IsRun(input, p, q) && q - p > 4 && Contains(text, input[p..q]) {
      var p, q :| IsRun(input, p, q) && q - p > 4 && Contains(text, input[p..q]);
      RunMakesIncludesAny(text, input, p, q);
    }
  }

  /** The keyword test can only succeed on an input of more than four
      characters, so the classifier's own length guard never decides alone. */
  lemma IncludesAnyNeedsLongInput(text: string, input: string)
    requires IncludesAny(text, input)
    ensures |input| > 4
  {
    IncludesAnyHasRun(text, input);
  }
}
