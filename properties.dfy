/**
  What `detectPlagiarism` promises about its result, proved on the reference
  definition `Analyze` (which the imperative `DetectPlagiarism` computes):
  the matches are exactly the resolved suspect windows in order, the trace
  holds the first steps only, every word is labelled by the first match
  covering it, the score is the rounded share of marked words, and the
  detector gives 100% on a text compared with itself and 0% on texts with
  no word in common.
 */
module Properties {
  import opened Wrappers
  import opened Text
  import opened Hashing
  import opened Matching

  /** Suspect window `i` ends after position `k` and starts at or before it. */
  predicate Covers(w: nat, i: int, k: int) {
    i <= k < i + w
  }

  /** Every match after `n` windows is the record of a resolved window below `n`. */
  lemma {:induction false} MatchesSound(orig: seq<Word>, susp: seq<Word>, w: nat, n: nat)
    requires w <= |orig| && n + w <= |susp| + 1
    ensures forall t :: 0 <= t < |MatchesBelow(orig, susp, w, n)| ==>
      var m := MatchesBelow(orig, susp, w, n)[t];
      0 <= m.startIndex < n && Resolve(orig, susp, w, m.startIndex).Found? &&
      m == MatchOf(orig, susp, w, m.startIndex)
  {
    if n > 0 {
      MatchesSound(orig, susp, w, n - 1);
      var before := MatchesBelow(orig, susp, w, n - 1);
      var ms := MatchesBelow(orig, susp, w, n);
      forall t | 0 <= t < |ms|
        ensures 0 <= ms[t].startIndex < n && Resolve(orig, susp, w, ms[t].startIndex).Found? &&
          ms[t] == MatchOf(orig, susp, w, ms[t].startIndex)
      {
        if t < |before| {
          assert ms[t] == before[t];
        } else {
          assert ms[t] == MatchOf(orig, susp, w, n - 1);
        }
      }
    }
  }

  /** The matches are in strictly increasing order of start index. */
  lemma {:induction false} MatchesOrdered(orig: seq<Word>, susp: seq<Word>, w: nat, n: nat)
    requires w <= |orig| && n + w <= |susp| + 1
    ensures forall t, u :: 0 <= t < u < |MatchesBelow(orig, susp, w, n)| ==>
      MatchesBelow(orig, susp, w, n)[t].startIndex < MatchesBelow(orig, susp, w, n)[u].startIndex
  {
    if n > 0 {
      MatchesOrdered(orig, susp, w, n - 1);
      MatchesSound(orig, susp, w, n - 1);
      var before := MatchesBelow(orig, susp, w, n - 1);
      var ms := MatchesBelow(orig, susp, w, n);
      forall t, u | 0 <= t < u < |ms|
        ensures ms[t].startIndex < ms[u].startIndex
      {
        assert ms[t] == before[t];
        if u < |before| {
          assert ms[u] == before[u];
        } else {
          assert ms[u].startIndex == n - 1;
        }
      }
    }
  }

  /** Every resolved window below `n` has a match. */
  lemma {:induction false} MatchesComplete(orig: seq<Word>, susp: seq<Word>, w: nat, n: nat, i: nat)
    requires w <= |orig| && n + w <= |susp| + 1
    requires i < n && Resolve(orig, susp, w, i).Found?
    ensures exists t :: 0 <= t < |MatchesBelow(orig, susp, w, n)| && MatchesBelow(orig, susp, w, n)[t].startIndex == i
  {
    var before := MatchesBelow(orig, susp, w, n - 1);
    var ms := MatchesBelow(orig, susp, w, n);
    assert ms[..|before|] == before;
    if i < n - 1 {
      MatchesComplete(orig, susp, w, n - 1, i);
      var t :| 0 <= t < |before| && before[t].startIndex == i;
      assert ms[t] == before[t];
    } else {
      assert ms[|before|] == MatchOf(orig, susp, w, i);
    }
  }

  /** Each match records its window, its hash and what the source window has to do with it. */
  lemma MatchMeaning(orig: seq<Word>, susp: seq<Word>, w: nat, n: nat, m: Match)
    requires w <= |orig| && n + w <= |susp| + 1
    requires m in MatchesBelow(orig, susp, w, n)
    ensures 0 <= m.startIndex && m.endIndex == m.startIndex + w - 1 && m.endIndex < |susp|
    ensures m.matchedText == WindowText(susp, m.startIndex, w) && m.hashValue == HashOf(m.matchedText)
    ensures 0 <= m.sourceIndex && m.sourceIndex + w <= |orig|
    ensures m.kind == Exact ==>
      WindowText(orig, m.sourceIndex, w) == m.matchedText &&
      forall j :: 0 <= j < m.sourceIndex ==> WindowText(orig, j, w) != m.matchedText
    ensures m.kind == Partial ==>
      IsPartial(orig, susp, w, m.startIndex, m.sourceIndex) &&
      (forall j :: 0 <= j < m.sourceIndex ==> !IsPartial(orig, susp, w, m.startIndex, j)) &&
      forall j :: 0 <= j && j + w <= |orig| ==> WindowText(orig, j, w) != m.matchedText
  {
    MatchesSound(orig, susp, w, n);
  }

  /** Window `i` marks a position exactly when it is resolved, covers it, and is exact or shares that word. */
  lemma MarkedByMeaning(orig: seq<Word>, susp: seq<Word>, w: nat, i: nat, k: int)
    requires w <= |orig| && i + w <= |susp|
    ensures k in MarkedBy(orig, susp, w, i) <==>
      Resolve(orig, susp, w, i).Found? && Covers(w, i, k) &&
      (Resolve(orig, susp, w, i).kind == Exact ||
       susp[k] in orig[Resolve(orig, susp, w, i).source..Resolve(orig, susp, w, i).source + w])
  {
  }

  /** What any of the first `n` windows marks is in `matchedIndices` after `n` windows. */
  lemma {:induction false} MarkedBelowHolds(orig: seq<Word>, susp: seq<Word>, w: nat, n: nat, i: nat)
    requires w <= |orig| && n + w <= |susp| + 1 && i < n
    ensures MarkedBy(orig, susp, w, i) <= MarkedBelow(orig, susp, w, n)
  {
    var below := MarkedBelow(orig, susp, w, n - 1);
    assert MarkedBelow(orig, susp, w, n) == below + MarkedBy(orig, susp, w, n - 1);
    if i < n - 1 {
      MarkedBelowHolds(orig, susp, w, n - 1, i);
    }
  }

  /** Every position in `matchedIndices` after `n` windows was marked by one of them. */
  lemma {:induction false} MarkerOf(orig: seq<Word>, susp: seq<Word>, w: nat, n: nat, k: int) returns (i: nat)
    requires w <= |orig| && n + w <= |susp| + 1
    requires k in MarkedBelow(orig, susp, w, n)
    ensures i < n && k in MarkedBy(orig, susp, w, i)
  {
    if k in MarkedBy(orig, susp, w, n - 1) {
      i := n - 1;
    } else {
      i := MarkerOf(orig, susp, w, n - 1, k);
    }
  }

  /** The trace holds the steps of the first `min(n, 20)` windows, in order. */
  lemma {:induction false} StepsAreFirstWindows(orig: seq<Word>, susp: seq<Word>, w: nat, n: nat)
    requires w <= |orig| && n + w <= |susp| + 1
    ensures |StepsBelow(orig, susp, w, n)| == Min(n, MaxSteps)
    ensures forall t :: 0 <= t < |StepsBelow(orig, susp, w, n)| ==>
      StepsBelow(orig, susp, w, n)[t] == StepOf(orig, susp, w, t)
  {
    if n > 0 {
      StepsAreFirstWindows(orig, susp, w, n - 1);
      var before := StepsBelow(orig, susp, w, n - 1);
      var steps := StepsBelow(orig, susp, w, n);
      assert steps == before + (if n - 1 < MaxSteps then [StepOf(orig, susp, w, n - 1)] else []);
      forall t | 0 <= t < |steps|
        ensures steps[t] == StepOf(orig, susp, w, t)
      {
        if t < |before| {
          assert steps[t] == before[t];
        } else {
          assert t == n - 1 && steps[t] == StepOf(orig, susp, w, n - 1);
        }
      }
    }
  }

  /** The step of window `i`: its number, its text and hash, and whether and where it matched. */
  lemma StepMeaning(orig: seq<Word>, susp: seq<Word>, w: nat, i: nat)
    requires 2 <= w <= |orig| && i + w <= |susp|
    ensures StepOf(orig, susp, w, i).step == i + 1
    ensures StepOf(orig, susp, w, i).windowText == WindowText(susp, i, w)
    ensures StepOf(orig, susp, w, i).hashValue == HashOf(WindowText(susp, i, w))
    ensures StepOf(orig, susp, w, i).matched <==> Resolve(orig, susp, w, i).Found?
    ensures Resolve(orig, susp, w, i).Found? ==>
      StepOf(orig, susp, w, i).sourceMatch == Some(WindowText(orig, Resolve(orig, susp, w, i).source, w))
    ensures Resolve(orig, susp, w, i) == NoMatch ==> StepOf(orig, susp, w, i).sourceMatch == None
  {
    var v := Resolve(orig, susp, w, i);
    if v.Found? {
      var ws := orig[v.source..v.source + w];
      assert WindowText(orig, v.source, w) == ws[0] + [Space] + Join(ws[1..]);
    }
  }

  /**
    The lowest resolved suspect window at or after `i` that covers position
    `k`: a reference definition of which match labels a word.
   */
  function ResolvedCovering(orig: seq<Word>, susp: seq<Word>, w: nat, k: nat, i: nat): (r: Option<nat>)
    requires w <= |orig|
    ensures r.Some? ==>
      i <= r.value && r.value + w <= |susp| && Covers(w, r.value, k) &&
      Resolve(orig, susp, w, r.value).Found?
    ensures r.Some? ==> forall j :: i <= j < r.value && Covers(w, j, k) ==>
      Resolve(orig, susp, w, j) == NoMatch
    ensures r.None? ==> forall j :: i <= j && j + w <= |susp| && Covers(w, j, k) ==>
      Resolve(orig, susp, w, j) == NoMatch
    decreases k + 1 - i
  {
    if i > k || i + w > |susp| then None
    else if Covers(w, i, k) && Resolve(orig, susp, w, i).Found? then Some(i)
    else ResolvedCovering(orig, susp, w, k, i + 1)
  }

  /** The segment of word `k`: the verdict of the lowest resolved window covering it, or 'original'. */
  function CoveringLabel(orig: seq<Word>, susp: seq<Word>, w: nat, k: nat): ProcessedSegment
    requires w <= |orig| && k < |susp|
  {
    match ResolvedCovering(orig, susp, w, k, 0)
    case Some(i) =>
      var v := Resolve(orig, susp, w, i);
      ProcessedSegment(susp[k], Matched(v.kind), Some(v.source))
    case None => ProcessedSegment(susp[k], Original, None)
  }

  /** A resolved window covering `k` has a match that covers `k`. */
  lemma CoveredHasMatch(orig: seq<Word>, susp: seq<Word>, w: nat, k: nat, j: nat) returns (t: nat)
    requires 1 <= w <= |orig| && w <= |susp|
    requires j + w <= |susp| && Covers(w, j, k) && Resolve(orig, susp, w, j).Found?
    ensures t < |MatchesBelow(orig, susp, w, |susp| - w + 1)|
    ensures MatchesBelow(orig, susp, w, |susp| - w + 1)[t] == MatchOf(orig, susp, w, j)
  {
    var n := |susp| - w + 1;
    MatchesComplete(orig, susp, w, n, j);
    MatchesSound(orig, susp, w, n);
    var ms := MatchesBelow(orig, susp, w, n);
    t :| 0 <= t < |ms| && ms[t].startIndex == j;
  }

  /**
    In windowed mode word `k` is labelled by the lowest resolved window that
    covers it, with that window's kind and source index, and is 'original'
    when no resolved window covers it.
   */
  lemma SegmentLabel(orig: seq<Word>, susp: seq<Word>, w: nat, k: nat)
    requires 2 <= w <= |orig| && w <= |susp| && k < |susp|
    ensures Windowed(orig, susp, w).processedText[k] == CoveringLabel(orig, susp, w, k)
  {
    var ms := MatchesBelow(orig, susp, w, |susp| - w + 1);
    assert Windowed(orig, susp, w).processedText == Annotate(susp, ms);
    FirstCoveringLabel(orig, susp, w, k, ms);
  }

  /** Every match in `ms` is the record of a resolved suspect window. */
  predicate ResolvedMatches(orig: seq<Word>, susp: seq<Word>, w: nat, ms: seq<Match>)
    requires w <= |orig|
  {
    forall t :: 0 <= t < |ms| ==>
      0 <= ms[t].startIndex && ms[t].startIndex + w <= |susp| &&
      Resolve(orig, susp, w, ms[t].startIndex).Found? &&
      ms[t] == MatchOf(orig, susp, w, ms[t].startIndex)
  }

  /** The matches in `ms` are in strictly increasing order of start index. */
  predicate OrderedMatches(ms: seq<Match>) {
    forall t, u :: 0 <= t < u < |ms| ==> ms[t].startIndex < ms[u].startIndex
  }

  /** The windowed match list consists of resolved windows in increasing order. */
  lemma MatchListFacts(orig: seq<Word>, susp: seq<Word>, w: nat)
    requires 2 <= w <= |orig| && w <= |susp|
    ensures ResolvedMatches(orig, susp, w, MatchesBelow(orig, susp, w, |susp| - w + 1))
    ensures OrderedMatches(MatchesBelow(orig, susp, w, |susp| - w + 1))
  {
    MatchesSound(orig, susp, w, |susp| - w + 1);
    MatchesOrdered(orig, susp, w, |susp| - w + 1);
  }

  /** The first match covering `k` is the match of the lowest resolved window covering `k`. */
  lemma FirstCoveringLabel(orig: seq<Word>, susp: seq<Word>, w: nat, k: nat, ms: seq<Match>)
    requires 2 <= w <= |orig| && w <= |susp| && k < |susp|
    requires ms == MatchesBelow(orig, susp, w, |susp| - w + 1)
    ensures SegmentAt(susp, ms, k) == CoveringLabel(orig, susp, w, k)
  {
    MatchListFacts(orig, susp, w);
    var r := ResolvedCovering(orig, susp, w, k, 0);
    if r.Some? {
      var t := CoveredHasMatch(orig, susp, w, k, r.value);
      var p := LowestCoveringMatch(orig, susp, w, k, ms, r.value, t);
    } else {
      NoCoveringMatch(orig, susp, w, k, ms);
    }
  }

  /** When window `j` is the lowest resolved window covering `k`, its match is the first covering `k`. */
  lemma LowestCoveringMatch(orig: seq<Word>, susp: seq<Word>, w: nat, k: nat, ms: seq<Match>, j: nat, t: nat)
    returns (p: nat)
    requires 2 <= w <= |orig| && w <= |susp| && k < |susp|
    requires ResolvedMatches(orig, susp, w, ms) && OrderedMatches(ms)
    requires ResolvedCovering(orig, susp, w, k, 0) == Some(j)
    requires t < |ms| && ms[t] == MatchOf(orig, susp, w, j)
    ensures FirstCovering(ms, k) == Some(p) && ms[p] == MatchOf(orig, susp, w, j)
  {
    assert ms[t].startIndex == j && ms[t].endIndex == j + w - 1;
    var first := FirstCovering(ms, k);
    assert first.Some?;
    p := first.value;
    assert p <= t;
    assert ms[p].startIndex <= ms[t].startIndex;
    var i := ms[p].startIndex;
    assert Resolve(orig, susp, w, i).Found? && i <= k < i + w;
  }

  /** When no resolved window covers `k`, no match covers `k`. */
  lemma NoCoveringMatch(orig: seq<Word>, susp: seq<Word>, w: nat, k: nat, ms: seq<Match>)
    requires 2 <= w <= |orig| && w <= |susp| && k < |susp|
    requires ResolvedMatches(orig, susp, w, ms)
    requires ResolvedCovering(orig, susp, w, k, 0).None?
    ensures FirstCovering(ms, k).None?
  {
    forall q | 0 <= q < |ms|
      ensures !(ms[q].startIndex <= k <= ms[q].endIndex)
    {
      var i := ms[q].startIndex;
      assert Resolve(orig, susp, w, i).Found? && ms[q].endIndex == i + w - 1;
    }
  }

  /** A position a window marks is covered by it, and the window is resolved. */
  lemma MarkedIsCovered(orig: seq<Word>, susp: seq<Word>, w: nat, i: nat, k: int)
    requires w <= |orig| && i + w <= |susp|
    requires k in MarkedBy(orig, susp, w, i)
    ensures Resolve(orig, susp, w, i).Found? && Covers(w, i, k)
  {
  }

  /** A word covered by a resolved window is not labelled 'original'. */
  lemma CoveredIsLabelled(orig: seq<Word>, susp: seq<Word>, w: nat, k: nat, i: nat)
    requires w <= |orig| && k < |susp| && i + w <= |susp|
    requires Covers(w, i, k) && Resolve(orig, susp, w, i).Found?
    ensures CoveringLabel(orig, susp, w, k).kind != Original
  {
    assert ResolvedCovering(orig, susp, w, k, 0).Some?;
  }

  /**
    The shape the source promises for every result: one segment per suspect
    word carrying that word, `totalWords` the number of suspect words,
    `matchedWords` at most that, the score the rounded percentage of the two,
    and at most `MaxSteps` trace steps.
   */
  predicate WellShaped(r: AnalysisResult, susp: seq<Word>) {
    r.totalWords == |susp| && 0 <= r.matchedWords <= |susp| &&
    r.plagiarismPercentage == Percentage(r.matchedWords, |susp|) &&
    |r.processedText| == |susp| &&
    (forall k :: 0 <= k < |susp| ==> r.processedText[k].text == susp[k]) &&
    |r.algorithmSteps| <= MaxSteps
  }

  /** Whatever the inputs, the result is well shaped and the score lies in [0, 100]. */
  lemma ResultShape(orig: seq<Word>, susp: seq<Word>, windowSize: int, r: AnalysisResult)
    requires r == Analyze(orig, susp, windowSize)
    ensures WellShaped(r, susp)
    ensures 0 <= r.plagiarismPercentage <= 100
  {
    if |susp| == 0 || |orig| == 0 {
      assert r == AnalysisResult(0, |susp|, 0, [], [], AllOriginal(susp));
    } else {
      var w := Min(windowSize, Min(|orig|, |susp|));
      if w < 2 {
        assert r == SingleWord(orig, susp);
        FallbackShape(orig, susp, r);
      } else {
        assert r == Windowed(orig, susp, w);
        WindowedShape(orig, susp, w, r);
      }
    }
  }

  /** The shape of a fallback result. */
  lemma FallbackShape(orig: seq<Word>, susp: seq<Word>, r: AnalysisResult)
    requires r == SingleWord(orig, susp)
    ensures WellShaped(r, susp) && r.algorithmSteps == []
  {
  }

  /** The shape of a windowed result. */
  lemma WindowedShape(orig: seq<Word>, susp: seq<Word>, w: nat, r: AnalysisResult)
    requires 2 <= w <= |orig| && w <= |susp| && r == Windowed(orig, susp, w)
    ensures WellShaped(r, susp)
  {
    var n := |susp| - w + 1;
    StepsAreFirstWindows(orig, susp, w, n);
    MarkedWithin(MarkedBelow(orig, susp, w, n), |susp|);
  }

  /** With no words on either side the result is empty: score 0, every word 'original'. */
  lemma EmptyInput(orig: seq<Word>, susp: seq<Word>, windowSize: int, r: AnalysisResult)
    requires r == Analyze(orig, susp, windowSize)
    requires |orig| == 0 || |susp| == 0
    ensures r.plagiarismPercentage == 0 && r.matchedWords == 0
    ensures r.matches == [] && r.algorithmSteps == []
    ensures forall k :: 0 <= k < |r.processedText| ==> r.processedText[k] == ProcessedSegment(susp[k], Original, None)
  {
  }

  /** The positions labelled 'exact'. */
  function ExactPositions(segs: seq<ProcessedSegment>): set<int> {
    set k | 0 <= k < |segs| && segs[k].kind == Matched(Exact)
  }

  /** Appending a segment adds its position to the 'exact' positions exactly when it is labelled 'exact'. */
  lemma ExactPositionsAppend(segs: seq<ProcessedSegment>, seg: ProcessedSegment)
    ensures |ExactPositions(segs + [seg])| ==
      |ExactPositions(segs)| + (if seg.kind == Matched(Exact) then 1 else 0)
  {
    var all := segs + [seg];
    assert forall k :: 0 <= k < |segs| ==> all[k] == segs[k];
    if seg.kind == Matched(Exact) {
      assert ExactPositions(all) == ExactPositions(segs) + {|segs|};
    } else {
      assert ExactPositions(all) == ExactPositions(segs);
    }
  }

  /** The fallback count is the number of words it labels 'exact'. */
  lemma {:induction false} CountIsExactPositions(sourceSet: set<JsString>, words: seq<Word>)
    ensures CountMembers(words, sourceSet) == |ExactPositions(FallbackSegments(sourceSet, words))|
  {
    if words == [] {
      assert ExactPositions(FallbackSegments(sourceSet, words)) == {};
    } else {
      var last := |words| - 1;
      CountIsExactPositions(sourceSet, words[..last]);
      ExactPositionsAppend(FallbackSegments(sourceSet, words[..last]), FallbackSegment(sourceSet, words[last]));
    }
  }

  /**
    When the effective window is below 2 (`singleWordMatch`), a word is
    labelled 'exact' exactly when its lower-case form is that of a source
    word, there are no matches and no trace, and `matchedWords` counts the
    words labelled 'exact'.
   */
  lemma FallbackMode(orig: seq<Word>, susp: seq<Word>, windowSize: int, r: AnalysisResult)
    requires r == Analyze(orig, susp, windowSize)
    requires |orig| > 0 && |susp| > 0 && Min(windowSize, Min(|orig|, |susp|)) < 2
    ensures r.matches == [] && r.algorithmSteps == []
    ensures forall k :: 0 <= k < |susp| ==>
      r.processedText[k].sourceIndex == None &&
      (r.processedText[k].kind == Matched(Exact) || r.processedText[k].kind == Original) &&
      (r.processedText[k].kind == Matched(Exact) <==> exists o :: o in orig && LowerCase(o) == LowerCase(susp[k]))
    ensures r.matchedWords == |ExactPositions(r.processedText)|
  {
    CountIsExactPositions(SourceWordSet(orig), susp);
  }

  /** On tokens, the lower-case comparison of the fallback is plain equality. */
  lemma TokenInSourceSet(orig: seq<Word>, x: Word)
    requires forall o :: o in orig ==> IsToken(o)
    requires IsToken(x)
    ensures LowerCase(x) in SourceWordSet(orig) <==> x in orig
  {
    LowerCaseOfToken(x);
    forall o | o in orig
      ensures LowerCase(o) == o
    {
      LowerCaseOfToken(o);
    }
  }

  /** Integer division has a unique quotient. */
  lemma QuotientIs(x: nat, d: nat, q: nat, rem: nat)
    requires 0 <= rem < d && x == q * d + rem
    ensures x / d == q
  {
    var q0 := x / d;
    RoundingBounds(x, d, q0);
    assert (q + 1) * d == q * d + d && (q0 + 1) * d == q0 * d + d;
    QuotientBelow(q0, d, q + 1);
    QuotientBelow(q, d, q0 + 1);
  }

  /** All words matched scores 100. */
  lemma PercentageOfAll(n: nat)
    requires n > 0
    ensures Percentage(n, n) == 100
  {
    QuotientIs(200 * n + n, 2 * n, 100, n);
  }

  /** No word matched scores 0. */
  lemma PercentageOfNone(n: nat)
    requires n > 0
    ensures Percentage(0, n) == 0
  {
    QuotientIs(n, 2 * n, 0, n);
  }

  /** Every window of a text compared with itself is an exact match. */
  lemma SelfWindowExact(words: seq<Word>, w: nat, i: nat)
    requires 1 <= w <= |words| && i + w <= |words|
    ensures Resolve(words, words, w, i).Found? && Resolve(words, words, w, i).kind == Exact
  {
    assert LowestEqualWindow(words, w, WindowText(words, i, w), |words| - w + 1).Some?;
  }

  /** In a text compared with itself every position is marked. */
  lemma SelfAllMarked(words: seq<Word>, w: nat)
    requires 1 <= w <= |words|
    ensures MarkedBelow(words, words, w, |words| - w + 1) == Span(0, |words|)
  {
    var n := |words| - w + 1;
    var marked := MarkedBelow(words, words, w, n);
    forall k | 0 <= k < |words|
      ensures k in marked
    {
      var i := Min(k, n - 1);
      SelfWindowExact(words, w, i);
      MarkedByMeaning(words, words, w, i, k);
      MarkedBelowHolds(words, words, w, n, i);
    }
  }

  /** Every suspect word whose lower-case form is in the set is counted. */
  lemma {:induction false} CountAll(words: seq<Word>, sourceSet: set<JsString>)
    requires forall k :: 0 <= k < |words| ==> LowerCase(words[k]) in sourceSet
    ensures CountMembers(words, sourceSet) == |words|
  {
    if words != [] {
      CountAll(words[..|words| - 1], sourceSet);
    }
  }

  /** No suspect word whose lower-case form is outside the set is counted. */
  lemma {:induction false} CountNone(words: seq<Word>, sourceSet: set<JsString>)
    requires forall k :: 0 <= k < |words| ==> LowerCase(words[k]) !in sourceSet
    ensures CountMembers(words, sourceSet) == 0
  {
    if words != [] {
      CountNone(words[..|words| - 1], sourceSet);
    }
  }

  /** A non-empty text compared with itself scores 100, with every word matched and labelled 'exact'. */
  lemma IdenticalTexts(words: seq<Word>, windowSize: int, r: AnalysisResult)
    requires |words| > 0 && r == Analyze(words, words, windowSize)
    ensures r.plagiarismPercentage == 100 && r.matchedWords == |words|
    ensures forall k :: 0 <= k < |r.processedText| ==> r.processedText[k].kind == Matched(Exact)
  {
    PercentageOfAll(|words|);
    var w := Min(windowSize, Min(|words|, |words|));
    if w < 2 {
      assert r == SingleWord(words, words);
      var sourceSet := SourceWordSet(words);
      assert forall k :: 0 <= k < |words| ==> LowerCase(words[k]) in sourceSet;
      CountAll(words, sourceSet);
    } else {
      assert r == Windowed(words, words, w);
      IdenticalWindowed(words, w, r);
    }
  }

  /** The windowed case of `IdenticalTexts`. */
  lemma IdenticalWindowed(words: seq<Word>, w: nat, r: AnalysisResult)
    requires 2 <= w <= |words| && r == Windowed(words, words, w)
    ensures r.matchedWords == |words|
    ensures forall k :: 0 <= k < |r.processedText| ==> r.processedText[k].kind == Matched(Exact)
  {
    SelfAllMarked(words, w);
    forall k | 0 <= k < |r.processedText|
      ensures r.processedText[k].kind == Matched(Exact)
    {
      SegmentLabel(words, words, w, k);
      SelfLabelExact(words, w, k);
    }
  }

  /** In a text compared with itself every word is covered by a resolved exact window. */
  lemma SelfLabelExact(words: seq<Word>, w: nat, k: nat)
    requires 2 <= w <= |words| && k < |words|
    ensures CoveringLabel(words, words, w, k).kind == Matched(Exact)
  {
    var i := Min(k, |words| - w);
    SelfWindowExact(words, w, i);
    var c := ResolvedCovering(words, words, w, k, 0);
    assert c.Some?;
    SelfWindowExact(words, w, c.value);
  }

  /** Equal windows of space-free words start with the same word. */
  lemma EqualWindowsShareWord(orig: seq<Word>, susp: seq<Word>, w: nat, i: nat, j: nat)
    requires 1 <= w && i + w <= |susp| && j + w <= |orig|
    requires forall x :: x in orig ==> Space !in x
    requires forall x :: x in susp ==> Space !in x
    ensures WindowText(orig, j, w) == WindowText(susp, i, w) ==> susp[i] in orig
  {
    if WindowText(orig, j, w) == WindowText(susp, i, w) {
      var a, b := orig[j..j + w], susp[i..i + w];
      assert forall x :: x in a ==> x in orig;
      assert forall x :: x in b ==> x in susp;
      JoinInjective(a, b);
      assert susp[i] == b[0] == a[0];
    }
  }

  /** A window sharing no word with a source window has overlap 0. */
  lemma {:induction false} OverlapZero(suspWin: seq<Word>, origWin: seq<Word>)
    requires forall x :: x in suspWin ==> x !in origWin
    ensures Overlap(suspWin, origWin) == 0
  {
    if suspWin != [] {
      var init := suspWin[..|suspWin| - 1];
      assert forall x :: x in init ==> x in suspWin;
      OverlapZero(init, origWin);
    }
  }

  /** With token words and no suspect word in the source, no window is resolved. */
  lemma DisjointWindowUnresolved(orig: seq<Word>, susp: seq<Word>, w: nat, i: nat)
    requires 2 <= w <= |orig| && i + w <= |susp|
    requires forall x :: x in orig ==> IsToken(x)
    requires forall x :: x in susp ==> IsToken(x)
    requires forall x :: x in susp ==> x !in orig
    ensures Resolve(orig, susp, w, i) == NoMatch
  {
    forall j | 0 <= j && j + w <= |orig|
      ensures WindowText(orig, j, w) != WindowText(susp, i, w) && !IsPartial(orig, susp, w, i, j)
    {
      EqualWindowsShareWord(orig, susp, w, i, j);
      var a, b := orig[j..j + w], susp[i..i + w];
      assert forall x :: x in a ==> x in orig;
      assert forall x :: x in b ==> x in susp;
      OverlapZero(b, a);
    }
  }

  /** When no window below `n` is resolved, there are no matches and nothing is marked. */
  lemma {:induction false} NothingResolved(orig: seq<Word>, susp: seq<Word>, w: nat, n: nat)
    requires w <= |orig| && n + w <= |susp| + 1
    requires forall i :: 0 <= i < n ==> Resolve(orig, susp, w, i) == NoMatch
    ensures MatchesBelow(orig, susp, w, n) == [] && MarkedBelow(orig, susp, w, n) == {}
  {
    if n > 0 {
      NothingResolved(orig, susp, w, n - 1);
      assert Resolve(orig, susp, w, n - 1) == NoMatch;
      assert MarkedBy(orig, susp, w, n - 1) == {};
      assert MatchesBelow(orig, susp, w, n) == MatchesBelow(orig, susp, w, n - 1);
    }
  }

  /**
    Two texts of token words (as `ExtractWords` gives) with no suspect word in
    the source score 0: no match, nothing counted, every word 'original'.
   */
  lemma DisjointVocabularies(orig: seq<Word>, susp: seq<Word>, windowSize: int, r: AnalysisResult)
    requires r == Analyze(orig, susp, windowSize)
    requires forall x :: x in orig ==> IsToken(x)
    requires forall x :: x in susp ==> IsToken(x)
    requires forall x :: x in susp ==> x !in orig
    ensures r.plagiarismPercentage == 0 && r.matchedWords == 0 && r.matches == []
    ensures forall k :: 0 <= k < |r.processedText| ==> r.processedText[k].kind == Original
  {
    if |susp| > 0 && |orig| > 0 {
      PercentageOfNone(|susp|);
      var w := Min(windowSize, Min(|orig|, |susp|));
      if w < 2 {
        assert r == SingleWord(orig, susp);
        forall k | 0 <= k < |susp|
          ensures LowerCase(susp[k]) !in SourceWordSet(orig)
        {
          TokenInSourceSet(orig, susp[k]);
        }
        CountNone(susp, SourceWordSet(orig));
      } else {
        assert r == Windowed(orig, susp, w);
        var n := |susp| - w + 1;
        forall i | 0 <= i < n
          ensures Resolve(orig, susp, w, i) == NoMatch
        {
          DisjointWindowUnresolved(orig, susp, w, i);
        }
        NothingResolved(orig, susp, w, n);
      }
    }
  }

  /**
    With a window of two words there are no partial matches: ceil(0.6 * 2) = 2,
    so a window sharing fewer than two words never qualifies and one sharing
    both is not below the window size.
   */
  lemma PairWindowExact(orig: seq<Word>, susp: seq<Word>, i: nat)
    requires 2 <= |orig| && i + 2 <= |susp|
    ensures Resolve(orig, susp, 2, i).Found? ==> Resolve(orig, susp, 2, i).kind == Exact
  {
    ResolveMeaning(orig, susp, 2, i);
  }

  /** With a window size of at most two, every match and every highlighted word is exact. */
  lemma PairsNeverPartial(orig: seq<Word>, susp: seq<Word>, windowSize: int, r: AnalysisResult)
    requires r == Analyze(orig, susp, windowSize) && windowSize <= 2
    ensures forall t :: 0 <= t < |r.matches| ==> r.matches[t].kind == Exact
    ensures forall k :: 0 <= k < |r.processedText| ==> r.processedText[k].kind != Matched(Partial)
  {
    if |susp| > 0 && |orig| > 0 && Min(windowSize, Min(|orig|, |susp|)) == 2 {
      assert r == Windowed(orig, susp, 2);
      var n := |susp| - 1;
      MatchesSound(orig, susp, 2, n);
      forall t | 0 <= t < |r.matches|
        ensures r.matches[t].kind == Exact
      {
        PairWindowExact(orig, susp, r.matches[t].startIndex);
      }
      forall k | 0 <= k < |r.processedText|
        ensures r.processedText[k].kind != Matched(Partial)
      {
        SegmentLabel(orig, susp, 2, k);
        PairLabelNotPartial(orig, susp, k);
      }
    }
  }

  /** With a window of two words no word is labelled 'partial'. */
  lemma PairLabelNotPartial(orig: seq<Word>, susp: seq<Word>, k: nat)
    requires 2 <= |orig| && k < |susp|
    ensures CoveringLabel(orig, susp, 2, k).kind != Matched(Partial)
  {
    var c := ResolvedCovering(orig, susp, 2, k, 0);
    if c.Some? {
      PairWindowExact(orig, susp, c.value);
    }
  }
}
