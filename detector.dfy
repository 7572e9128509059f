/**
  `detectPlagiarism` and `singleWordMatch` as the source runs them: a `Map`
  of candidate lists (a map value that every insertion reassigns),
  `matches` and `algorithmSteps` pushed onto, the `matchedIndices` set added to, and counters updated in nested
  loops that stop at the first hit. Each method is proved to compute the
  reference definition of module Matching.
 */
module Detector {
  import opened Wrappers
  import opened Text
  import opened Hashing
  import opened Matching

  /**
    The pattern index: every source window's text and start index, appended
    to the bucket of its hash in left-to-right order.
   */
  method BuildPatterns(originalWords: seq<Word>, w: nat) returns (patterns: map<int, seq<Candidate>>)
    requires 1 <= w <= |originalWords|
    ensures forall h :: 0 <= h < Prime ==>
      Lookup(patterns, h) == Bucket(originalWords, w, h, |originalWords| - w + 1)
  {
    patterns := map[];
    var i := 0;
    while i <= |originalWords| - w
      invariant 0 <= i <= |originalWords| - w + 1
      invariant forall h :: 0 <= h < Prime ==> Lookup(patterns, h) == Bucket(originalWords, w, h, i)
    {
      var pattern := Join(originalWords[i..i + w]);
      var hash := CalculateHash(pattern, |pattern|);
      assert pattern[..|pattern|] == pattern;
      ghost var before := patterns;
      if hash !in patterns {
        patterns := patterns[hash := []];
      }
      patterns := patterns[hash := patterns[hash] + [Candidate(pattern, i)]];
      forall h | 0 <= h < Prime
        ensures Lookup(patterns, h) == Bucket(originalWords, w, h, i + 1)
      {
        BucketGrows(originalWords, w, h, i);
      }
      i := i + 1;
    }
    assert i == |originalWords| - w + 1;
  }

  /** The candidate loop with its `break`: the position of the first candidate whose text is `window`. */
  method FindCandidate(candidates: seq<Candidate>, window: JsString) returns (found: Option<nat>)
    ensures found == FirstEqual(candidates, window)
  {
    found := None;
    var p := 0;
    while p < |candidates|
      invariant 0 <= p <= |candidates|
      invariant forall q :: 0 <= q < p ==> candidates[q].text != window
    {
      if candidates[p].text == window {
        found := Some(p);
        break;
      }
      p := p + 1;
    }
  }

  /** The counting loop: how many words of `suspWindow` `origWindow` includes. */
  method CountOverlap(suspWindow: seq<Word>, origWindow: seq<Word>) returns (matchCount: nat)
    ensures matchCount == Overlap(suspWindow, origWindow)
  {
    matchCount := 0;
    var k := 0;
    while k < |suspWindow|
      invariant 0 <= k <= |suspWindow|
      invariant matchCount == Overlap(suspWindow[..k], origWindow)
    {
      assert suspWindow[..k + 1][..k] == suspWindow[..k];
      if suspWindow[k] in origWindow {
        matchCount := matchCount + 1;
      }
      k := k + 1;
    }
    assert suspWindow[..k] == suspWindow;
  }

  /** The partial scan with its `break`: the lowest source window that is a partial match of suspect window `i`. */
  method FindPartial(originalWords: seq<Word>, suspectedWords: seq<Word>, w: nat, i: nat)
    returns (source: Option<nat>)
    requires 2 <= w <= |originalWords| && i + w <= |suspectedWords|
    ensures source == PartialFrom(originalWords, suspectedWords, w, i, 0)
  {
    source := None;
    var j := 0;
    while j <= |originalWords| - w
      invariant 0 <= j <= |originalWords| - w + 1
      invariant PartialFrom(originalWords, suspectedWords, w, i, 0) == PartialFrom(originalWords, suspectedWords, w, i, j)
    {
      var origWindow := originalWords[j..j + w];
      var suspWindow := suspectedWords[i..i + w];
      var matchCount := CountOverlap(suspWindow, origWindow);
      assert IsPartial(originalWords, suspectedWords, w, i, j) <==> matchCount >= Threshold(w) && matchCount < w;
      if matchCount >= Threshold(w) && matchCount < w {
        source := Some(j);
        break;
      }
      assert PartialFrom(originalWords, suspectedWords, w, i, j) == PartialFrom(originalWords, suspectedWords, w, i, j + 1);
      j := j + 1;
    }
  }

  /** Mark every position of [i, i + w). */
  method MarkWindow(matchedIndices: set<int>, i: int, w: nat) returns (marked: set<int>)
    ensures marked == matchedIndices + Span(i, i + w)
  {
    marked := matchedIndices;
    var k := i;
    while k < i + w
      invariant i <= k <= i + w
      invariant forall t :: t in marked <==> t in matchedIndices || i <= t < k
    {
      marked := marked + {k};
      k := k + 1;
    }
  }

  /** Mark the positions of [i, i + w) whose suspect word `origWindow` includes. */
  method MarkMembers(matchedIndices: set<int>, suspectedWords: seq<Word>, origWindow: seq<Word>, i: nat, w: nat)
    returns (marked: set<int>)
    requires i + w <= |suspectedWords|
    ensures marked == matchedIndices + SharedPositions(suspectedWords, origWindow, i, w)
  {
    marked := matchedIndices;
    var k := i;
    while k < i + w
      invariant i <= k <= i + w
      invariant forall t :: t in marked <==> t in matchedIndices || (i <= t < k && suspectedWords[t] in origWindow)
    {
      if suspectedWords[k] in origWindow {
        marked := marked + {k};
      }
      k := k + 1;
    }
    assert forall t :: t in marked <==> t in matchedIndices + SharedPositions(suspectedWords, origWindow, i, w);
  }

  /**
    The exact check: the candidates stored under the window's hash and the
    first of them whose text is the window. It succeeds exactly when some
    source window equals the suspect window, takes the lowest such window as
    the source, marks the whole suspect window and pushes an exact match.
   */
  method ExactMatch(originalWords: seq<Word>, suspectedWords: seq<Word>, w: nat, i: nat,
                    originalPatterns: map<int, seq<Candidate>>, window: JsString, windowHash: int,
                    matches: seq<Match>, matchedIndices: set<int>)
    returns (matched: bool, matchedSource: JsString, matches': seq<Match>, matchedIndices': set<int>)
    requires 2 <= w <= |originalWords| && i + w <= |suspectedWords|
    requires forall h :: 0 <= h < Prime ==>
      Lookup(originalPatterns, h) == Bucket(originalWords, w, h, |originalWords| - w + 1)
    requires window == WindowText(suspectedWords, i, w) && windowHash == HashOf(window)
    ensures var v := Resolve(originalWords, suspectedWords, w, i);
      matched == (v.Found? && v.kind == Exact) &&
      (matched ==> matchedSource == WindowText(originalWords, v.source, w)) &&
      (matched ==> matches' == matches + [MatchOf(originalWords, suspectedWords, w, i)]) &&
      (matched ==> matchedIndices' == matchedIndices + MarkedBy(originalWords, suspectedWords, w, i)) &&
      (!matched ==> matchedSource == [] && matches' == matches && matchedIndices' == matchedIndices)
  {
    ghost var verdict := Resolve(originalWords, suspectedWords, w, i);
    BucketFindsLowestWindow(originalWords, w, window, Lookup(originalPatterns, windowHash));
    matched := false;
    matchedSource := [];
    matches' := matches;
    matchedIndices' := matchedIndices;
    if windowHash in originalPatterns {
      var candidates := originalPatterns[windowHash];
      var p := FindCandidate(candidates, window);
      if p.Some? {
        matched := true;
        matchedSource := candidates[p.value].text;
        var sourceIdx := candidates[p.value].index;
        assert verdict == Found(Exact, sourceIdx);
        assert matchedSource == WindowText(originalWords, sourceIdx, w);
        assert MarkedBy(originalWords, suspectedWords, w, i) == Span(i, i + w);
        matchedIndices' := MarkWindow(matchedIndices, i, w);
        assert Match(i, i + w - 1, window, sourceIdx, Exact, windowHash) == MatchOf(originalWords, suspectedWords, w, i);
        matches' := matches + [Match(i, i + w - 1, window, sourceIdx, Exact, windowHash)];
      }
    }
  }

  /**
    The partial check, run when the exact check found nothing: the lowest
    source window sharing at least ceil(0.6 w) but not all of the window's
    words becomes the source; the suspect words it contains are marked and a
    partial match is pushed.
   */
  method PartialMatch(originalWords: seq<Word>, suspectedWords: seq<Word>, w: nat, i: nat, windowHash: int,
                      matches: seq<Match>, matchedIndices: set<int>)
    returns (matched: bool, matchedSource: JsString, matches': seq<Match>, matchedIndices': set<int>)
    requires 2 <= w <= |originalWords| && i + w <= |suspectedWords|
    requires windowHash == HashOf(WindowText(suspectedWords, i, w))
    requires var v := Resolve(originalWords, suspectedWords, w, i); !(v.Found? && v.kind == Exact)
    ensures var v := Resolve(originalWords, suspectedWords, w, i);
      matched == v.Found? &&
      (matched ==> matchedSource == WindowText(originalWords, v.source, w)) &&
      (matched ==> matches' == matches + [MatchOf(originalWords, suspectedWords, w, i)]) &&
      (matched ==> matchedIndices' == matchedIndices + MarkedBy(originalWords, suspectedWords, w, i)) &&
      (!matched ==> matchedSource == [] && matches' == matches && matchedIndices' == matchedIndices)
  {
    ghost var verdict := Resolve(originalWords, suspectedWords, w, i);
    matched := false;
    matchedSource := [];
    matches' := matches;
    matchedIndices' := matchedIndices;
    var j := FindPartial(originalWords, suspectedWords, w, i);
    if j.Some? {
      var origWindow := originalWords[j.value..j.value + w];
      matched := true;
      matchedSource := Join(origWindow);
      var sourceIdx := j.value;
      assert verdict == Found(Partial, sourceIdx);
      assert matchedSource == WindowText(originalWords, sourceIdx, w);
      assert MarkedBy(originalWords, suspectedWords, w, i) == SharedPositions(suspectedWords, origWindow, i, w);
      matchedIndices' := MarkMembers(matchedIndices, suspectedWords, origWindow, i, w);
      assert Match(i, i + w - 1, Join(suspectedWords[i..i + w]), sourceIdx, Partial, windowHash)
        == MatchOf(originalWords, suspectedWords, w, i);
      matches' := matches + [Match(i, i + w - 1, Join(suspectedWords[i..i + w]), sourceIdx, Partial, windowHash)];
    }
  }

  /**
    One pass of the window loop: the exact check, then the partial check
    when it found nothing.
   */
  method MatchWindow(originalWords: seq<Word>, suspectedWords: seq<Word>, w: nat, i: nat,
                     originalPatterns: map<int, seq<Candidate>>, window: JsString, windowHash: int,
                     matches: seq<Match>, matchedIndices: set<int>)
    returns (matched: bool, matchedSource: JsString, matches': seq<Match>, matchedIndices': set<int>)
    requires 2 <= w <= |originalWords| && i + w <= |suspectedWords|
    requires forall h :: 0 <= h < Prime ==>
      Lookup(originalPatterns, h) == Bucket(originalWords, w, h, |originalWords| - w + 1)
    requires window == WindowText(suspectedWords, i, w) && windowHash == HashOf(window)
    ensures matched == Resolve(originalWords, suspectedWords, w, i).Found?
    ensures matched ==> matchedSource == WindowText(originalWords, Resolve(originalWords, suspectedWords, w, i).source, w)
    ensures !matched ==> matchedSource == []
    ensures matches' == matches +
      (if matched then [MatchOf(originalWords, suspectedWords, w, i)] else [])
    ensures matchedIndices' == matchedIndices + MarkedBy(originalWords, suspectedWords, w, i)
  {
    matched, matchedSource, matches', matchedIndices' :=
      ExactMatch(originalWords, suspectedWords, w, i, originalPatterns, window, windowHash, matches, matchedIndices);
    if !matched {
      matched, matchedSource, matches', matchedIndices' :=
        PartialMatch(originalWords, suspectedWords, w, i, windowHash, matches, matchedIndices);
    }
  }

  /**
    The body of the window loop for suspect window `i`: hash the window,
    resolve it, and record the trace step while fewer than `MaxSteps` were
    recorded.
   */
  method ScanWindow(originalWords: seq<Word>, suspectedWords: seq<Word>, w: nat, i: nat, stepCount: nat,
                    originalPatterns: map<int, seq<Candidate>>,
                    matches: seq<Match>, algorithmSteps: seq<AlgorithmStep>, matchedIndices: set<int>)
    returns (matches': seq<Match>, algorithmSteps': seq<AlgorithmStep>, matchedIndices': set<int>)
    requires 2 <= w <= |originalWords| && i + w <= |suspectedWords| && stepCount == i
    requires forall h :: 0 <= h < Prime ==>
      Lookup(originalPatterns, h) == Bucket(originalWords, w, h, |originalWords| - w + 1)
    requires matches == MatchesBelow(originalWords, suspectedWords, w, i)
    requires algorithmSteps == StepsBelow(originalWords, suspectedWords, w, i)
    requires matchedIndices == MarkedBelow(originalWords, suspectedWords, w, i)
    ensures matches' == MatchesBelow(originalWords, suspectedWords, w, i + 1)
    ensures algorithmSteps' == StepsBelow(originalWords, suspectedWords, w, i + 1)
    ensures matchedIndices' == MarkedBelow(originalWords, suspectedWords, w, i + 1)
  {
    var window := Join(suspectedWords[i..i + w]);
    var windowHash := CalculateHash(window, |window|);
    assert window[..|window|] == window;
    var matched, matchedSource;
    matched, matchedSource, matches', matchedIndices' :=
      MatchWindow(originalWords, suspectedWords, w, i, originalPatterns, window, windowHash, matches, matchedIndices);
    algorithmSteps' := algorithmSteps;
    if stepCount < MaxSteps {
      var sourceMatch := if matchedSource == [] then None else Some(matchedSource);
      assert AlgorithmStep(stepCount + 1, window, windowHash, matched, sourceMatch)
        == StepOf(originalWords, suspectedWords, w, i);
      algorithmSteps' := algorithmSteps + [AlgorithmStep(stepCount + 1, window, windowHash, matched, sourceMatch)];
    }
  }

  /** The window loop of `detectPlagiarism` for an effective window size `w` of at least 2. */
  method WindowedMatch(originalWords: seq<Word>, suspectedWords: seq<Word>, w: nat)
    returns (result: AnalysisResult)
    requires 2 <= w <= |originalWords| && w <= |suspectedWords|
    ensures result == Windowed(originalWords, suspectedWords, w)
  {
    var originalPatterns := BuildPatterns(originalWords, w);
    var h := ComputeH(w);  // computed and never used, as in the source
    var matches: seq<Match> := [];
    var algorithmSteps: seq<AlgorithmStep> := [];
    var matchedIndices: set<int> := {};
    var stepCount := 0;
    var i := 0;
    while i <= |suspectedWords| - w
      invariant 0 <= i <= |suspectedWords| - w + 1
      invariant stepCount == i
      invariant matches == MatchesBelow(originalWords, suspectedWords, w, i)
      invariant algorithmSteps == StepsBelow(originalWords, suspectedWords, w, i)
      invariant matchedIndices == MarkedBelow(originalWords, suspectedWords, w, i)
    {
      matches, algorithmSteps, matchedIndices :=
        ScanWindow(originalWords, suspectedWords, w, i, stepCount, originalPatterns, matches, algorithmSteps, matchedIndices);
      stepCount := stepCount + 1;
      i := i + 1;
    }
    assert i == |suspectedWords| - w + 1;
    assert matches == MatchesBelow(originalWords, suspectedWords, w, |suspectedWords| - w + 1);
    assert matchedIndices == MarkedBelow(originalWords, suspectedWords, w, |suspectedWords| - w + 1);

    var processedText := Annotate(suspectedWords, matches);
    var matchedWords := |matchedIndices|;
    var plagiarismPercentage := Percentage(matchedWords, |suspectedWords|);
    result := AnalysisResult(plagiarismPercentage, |suspectedWords|, matchedWords, matches, algorithmSteps, processedText);
  }

  /** `singleWordMatch`. */
  method SingleWordMatch(originalWords: seq<Word>, suspectedWords: seq<Word>) returns (result: AnalysisResult)
    ensures result == SingleWord(originalWords, suspectedWords)
  {
    var originalSet := SourceWordSet(originalWords);
    var processedText: seq<ProcessedSegment> := [];
    var matchedCount := 0;
    var k := 0;
    while k < |suspectedWords|
      invariant 0 <= k <= |suspectedWords|
      invariant processedText == FallbackSegments(originalSet, suspectedWords[..k])
      invariant matchedCount == CountMembers(suspectedWords[..k], originalSet)
    {
      var word := suspectedWords[k];
      assert suspectedWords[..k + 1][..k] == suspectedWords[..k];
      if LowerCase(word) in originalSet {
        processedText := processedText + [ProcessedSegment(word, Matched(Exact), None)];
        matchedCount := matchedCount + 1;
      } else {
        processedText := processedText + [ProcessedSegment(word, Original, None)];
      }
      k := k + 1;
    }
    assert suspectedWords[..k] == suspectedWords;
    var percentage := Percentage(matchedCount, |suspectedWords|);
    result := AnalysisResult(percentage, |suspectedWords|, matchedCount, [], [], processedText);
  }

  /** `detectPlagiarism(originalText, suspectedText, windowSize = 5)`. */
  method DetectPlagiarism(originalText: JsString, suspectedText: JsString, windowSize: int := 5)
    returns (result: AnalysisResult)
    ensures result == Analyze(ExtractWords(originalText), ExtractWords(suspectedText), windowSize)
  {
    var originalWords := ExtractWords(originalText);
    var suspectedWords := ExtractWords(suspectedText);
    result := DetectInWords(originalWords, suspectedWords, windowSize);
  }

  /** The body of `detectPlagiarism` once both texts are word lists: the degenerate case, the fallback, or the window loop. */
  method DetectInWords(originalWords: seq<Word>, suspectedWords: seq<Word>, windowSize: int)
    returns (result: AnalysisResult)
    ensures result == Analyze(originalWords, suspectedWords, windowSize)
  {
    if |suspectedWords| == 0 || |originalWords| == 0 {
      return AnalysisResult(0, |suspectedWords|, 0, [], [], AllOriginal(suspectedWords));
    }

    var effectiveWindowSize := Min(windowSize, Min(|originalWords|, |suspectedWords|));
    if effectiveWindowSize < 2 {
      result := SingleWordMatch(originalWords, suspectedWords);
      return;
    }
    result := WindowedMatch(originalWords, suspectedWords, effectiveWindowSize);
  }
}
