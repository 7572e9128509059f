/**
  The reference definition of what `detectPlagiarism` computes, on the two
  word lists: the records it returns, the pattern index, the exact and partial
  resolution of a suspect window, the marked word positions, the trace, the
  per-word annotation and the score. The imperative implementation in module
  Detector is proved to compute exactly these values.
 */
module Matching {
  import opened Wrappers
  import opened Text
  import opened Hashing

  datatype MatchType = Exact | Partial

  /** `Match`: the suspect window [startIndex, endIndex] and the source window it matched. */
  datatype Match = Match(
    startIndex: int,
    endIndex: int,
    matchedText: JsString,
    sourceIndex: int,
    kind: MatchType,
    hashValue: int)

  /** `AlgorithmStep`, without its human-readable description. */
  datatype AlgorithmStep = AlgorithmStep(
    step: int,
    windowText: JsString,
    hashValue: int,
    matched: bool,
    sourceMatch: Option<JsString>)

  /** The `type` of a `ProcessedSegment`: 'exact', 'partial' or 'original'. */
  datatype SegmentType = Matched(matchType: MatchType) | Original

  datatype ProcessedSegment = ProcessedSegment(text: Word, kind: SegmentType, sourceIndex: Option<int>)

  datatype AnalysisResult = AnalysisResult(
    plagiarismPercentage: int,
    totalWords: int,
    matchedWords: int,
    matches: seq<Match>,
    algorithmSteps: seq<AlgorithmStep>,
    processedText: seq<ProcessedSegment>)

  /** An entry of the pattern index: a source window's text and start index. */
  datatype Candidate = Candidate(text: JsString, index: int)

  /** Only the first steps are recorded in the trace. */
  const MaxSteps := 20

  function Min(a: int, b: int): int {
    if a <= b then a else b
  }

  /**
    `Math.round(matched / total * 100)` when `total > 0`, else 0: the nearest
    integer to 100 * matched / total, halves rounded up.
   */
  function Percentage(matched: nat, total: nat): (p: int)
    ensures total == 0 ==> p == 0
    ensures matched <= total ==> 0 <= p <= 100
  {
    if total > 0 then
      var p := (200 * matched + total) / (2 * total);
      RoundingFacts(matched, total, p);
      p
    else 0
  }

  /**
    The score is the integer nearest to 100 * matched / total, halves rounded
    up: 100 * matched / total lies in [p - 1/2, p + 1/2).
   */
  lemma PercentageRounds(matched: nat, total: nat)
    requires total > 0
    ensures var p := Percentage(matched, total);
      (2 * p - 1) * total <= 200 * matched < (2 * p + 1) * total
  {
    RoundingFacts(matched, total, Percentage(matched, total));
  }

  lemma RoundingFacts(matched: nat, total: nat, p: int)
    requires total > 0 && p == (200 * matched + total) / (2 * total)
    ensures (2 * p - 1) * total <= 200 * matched < (2 * p + 1) * total
    ensures matched <= total ==> 0 <= p <= 100
  {
    RoundingBounds(200 * matched + total, 2 * total, p);
    assert p * (2 * total) == (2 * p) * total;
    assert (2 * p - 1) * total == (2 * p) * total - total;
    assert (2 * p + 1) * total == (2 * p) * total + total;
    if matched <= total {
      assert p * (2 * total) <= 201 * total < 101 * (2 * total);
      QuotientBelow(p, 2 * total, 101);
    }
  }

  lemma RoundingBounds(x: nat, d: nat, q: int)
    requires d > 0 && q == x / d
    ensures 0 <= q && q * d <= x < q * d + d
  {
  }

  lemma QuotientBelow(q: int, d: nat, bound: int)
    requires d > 0 && q * d < bound * d
    ensures q < bound
  {
  }

  /** `Math.ceil(w * 0.6)`: the least t with 5t >= 3w. */
  function Threshold(w: int): (t: int)
    ensures 5 * t >= 3 * w && 5 * (t - 1) < 3 * w
  {
    (3 * w + 4) / 5
  }

  /** `words.slice(i, i + w).join(' ')`. */
  function WindowText(words: seq<Word>, i: int, w: int): JsString
    requires 0 <= i && 0 <= w && i + w <= |words|
  {
    Join(words[i..i + w])
  }

  /**
    The bucket of hash `h` in the pattern index after the first `k` source
    windows: exactly the candidates of the windows with that hash, in
    left-to-right order.
   */
  function Bucket(orig: seq<Word>, w: nat, h: int, k: nat): (b: seq<Candidate>)
    requires k + w <= |orig| + 1
    ensures forall c :: c in b <==>
      0 <= c.index < k && c.text == WindowText(orig, c.index, w) && HashOf(c.text) == h
    ensures forall p, q :: 0 <= p < q < |b| ==> b[p].index < b[q].index
  {
    if k == 0 then []
    else
      var text := WindowText(orig, k - 1, w);
      var before := Bucket(orig, w, h, k - 1);
      assert forall c :: c in before ==> c.index < k - 1;
      before + (if HashOf(text) == h then [Candidate(text, k - 1)] else [])
  }

  /** Adding source window `k` appends its candidate to the bucket of its hash only. */
  lemma BucketGrows(orig: seq<Word>, w: nat, h: int, k: nat)
    requires k + 1 + w <= |orig| + 1
    ensures var text := WindowText(orig, k, w);
      Bucket(orig, w, h, k + 1) == Bucket(orig, w, h, k) + (if HashOf(text) == h then [Candidate(text, k)] else [])
  {
  }

  /** `map.get(h)` with a missing key read as an empty bucket. */
  function Lookup(index: map<int, seq<Candidate>>, h: int): seq<Candidate> {
    if h in index then index[h] else []
  }

  /** The position of the first candidate whose text equals `text`. */
  function FirstEqual(cands: seq<Candidate>, text: JsString): (r: Option<nat>)
    ensures r.Some? ==> r.value < |cands| && cands[r.value].text == text
    ensures r.Some? ==> forall q :: 0 <= q < r.value ==> cands[q].text != text
    ensures r.None? ==> forall q :: 0 <= q < |cands| ==> cands[q].text != text
  {
    if cands == [] then None
    else if cands[0].text == text then Some(0)
    else match FirstEqual(cands[1..], text)
      case None => None
      case Some(p) => Some(p + 1)
  }

  /** The lowest source window below `k` whose text equals `text`. */
  function LowestEqualWindow(orig: seq<Word>, w: nat, text: JsString, k: nat): (r: Option<nat>)
    requires k + w <= |orig| + 1
    ensures r.Some? ==> r.value < k && WindowText(orig, r.value, w) == text
    ensures r.Some? ==> forall j :: 0 <= j < r.value ==> WindowText(orig, j, w) != text
    ensures r.None? ==> forall j :: 0 <= j < k ==> WindowText(orig, j, w) != text
  {
    if k == 0 then None
    else match LowestEqualWindow(orig, w, text, k - 1)
      case Some(j) => Some(j)
      case None => if WindowText(orig, k - 1, w) == text then Some(k - 1) else None
  }

  /**
    The first candidate with equal text in the bucket of the text's hash is
    the lowest source window with that text, and there is none exactly when
    no source window has that text: the hash index finds what a scan of all
    windows would.
   */
  lemma BucketFindsLowestWindow(orig: seq<Word>, w: nat, text: JsString, b: seq<Candidate>)
    requires 1 <= w <= |orig| && b == Bucket(orig, w, HashOf(text), |orig| - w + 1)
    ensures FirstEqual(b, text).Some? ==>
      LowestEqualWindow(orig, w, text, |orig| - w + 1) == Some(b[FirstEqual(b, text).value].index)
    ensures FirstEqual(b, text).None? ==> LowestEqualWindow(orig, w, text, |orig| - w + 1).None?
  {
    var low := LowestEqualWindow(orig, w, text, |orig| - w + 1);
    var first := FirstEqual(b, text);
    if low.Some? {
      var q := InBucket(orig, w, text, b, low.value);
      assert first.Some?;
      var p := first.value;
      assert b[p] in b;
      assert p <= q;
    }
  }

  /** A source window equal to `text` has its candidate in the bucket of the text's hash. */
  lemma InBucket(orig: seq<Word>, w: nat, text: JsString, b: seq<Candidate>, j: nat) returns (q: nat)
    requires 1 <= w <= |orig| && b == Bucket(orig, w, HashOf(text), |orig| - w + 1)
    requires j < |orig| - w + 1 && WindowText(orig, j, w) == text
    ensures q < |b| && b[q] == Candidate(text, j)
  {
    assert Candidate(text, j) in b;
    q :| 0 <= q < |b| && b[q] == Candidate(text, j);
  }

  /** How many words of `suspWin` occur in `origWin` (`origWindow.includes(word)`), repeats counted. */
  function Overlap(suspWin: seq<Word>, origWin: seq<Word>): (c: nat)
    ensures c <= |suspWin|
  {
    if suspWin == [] then 0
    else
      var last := suspWin[|suspWin| - 1];
      Overlap(suspWin[..|suspWin| - 1], origWin) + (if last in origWin then 1 else 0)
  }

  /** The overlap counts the positions of the suspect window whose word occurs in the source window. */
  lemma {:induction false} OverlapCounts(suspWin: seq<Word>, origWin: seq<Word>)
    ensures Overlap(suspWin, origWin) == |set k | 0 <= k < |suspWin| && suspWin[k] in origWin|
  {
    if suspWin != [] {
      var n := |suspWin|;
      var p := suspWin[..n - 1];
      OverlapCounts(p, origWin);
      var a := set k | 0 <= k < |p| && p[k] in origWin;
      var b := set k | 0 <= k < n && suspWin[k] in origWin;
      if suspWin[n - 1] in origWin {
        assert b == a + {n - 1};
        assert n - 1 !in a;
      } else {
        assert b == a;
      }
    }
  }

  /** Suspect window `i` is a partial match of source window `j`: ceil(0.6 w) <= overlap < w. */
  predicate IsPartial(orig: seq<Word>, susp: seq<Word>, w: nat, i: nat, j: nat)
    requires i + w <= |susp| && j + w <= |orig|
  {
    var c := Overlap(susp[i..i + w], orig[j..j + w]);
    Threshold(w) <= c < w
  }

  /** The scan for a partial match over the source windows from `j` on. */
  function PartialFrom(orig: seq<Word>, susp: seq<Word>, w: nat, i: nat, j: nat): (r: Option<nat>)
    requires i + w <= |susp| && j + w <= |orig| + 1
    ensures r.Some? ==> j <= r.value && r.value + w <= |orig| && IsPartial(orig, susp, w, i, r.value)
    ensures r.Some? ==> forall j' :: j <= j' < r.value ==> !IsPartial(orig, susp, w, i, j')
    ensures r.None? ==> forall j' :: j <= j' && j' + w <= |orig| ==> !IsPartial(orig, susp, w, i, j')
    decreases |orig| + 1 - j - w
  {
    if j + w > |orig| then None
    else if IsPartial(orig, susp, w, i, j) then Some(j)
    else PartialFrom(orig, susp, w, i, j + 1)
  }

  /** How one suspect window is resolved. */
  datatype Verdict = NoMatch | Found(kind: MatchType, source: nat)

  /**
    Suspect window `i`: an exact match with the lowest equal source window if
    there is one, otherwise a partial match with the lowest qualifying source
    window if there is one, otherwise no match.
   */
  function Resolve(orig: seq<Word>, susp: seq<Word>, w: nat, i: nat): (v: Verdict)
    requires w <= |orig| && i + w <= |susp|
    ensures v.Found? ==> v.source + w <= |orig|
  {
    match LowestEqualWindow(orig, w, WindowText(susp, i, w), |orig| - w + 1)
    case Some(j) => Found(Exact, j)
    case None =>
      match PartialFrom(orig, susp, w, i, 0)
      case Some(j) => Found(Partial, j)
      case None => NoMatch
  }

  /**
    What the verdict of a suspect window means: an exact match names the
    lowest source window with the same text; a partial match names the lowest
    qualifying source window and happens only when no source window has the
    same text; and there is no match exactly when no source window is equal
    or qualifies.
   */
  lemma ResolveMeaning(orig: seq<Word>, susp: seq<Word>, w: nat, i: nat)
    requires w <= |orig| && i + w <= |susp|
    ensures var v := Resolve(orig, susp, w, i);
      v.Found? && v.kind == Exact ==>
        WindowText(orig, v.source, w) == WindowText(susp, i, w) &&
        forall j :: 0 <= j < v.source ==> WindowText(orig, j, w) != WindowText(susp, i, w)
    ensures var v := Resolve(orig, susp, w, i);
      v.Found? && v.kind == Partial ==>
        IsPartial(orig, susp, w, i, v.source) &&
        (forall j :: 0 <= j < v.source ==> !IsPartial(orig, susp, w, i, j)) &&
        forall j :: 0 <= j && j + w <= |orig| ==> WindowText(orig, j, w) != WindowText(susp, i, w)
    ensures Resolve(orig, susp, w, i) == NoMatch <==>
      forall j :: 0 <= j && j + w <= |orig| ==>
        WindowText(orig, j, w) != WindowText(susp, i, w) && !IsPartial(orig, susp, w, i, j)
  {
  }

  /**
    The suspect positions window `i` marks as matched: the whole window for an
    exact match, the words that occur in the source window for a partial one.
   */
  function MarkedBy(orig: seq<Word>, susp: seq<Word>, w: nat, i: nat): (m: set<int>)
    requires w <= |orig| && i + w <= |susp|
    ensures forall k :: k in m ==> i <= k < i + w
  {
    match Resolve(orig, susp, w, i)
    case NoMatch => {}
    case Found(Exact, _) => Span(i, i + w)
    case Found(Partial, j) => SharedPositions(susp, orig[j..j + w], i, w)
  }

  /** The positions of [i, i + w) whose suspect word occurs in `origWin`. */
  function SharedPositions(susp: seq<Word>, origWin: seq<Word>, i: nat, w: nat): (m: set<int>)
    requires i + w <= |susp|
    ensures forall k :: k in m <==> i <= k < i + w && susp[k] in origWin
  {
    set k | i <= k < i + w && susp[k] in origWin
  }

  /** The marked positions after the first `n` suspect windows (`matchedIndices`). */
  function MarkedBelow(orig: seq<Word>, susp: seq<Word>, w: nat, n: nat): (m: set<int>)
    requires w <= |orig| && n + w <= |susp| + 1
    ensures forall k :: k in m ==> 0 <= k < |susp|
  {
    if n == 0 then {} else MarkedBelow(orig, susp, w, n - 1) + MarkedBy(orig, susp, w, n - 1)
  }

  /** The record pushed for suspect window `i` when it is resolved. */
  function MatchOf(orig: seq<Word>, susp: seq<Word>, w: nat, i: nat): (m: Match)
    requires w <= |orig| && i + w <= |susp|
    requires Resolve(orig, susp, w, i).Found?
  {
    var text := WindowText(susp, i, w);
    var v := Resolve(orig, susp, w, i);
    Match(i, i + w - 1, text, v.source, v.kind, HashOf(text))
  }

  /** The matches after the first `n` suspect windows, in production order. */
  function MatchesBelow(orig: seq<Word>, susp: seq<Word>, w: nat, n: nat): seq<Match>
    requires w <= |orig| && n + w <= |susp| + 1
  {
    if n == 0 then []
    else
      MatchesBelow(orig, susp, w, n - 1) +
      (if Resolve(orig, susp, w, n - 1).Found? then [MatchOf(orig, susp, w, n - 1)] else [])
  }

  /** The trace step of suspect window `i`. */
  function StepOf(orig: seq<Word>, susp: seq<Word>, w: nat, i: nat): AlgorithmStep
    requires w <= |orig| && i + w <= |susp|
  {
    var text := WindowText(susp, i, w);
    var v := Resolve(orig, susp, w, i);
    var source := if v.Found? then WindowText(orig, v.source, w) else [];
    AlgorithmStep(i + 1, text, HashOf(text), v.Found?, if source == [] then None else Some(source))
  }

  /** The trace after the first `n` suspect windows: only the first `MaxSteps` are kept. */
  function StepsBelow(orig: seq<Word>, susp: seq<Word>, w: nat, n: nat): seq<AlgorithmStep>
    requires w <= |orig| && n + w <= |susp| + 1
  {
    if n == 0 then []
    else StepsBelow(orig, susp, w, n - 1) + (if n - 1 < MaxSteps then [StepOf(orig, susp, w, n - 1)] else [])
  }

  /** The position of the first match (in production order) whose [startIndex, endIndex] holds `idx`. */
  function FirstCovering(matches: seq<Match>, idx: int): (r: Option<nat>)
    ensures r.Some? ==> r.value < |matches| && matches[r.value].startIndex <= idx <= matches[r.value].endIndex
    ensures r.Some? ==> forall q :: 0 <= q < r.value ==> !(matches[q].startIndex <= idx <= matches[q].endIndex)
    ensures r.None? ==> forall q :: 0 <= q < |matches| ==> !(matches[q].startIndex <= idx <= matches[q].endIndex)
  {
    if matches == [] then None
    else if matches[0].startIndex <= idx <= matches[0].endIndex then Some(0)
    else match FirstCovering(matches[1..], idx)
      case None => None
      case Some(p) => Some(p + 1)
  }

  /** The segment of one suspect word, labelled by the first match that covers its position. */
  function SegmentAt(words: seq<Word>, matches: seq<Match>, idx: nat): ProcessedSegment
    requires idx < |words|
  {
    match FirstCovering(matches, idx)
    case Some(p) => ProcessedSegment(words[idx], Matched(matches[p].kind), Some(matches[p].sourceIndex))
    case None => ProcessedSegment(words[idx], Original, None)
  }

  /** `processedText`: one segment per suspect word, in word order. */
  function Annotate(words: seq<Word>, matches: seq<Match>): (r: seq<ProcessedSegment>)
    ensures |r| == |words|
    ensures forall k :: 0 <= k < |r| ==> r[k] == SegmentAt(words, matches, k)
  {
    seq(|words|, k requires 0 <= k < |words| => SegmentAt(words, matches, k))
  }

  /** The windowed analysis for an effective window size `w` of at least 2. */
  function Windowed(orig: seq<Word>, susp: seq<Word>, w: nat): AnalysisResult
    requires 2 <= w <= |orig| && w <= |susp|
  {
    var n := |susp| - w + 1;
    var matches := MatchesBelow(orig, susp, w, n);
    var marked := MarkedBelow(orig, susp, w, n);
    MarkedWithin(marked, |susp|);
    AnalysisResult(
      Percentage(|marked|, |susp|), |susp|, |marked|,
      matches, StepsBelow(orig, susp, w, n), Annotate(susp, matches))
  }

  /** The set of positions [lo, hi). */
  function Span(lo: int, hi: int): (s: set<int>)
    ensures |s| == if lo <= hi then hi - lo else 0
    ensures forall k :: k in s <==> lo <= k < hi
    decreases hi - lo
  {
    if hi <= lo then {}
    else
      var s := Span(lo, hi - 1) + {hi - 1};
      assert hi - 1 !in Span(lo, hi - 1);
      s
  }

  lemma MarkedWithin(marked: set<int>, n: nat)
    requires forall k :: k in marked ==> 0 <= k < n
    ensures |marked| <= n
  {
    var all := Span(0, n);
    assert all == marked + (all - marked);
    assert marked * (all - marked) == {};
  }

  /** `new Set(originalWords.map(w => w.toLowerCase()))`. */
  function SourceWordSet(orig: seq<Word>): set<JsString> {
    set w | w in orig :: LowerCase(w)
  }

  /** The fallback label of one suspect word: 'exact' when its lower-case form is a source word. */
  function FallbackSegment(sourceSet: set<JsString>, word: Word): ProcessedSegment {
    ProcessedSegment(word, if LowerCase(word) in sourceSet then Matched(Exact) else Original, None)
  }

  /** The fallback labels of a list of suspect words, in order. */
  function FallbackSegments(sourceSet: set<JsString>, words: seq<Word>): (r: seq<ProcessedSegment>)
    ensures |r| == |words|
    ensures forall k :: 0 <= k < |r| ==> r[k] == FallbackSegment(sourceSet, words[k])
  {
    if words == [] then []
    else FallbackSegments(sourceSet, words[..|words| - 1]) + [FallbackSegment(sourceSet, words[|words| - 1])]
  }

  /** How many suspect words (repeats counted) have their lower-case form in the set. */
  function CountMembers(words: seq<Word>, sourceSet: set<JsString>): (c: nat)
    ensures c <= |words|
  {
    if words == [] then 0
    else
      CountMembers(words[..|words| - 1], sourceSet) +
      (if LowerCase(words[|words| - 1]) in sourceSet then 1 else 0)
  }

  /** `singleWordMatch`. */
  function SingleWord(orig: seq<Word>, susp: seq<Word>): AnalysisResult {
    var sourceSet := SourceWordSet(orig);
    var count := CountMembers(susp, sourceSet);
    AnalysisResult(
      Percentage(count, |susp|), |susp|, count, [], [], FallbackSegments(sourceSet, susp))
  }

  /** Every word labelled 'original', with no source. */
  function AllOriginal(words: seq<Word>): (r: seq<ProcessedSegment>)
    ensures |r| == |words|
    ensures forall k :: 0 <= k < |r| ==> r[k] == ProcessedSegment(words[k], Original, None)
  {
    seq(|words|, k requires 0 <= k < |words| => ProcessedSegment(words[k], Original, None))
  }

  /** `detectPlagiarism` on the two word lists. */
  function Analyze(orig: seq<Word>, susp: seq<Word>, windowSize: int): AnalysisResult {
    if |susp| == 0 || |orig| == 0 then
      AnalysisResult(0, |susp|, 0, [], [], AllOriginal(susp))
    else
      var w := Min(windowSize, Min(|orig|, |susp|));
      if w < 2 then SingleWord(orig, susp) else Windowed(orig, susp, w)
  }
}
