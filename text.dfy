/**
  Text normalisation and tokenisation (`normalizeText`, `extractWords`).

  A JavaScript string is a sequence of UTF-16 code units. Normalisation is
  `toLowerCase()`, then `replace(/[^\w\s]/g, '')`, then `replace(/\s+/g, ' ')`,
  then `trim()`; tokenisation splits the normalised text on single spaces and
  drops the empty pieces.
 */
module Text {

  /** A UTF-16 code unit, the element of a JavaScript string. */
  type CodeUnit = c: int | 0 <= c < 0x1_0000

  type JsString = seq<CodeUnit>

  /** A token produced by `ExtractWords`. */
  type Word = JsString

  /** U+0020, the separator of `split(' ')`, `join(' ')` and the collapsed whitespace. */
  const Space: CodeUnit := 0x20

  /** `\w` of a regular expression without the `u` flag: [A-Za-z0-9_]. */
  predicate IsWordChar(c: CodeUnit) {
    (0x30 <= c <= 0x39) || (0x41 <= c <= 0x5A) || c == 0x5F || (0x61 <= c <= 0x7A)
  }

  /** `\s`, which is also what `trim()` removes: the WhiteSpace and LineTerminator code points. */
  predicate IsSpace(c: CodeUnit) {
    (0x09 <= c <= 0x0D) || c == 0x20 || c == 0xA0 || c == 0x1680 ||
    (0x2000 <= c <= 0x200A) || c == 0x2028 || c == 0x2029 || c == 0x202F ||
    c == 0x205F || c == 0x3000 || c == 0xFEFF
  }

  /** An ASCII upper-case letter. */
  predicate IsUpper(c: CodeUnit) {
    0x41 <= c <= 0x5A
  }

  /** A code unit that can appear in a normalised word: [a-z0-9_]. */
  predicate IsTokenChar(c: CodeUnit) {
    IsWordChar(c) && !IsUpper(c)
  }

  /** The shape of every token `ExtractWords` returns: non-empty, [a-z0-9_] only. */
  predicate IsToken(w: JsString) {
    w != [] && forall c :: c in w ==> IsTokenChar(c)
  }

  /**
    `toLowerCase` of one code unit. Besides A-Z, U+0130 and U+212A are the
    code units whose lower-case form contains a word character or whitespace;
    every other code unit is kept as it is.
   */
  function Lower(c: CodeUnit): (r: JsString)
    ensures r != []
    ensures forall d :: d in r ==> !IsUpper(d)
    ensures IsSpace(c) || IsTokenChar(c) ==> r == [c]
  {
    if IsUpper(c) then [c + 0x20]
    else if c == 0x130 then [0x69, 0x307]
    else if c == 0x212A then [0x6B]
    else [c]
  }

  /** `toLowerCase()`. */
  function LowerCase(s: JsString): (r: JsString)
    ensures forall c :: c in r ==> !IsUpper(c)
    ensures |r| >= |s|
  {
    if s == [] then [] else Lower(s[0]) + LowerCase(s[1..])
  }

  /** On text that holds only token characters and whitespace, `toLowerCase()` changes nothing. */
  lemma {:induction false} LowerCaseOfToken(s: JsString)
    requires forall c :: c in s ==> IsSpace(c) || IsTokenChar(c)
    ensures LowerCase(s) == s
  {
    if s != [] {
      assert s[0] in s;
      assert forall c :: c in s[1..] ==> c in s;
      LowerCaseOfToken(s[1..]);
      assert s == [s[0]] + s[1..];
    }
  }

  /** `toLowerCase()` works code unit by code unit: it distributes over concatenation. */
  lemma {:induction false} LowerCaseAppend(a: JsString, b: JsString)
    ensures LowerCase(a + b) == LowerCase(a) + LowerCase(b)
  {
    if a == [] {
      assert a + b == b;
    } else {
      assert (a + b)[0] == a[0] && (a + b)[1..] == a[1..] + b;
      LowerCaseAppend(a[1..], b);
    }
  }

  /** `replace(/[^\w\s]/g, '')`: keep word characters and whitespace, in order. */
  function StripNonWord(s: JsString): (r: JsString)
    ensures forall c :: c in r ==> c in s && (IsWordChar(c) || IsSpace(c))
    ensures |r| <= |s|
  {
    if s == [] then []
    else if IsWordChar(s[0]) || IsSpace(s[0]) then
      assert forall c :: c in s[1..] ==> c in s;
      [s[0]] + StripNonWord(s[1..])
    else
      assert forall c :: c in s[1..] ==> c in s;
      StripNonWord(s[1..])
  }

  /** Text made only of word characters and whitespace is left as it is. */
  lemma {:induction false} StripNonWordOfClean(s: JsString)
    requires forall c :: c in s ==> IsWordChar(c) || IsSpace(c)
    ensures StripNonWord(s) == s
  {
    if s != [] {
      assert s[0] in s;
      assert forall c :: c in s[1..] ==> c in s;
      StripNonWordOfClean(s[1..]);
    }
  }

  /** Stripping keeps every word character and whitespace code unit as often as it occurs, and no other. */
  lemma {:induction false} StripNonWordCounts(s: JsString)
    ensures forall c :: multiset(StripNonWord(s))[c] == if IsWordChar(c) || IsSpace(c) then multiset(s)[c] else 0
  {
    if s != [] {
      StripNonWordCounts(s[1..]);
      assert s == [s[0]] + s[1..];
      assert multiset(s) == multiset([s[0]]) + multiset(s[1..]);
      if IsWordChar(s[0]) || IsSpace(s[0]) {
        assert StripNonWord(s) == [s[0]] + StripNonWord(s[1..]);
        assert multiset(StripNonWord(s)) == multiset([s[0]]) + multiset(StripNonWord(s[1..]));
      } else {
        assert StripNonWord(s) == StripNonWord(s[1..]);
      }
    }
  }

  /** Stripping works code unit by code unit: it distributes over concatenation, so order is kept. */
  lemma {:induction false} StripNonWordAppend(a: JsString, b: JsString)
    ensures StripNonWord(a + b) == StripNonWord(a) + StripNonWord(b)
  {
    if a == [] {
      assert a + b == b;
    } else {
      var x, t := a[0], a[1..];
      assert a == [x] + t;
      assert a + b == [x] + (t + b);
      var p := if IsWordChar(x) || IsSpace(x) then [x] else [];
      calc {
        StripNonWord(a + b);
        { StripCons(x, t + b); }
        p + StripNonWord(t + b);
        { StripNonWordAppend(t, b); }
        p + (StripNonWord(t) + StripNonWord(b));
        (p + StripNonWord(t)) + StripNonWord(b);
        { StripCons(x, t); }
        StripNonWord(a) + StripNonWord(b);
      }
    }
  }

  lemma StripCons(x: CodeUnit, t: JsString)
    ensures StripNonWord([x] + t) == (if IsWordChar(x) || IsSpace(x) then [x] else []) + StripNonWord(t)
  {
    assert ([x] + t)[0] == x && ([x] + t)[1..] == t;
  }

  /** The code units of `s` that are not whitespace, in order. */
  function NonSpace(s: JsString): JsString {
    if s == [] then []
    else if IsSpace(s[0]) then NonSpace(s[1..])
    else [s[0]] + NonSpace(s[1..])
  }

  /** No two adjacent code units are both whitespace. */
  predicate SingleSpaced(s: JsString) {
    forall k :: 0 <= k < |s| - 1 ==> !(IsSpace(s[k]) && IsSpace(s[k + 1]))
  }

  /**
    The words of a text: its maximal runs of non-whitespace code units, in
    order. Each code unit either extends the word that the next code unit
    starts, or ends a word of its own.
   */
  function Words(s: JsString): (r: seq<JsString>)
    ensures forall w :: w in r ==> w != [] && forall c :: c in w ==> !IsSpace(c)
    ensures s != [] && !IsSpace(s[0]) ==> |r| >= 1
  {
    if s == [] then []
    else
      var rest := Words(s[1..]);
      if IsSpace(s[0]) then rest
      else if |s| > 1 && !IsSpace(s[1]) then
        assert rest[0] in rest;
        assert forall w :: w in rest[1..] ==> w in rest;
        [[s[0]] + rest[0]] + rest[1..]
      else [[s[0]]] + rest
  }

  /** Leading whitespace separates no words. */
  lemma {:induction false} WordsSkipSpaces(s: JsString)
    ensures Words(SkipSpaces(s)) == Words(s)
  {
    if s != [] && IsSpace(s[0]) {
      WordsSkipSpaces(s[1..]);
    }
  }

  /** Trailing whitespace separates no words. */
  lemma {:induction false} WordsAppendSpace(s: JsString, c: CodeUnit)
    requires IsSpace(c)
    ensures Words(s + [c]) == Words(s)
  {
    if s == [] {
      assert [c][1..] == [];
    } else {
      assert (s + [c])[0] == s[0] && (s + [c])[1..] == s[1..] + [c];
      WordsAppendSpace(s[1..], c);
      if |s| > 1 {
        assert (s + [c])[1] == s[1];
      }
    }
  }

  lemma {:induction false} WordsTrimEnd(s: JsString)
    ensures Words(TrimEnd(s)) == Words(s)
    decreases |s|
  {
    if s != [] && IsSpace(s[|s| - 1]) {
      WordsTrimEnd(s[..|s| - 1]);
      WordsAppendSpace(s[..|s| - 1], s[|s| - 1]);
      assert s[..|s| - 1] + [s[|s| - 1]] == s;
    }
  }

  /** `trim()` keeps the words of the text. */
  lemma WordsTrim(s: JsString)
    ensures Words(Trim(s)) == Words(s)
  {
    WordsSkipSpaces(s);
    WordsTrimEnd(SkipSpaces(s));
  }

  /** Collapsing whitespace keeps the words of the text: no word is split or merged. */
  lemma {:induction false} WordsCollapse(s: JsString)
    ensures Words(CollapseWhitespace(s)) == Words(s)
    decreases |s|
  {
    if s != [] {
      if IsSpace(s[0]) {
        var t := SkipSpaces(s);
        assert t == SkipSpaces(s[1..]);
        WordsCollapse(t);
        WordsSkipSpaces(s);
        var c := CollapseWhitespace(t);
        assert CollapseWhitespace(s) == [Space] + c;
        assert ([Space] + c)[1..] == c;
      } else {
        var c := CollapseWhitespace(s[1..]);
        WordsCollapse(s[1..]);
        assert CollapseWhitespace(s) == [s[0]] + c;
        assert ([s[0]] + c)[1..] == c;
      }
    }
  }

  /** Drop the leading run of whitespace (this is also `trimStart`). */
  function SkipSpaces(s: JsString): (r: JsString)
    ensures |r| <= |s| && r == s[|s| - |r|..]
    ensures forall k :: 0 <= k < |s| - |r| ==> IsSpace(s[k])
    ensures r == [] || !IsSpace(r[0])
    ensures NonSpace(r) == NonSpace(s)
  {
    if s != [] && IsSpace(s[0]) then
      var r := SkipSpaces(s[1..]);
      assert s[1..][|s| - 1 - |r|..] == s[|s| - |r|..];
      assert forall k :: 1 <= k < |s| - |r| ==> s[k] == s[1..][k - 1];
      assert NonSpace(s) == NonSpace(s[1..]);
      r
    else s
  }

  /** Drop the trailing run of whitespace (`trimEnd`). */
  function TrimEnd(s: JsString): (r: JsString)
    ensures |r| <= |s| && r == s[..|r|]
    ensures forall k :: |r| <= k < |s| ==> IsSpace(s[k])
    ensures r == [] || !IsSpace(r[|r| - 1])
    ensures NonSpace(r) == NonSpace(s)
  {
    if s != [] && IsSpace(s[|s| - 1]) then
      var r := TrimEnd(s[..|s| - 1]);
      NonSpaceDropLast(s);
      r
    else s
  }

  lemma {:induction false} NonSpaceDropLast(s: JsString)
    requires s != [] && IsSpace(s[|s| - 1])
    ensures NonSpace(s[..|s| - 1]) == NonSpace(s)
  {
    if |s| > 1 {
      NonSpaceDropLast(s[1..]);
      assert s[1..][..|s[1..]| - 1] == s[..|s| - 1][1..];
    }
  }

  /** `replace(/\s+/g, ' ')`: every maximal run of whitespace becomes one U+0020. */
  function CollapseWhitespace(s: JsString): (r: JsString)
    ensures forall c :: c in r ==> c == Space || (c in s && !IsSpace(c))
    ensures SingleSpaced(r)
    ensures (r != [] && IsSpace(r[0])) <==> (s != [] && IsSpace(s[0]))
    ensures r == [] <==> s == []
    ensures NonSpace(r) == NonSpace(s)
    decreases |s|
  {
    if s == [] then []
    else if IsSpace(s[0]) then
      var t := SkipSpaces(s);
      assert forall c :: c in t ==> c in s;
      [Space] + CollapseWhitespace(t)
    else
      assert forall c :: c in s[1..] ==> c in s;
      [s[0]] + CollapseWhitespace(s[1..])
  }

  /** The collapsed text ends in whitespace exactly when the text does. */
  lemma {:induction false} CollapseTrailing(s: JsString)
    ensures var r := CollapseWhitespace(s);
      (r != [] && IsSpace(r[|r| - 1])) <==> (s != [] && IsSpace(s[|s| - 1]))
    decreases |s|
  {
    if s != [] {
      if IsSpace(s[0]) {
        var t := SkipSpaces(s);
        var c := CollapseWhitespace(t);
        assert CollapseWhitespace(s) == [Space] + c;
        if t == [] {
          assert IsSpace(s[|s| - 1]);
        } else {
          CollapseTrailing(t);
          assert s[|s| - 1] == t[|t| - 1];
        }
      } else {
        var t := s[1..];
        var c := CollapseWhitespace(t);
        assert CollapseWhitespace(s) == [s[0]] + c;
        if t != [] {
          CollapseTrailing(t);
          assert s[|s| - 1] == t[|t| - 1];
        }
      }
    }
  }

  /** `trim()`: the contiguous middle of the text, with only whitespace removed at either end. */
  function Trim(s: JsString): (r: JsString)
    ensures forall c :: c in r ==> c in s
    ensures r == [] || (!IsSpace(r[0]) && !IsSpace(r[|r| - 1]))
    ensures SingleSpaced(s) ==> SingleSpaced(r)
    ensures NonSpace(r) == NonSpace(s)
  {
    var t := SkipSpaces(s);
    var r := TrimEnd(t);
    var a := |s| - |t|;
    SliceKeepsShape(s, a, a + |r|);
    r
  }

  /** `trim()` returns a contiguous slice of the text with only whitespace outside it. */
  lemma TrimIsSlice(s: JsString)
    ensures exists a :: TrimmedAt(s, Trim(s), a)
  {
    var t := SkipSpaces(s);
    var r := TrimEnd(t);
    var a := |s| - |t|;
    assert r == Trim(s);
    assert r == s[a..a + |r|];
    assert forall k :: a + |r| <= k < |s| ==> s[k] == t[k - a];
    assert TrimmedAt(s, r, a);
  }

  /** `r` is the slice of `s` from `a` on, and only whitespace of `s` lies outside it. */
  predicate TrimmedAt(s: JsString, r: JsString, a: int) {
    && 0 <= a <= |s| - |r|
    && r == s[a..a + |r|]
    && (forall k :: 0 <= k < a ==> IsSpace(s[k]))
    && (forall k :: a + |r| <= k < |s| ==> IsSpace(s[k]))
  }

  lemma SliceKeepsShape(s: JsString, a: nat, b: nat)
    requires a <= b <= |s|
    ensures forall c :: c in s[a..b] ==> c in s
    ensures SingleSpaced(s) ==> SingleSpaced(s[a..b])
  {
    assert forall k :: 0 <= k < b - a ==> s[a..b][k] == s[a + k];
  }

  /**
    The shape of a normalised text: only [a-z0-9_] and U+0020, no space at
    either end, and no two spaces in a row.
   */
  predicate IsNormalized(s: JsString) {
    && (forall c :: c in s ==> c == Space || IsTokenChar(c))
    && (s == [] || (s[0] != Space && s[|s| - 1] != Space))
    && (forall k :: 0 <= k < |s| - 1 ==> !(s[k] == Space && s[k + 1] == Space))
  }

  /**
    `normalizeText`: the words of the lower-cased, stripped text, joined by
    single spaces.
   */
  function NormalizeText(text: JsString): (r: JsString)
    ensures IsNormalized(r)
    ensures NonSpace(r) == NonSpace(StripNonWord(LowerCase(text)))
    ensures Words(r) == Words(StripNonWord(LowerCase(text)))
    ensures r == Join(Words(StripNonWord(LowerCase(text))))
  {
    var lowered := LowerCase(text);
    var stripped := StripNonWord(lowered);
    var collapsed := CollapseWhitespace(stripped);
    var r := Trim(collapsed);
    NormalizedShape(stripped, collapsed, r);
    WordsCollapse(stripped);
    WordsTrim(collapsed);
    SplitWords(r);
    JoinTokensOfNormalized(r);
    r
  }

  lemma NormalizedShape(stripped: JsString, collapsed: JsString, r: JsString)
    requires forall c :: c in stripped ==> !IsUpper(c) && (IsWordChar(c) || IsSpace(c))
    requires forall c :: c in collapsed ==> c == Space || (c in stripped && !IsSpace(c))
    requires forall c :: c in r ==> c in collapsed
    requires r == [] || (!IsSpace(r[0]) && !IsSpace(r[|r| - 1]))
    requires SingleSpaced(r)
    ensures IsNormalized(r)
  {
  }

  /** `join(' ')`. */
  function Join(ws: seq<JsString>): JsString {
    if |ws| == 0 then []
    else if |ws| == 1 then ws[0]
    else ws[0] + [Space] + Join(ws[1..])
  }

  /** `split(' ')`: the pieces between the spaces; the empty string gives one empty piece. */
  function Split(s: JsString): (r: seq<JsString>)
    ensures |r| >= 1
  {
    if s == [] then [[]]
    else
      var rest := Split(s[1..]);
      if s[0] == Space then [[]] + rest
      else [[s[0]] + rest[0]] + rest[1..]
  }

  /** Every piece of a split is space-free and made of code units of the text. */
  lemma {:induction false} SplitPieces(s: JsString)
    ensures forall w, c :: w in Split(s) && c in w ==> c in s && c != Space
  {
    if s != [] {
      var rest := Split(s[1..]);
      SplitPieces(s[1..]);
      assert forall c :: c in s[1..] ==> c in s;
      if s[0] != Space {
        assert forall w :: w in rest[1..] ==> w in rest;
        assert forall c :: c in [s[0]] + rest[0] ==> c == s[0] || c in rest[0];
      }
    }
  }

  /** Joining the pieces of a split gives back the text. */
  lemma {:induction false} JoinSplit(s: JsString)
    ensures Join(Split(s)) == s
  {
    if s != [] {
      var rest := Split(s[1..]);
      JoinSplit(s[1..]);
      if s[0] == Space {
        assert Split(s) == [[]] + rest;
        assert Join(Split(s)) == [] + [Space] + Join(rest);
      } else {
        assert Split(s) == [[s[0]] + rest[0]] + rest[1..];
        if |rest| == 1 {
          assert Join(Split(s)) == [s[0]] + rest[0];
        } else {
          assert Join(rest) == rest[0] + [Space] + Join(rest[1..]);
          assert Join(Split(s)) == [s[0]] + rest[0] + [Space] + Join(rest[1..]);
        }
      }
      assert s == [s[0]] + s[1..];
    }
  }

  lemma {:induction false} SplitAfterWord(w: JsString, t: JsString)
    requires Space !in w
    ensures Split(w + t) == [w + Split(t)[0]] + Split(t)[1..]
  {
    if w != [] {
      assert (w + t)[1..] == w[1..] + t;
      assert w[0] in w;
      assert forall c :: c in w[1..] ==> c in w;
      SplitAfterWord(w[1..], t);
      var rest := Split(w[1..] + t);
      assert Split(w + t) == [[w[0]] + rest[0]] + rest[1..];
      assert w == [w[0]] + w[1..];
      assert [w[0]] + (w[1..] + Split(t)[0]) == ([w[0]] + w[1..]) + Split(t)[0];
    } else {
      assert w + t == t && w + Split(t)[0] == Split(t)[0];
      assert Split(t) == [Split(t)[0]] + Split(t)[1..];
    }
  }

  /** Splitting the joined text of space-free words gives back the words. */
  lemma {:induction false} SplitJoin(ws: seq<JsString>)
    requires |ws| >= 1
    requires forall w :: w in ws ==> Space !in w
    ensures Split(Join(ws)) == ws
  {
    if |ws| == 1 {
      SplitAfterWord(ws[0], []);
      assert ws[0] + [] == ws[0];
    } else {
      assert forall w :: w in ws[1..] ==> w in ws;
      SplitJoin(ws[1..]);
      var t := [Space] + Join(ws[1..]);
      assert Join(ws) == ws[0] + t;
      SplitAfterWord(ws[0], t);
      assert t[1..] == Join(ws[1..]);
      assert Split(t) == [[]] + ws[1..];
      assert ws[0] + [] == ws[0];
      assert ws == [ws[0]] + ws[1..];
    }
  }

  /** Join is one-to-one on non-empty lists of space-free words. */
  lemma JoinInjective(a: seq<JsString>, b: seq<JsString>)
    requires |a| >= 1 && |b| >= 1
    requires forall w :: w in a ==> Space !in w
    requires forall w :: w in b ==> Space !in w
    requires Join(a) == Join(b)
    ensures a == b
  {
    SplitJoin(a);
    SplitJoin(b);
  }

  /** `filter(word => word.length > 0)`. */
  function NonEmptyWords(ws: seq<JsString>): (r: seq<JsString>)
    ensures forall w :: w in r ==> w in ws && w != []
    ensures (forall w :: w in ws ==> w != []) ==> r == ws
  {
    if ws == [] then []
    else
      assert forall w :: w in ws[1..] ==> w in ws;
      if ws[0] != [] then [ws[0]] + NonEmptyWords(ws[1..])
      else
        assert ws[0] in ws;
        NonEmptyWords(ws[1..])
  }

  /** Filtering keeps every non-empty word. */
  lemma {:induction false} NonEmptyWordsKeeps(ws: seq<JsString>)
    ensures forall w :: w in ws && w != [] ==> w in NonEmptyWords(ws)
  {
    if ws != [] {
      NonEmptyWordsKeeps(ws[1..]);
      assert forall w :: w in ws ==> w == ws[0] || w in ws[1..];
    }
  }

  /** Filtering works word by word: it distributes over concatenation, so order and repeats are kept. */
  lemma {:induction false} NonEmptyWordsAppend(a: seq<JsString>, b: seq<JsString>)
    ensures NonEmptyWords(a + b) == NonEmptyWords(a) + NonEmptyWords(b)
  {
    if a == [] {
      assert a + b == b;
    } else {
      assert (a + b)[0] == a[0] && (a + b)[1..] == a[1..] + b;
      NonEmptyWordsAppend(a[1..], b);
    }
  }

  /**
    `extractWords`: the words of the lower-cased, stripped text; every token
    is non-empty and made of [a-z0-9_] only.
   */
  function ExtractWords(text: JsString): (r: seq<Word>)
    ensures forall w :: w in r ==> IsToken(w)
    ensures r == Words(StripNonWord(LowerCase(text)))
  {
    var n := NormalizeText(text);
    SplitPieces(n);
    SplitWords(n);
    NonEmptyWords(Split(n))
  }

  /** On text whose only whitespace is U+0020, the non-empty pieces of `split(' ')` are its words. */
  lemma {:induction false} SplitWords(x: JsString)
    requires forall c :: c in x ==> (IsSpace(c) <==> c == Space)
    ensures NonEmptyWords(Split(x)) == Words(x)
  {
    if x != [] {
      var u := x[1..];
      var rest := Split(u);
      assert x[0] in x;
      assert forall c :: c in u ==> c in x;
      SplitWords(u);
      if x[0] == Space {
        assert Split(x) == [[]] + rest;
        assert ([[]] + rest)[1..] == rest;
      } else {
        var a := [x[0]] + rest[0];
        assert Split(x) == [a] + rest[1..];
        assert ([a] + rest[1..])[1..] == rest[1..];
        assert rest == [rest[0]] + rest[1..];
        if |x| > 1 && x[1] != Space {
          assert x[1] in x;
          assert rest == [[u[0]] + Split(u[1..])[0]] + Split(u[1..])[1..];
        } else if |x| > 1 {
          assert x[1] in x;
          assert rest == [[]] + Split(u[1..]);
          assert a == [x[0]];
          assert NonEmptyWords(rest) == NonEmptyWords(rest[1..]);
        } else {
          assert rest == [[]] && a == [x[0]];
        }
      }
    }
  }

  /** Every piece of a split normalised non-empty text is non-empty. */
  lemma {:induction false} SplitNormalizedNonEmpty(s: JsString)
    requires s != [] && s[0] != Space && s[|s| - 1] != Space
    requires forall k :: 0 <= k < |s| - 1 ==> !(s[k] == Space && s[k + 1] == Space)
    ensures forall w :: w in Split(s) ==> w != []
    decreases |s|
  {
    var rest := Split(s[1..]);
    assert Split(s) == [[s[0]] + rest[0]] + rest[1..];
    if |s| > 1 {
      var u := s[1..];
      if u[0] == Space {
        var t := u[1..];
        assert |s| > 2 && t == s[2..];
        assert s[2] != Space;
        assert rest == [[]] + Split(t);
        SplitNormalizedNonEmpty(t);
        assert rest[1..] == Split(t);
      } else {
        SplitNormalizedNonEmpty(u);
        assert forall w :: w in rest[1..] ==> w in rest;
      }
    }
  }

  /** The tokens, joined by single spaces, are exactly the normalised text. */
  lemma JoinExtractWords(text: JsString)
    ensures Join(ExtractWords(text)) == NormalizeText(text)
  {
    JoinTokensOfNormalized(NormalizeText(text));
  }

  lemma JoinTokensOfNormalized(n: JsString)
    requires IsNormalized(n)
    ensures Join(NonEmptyWords(Split(n))) == n
  {
    if n == [] {
      assert Split(n) == [[]];
    } else {
      SplitNormalizedNonEmpty(n);
      JoinSplit(n);
    }
  }
}
