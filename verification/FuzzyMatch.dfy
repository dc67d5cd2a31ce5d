// fuzzy_substring_score of scripts/deep_inspect.py: the best near-match of a
// suspicious stem inside a canonical name.
module FuzzyMatch {
  import opened EditDistance

  function Window(s: Text, i: int, size: int): Text
    requires 0 <= i && 0 <= size && i + size <= |s|
  {
    s[i..i + size]
  }

  function Trigrams(s: Text): set<Text> {
    if |s| < 3 then {s} else set i | 0 <= i < |s| - 2 :: Window(s, i, 3)
  }

  // trigram_similarity(s1, s2) > 0.3, as a comparison of whole numbers.
  predicate Similar(s1: Text, s2: Text) {
    10 * |Trigrams(s1) * Trigrams(s2)| > 3 * |Trigrams(s1) + Trigrams(s2)|
  }

  function Score(window: Text, stem: Text): nat {
    if !Similar(window, stem) then 0
    else
      var d := Distance(window, stem);
      if d == 0 then 100 else if d == 1 then 85 else if d == 2 && |stem| > 5 then 65 else 0
  }

  // The share of the trigrams of either text that both have.
  function Overlap(s1: Text, s2: Text): real
    requires Trigrams(s1) + Trigrams(s2) != {}
  {
    (|Trigrams(s1) * Trigrams(s2)| as real) / (|Trigrams(s1) + Trigrams(s2)| as real)
  }

  // Every three characters in a row, or the text itself when it is shorter.
  lemma TrigramsAre(s: Text, w: Text)
    ensures w in Trigrams(s) <==>
      if |s| < 3 then w == s else |w| == 3 && Occurs(s, w)
    ensures Trigrams(s) != {}
  {
    if |s| >= 3 {
      assert Window(s, 0, 3) in Trigrams(s);
    }
  }

  lemma SimilarIs(s1: Text, s2: Text)
    ensures Trigrams(s1) + Trigrams(s2) != {}
    ensures Similar(s1, s2) <==> Overlap(s1, s2) > 0.3
  {
    TrigramsAre(s1, s1);
    var common, all := |Trigrams(s1) * Trigrams(s2)| as real, |Trigrams(s1) + Trigrams(s2)| as real;
    assert all > 0.0 by { assert Trigrams(s1) + Trigrams(s2) != {}; }
    RatioExceeds(common, all);
  }

  lemma RatioExceeds(common: real, all: real)
    requires all > 0.0
    ensures common / all > 0.3 <==> 10.0 * common > 3.0 * all
  {
    var q := common / all;
    assert common == q * all;
    if q > 0.3 { assert (q - 0.3) * all > 0.0; } else { assert (0.3 - q) * all >= 0.0; }
  }

  // What a window scores: 100 as the stem itself; otherwise, if it shares more than
  // three tenths of the trigrams, 85 one edit away and 65 two edits away from a stem
  // of six characters or more; and 0 else.
  lemma ScoreMeans(window: Text, stem: Text)
    ensures Trigrams(window) + Trigrams(stem) != {}
    ensures Score(window, stem) == 100 <==> window == stem
    ensures Score(window, stem) == 85 <==> Overlap(window, stem) > 0.3 && Distance(window, stem) == 1
    ensures Score(window, stem) == 65 <==> Overlap(window, stem) > 0.3 && Distance(window, stem) == 2 && |stem| >= 6
    ensures Score(window, stem) in {0, 65, 85, 100}
  {
    SimilarIs(window, stem);
    DistanceBounds(window, stem);
    if window == stem { SimilarToItself(stem); }
  }

  // The windows of canon a stem is compared with: one shorter than the stem, as
  // long, or one longer, at least three characters, at position i.
  predicate IsWindow(canon: Text, stem: Text, size: int, i: int) {
    && |stem| - 1 <= size <= |stem| + 1 && size >= 3
    && 0 <= i && i + size <= |canon|
  }

  // No window of the first n stems scores more, and unless nothing scores, the
  // match is a window of the reported stem and has that score.
  ghost predicate Tops(canon: Text, stems: seq<Text>, n: nat, best: nat, bestMatch: Text, bestStem: Text)
    requires n <= |stems|
  {
    && (forall k {:trigger stems[k]} :: 0 <= k < n ==> TopsStem(canon, stems[k], |stems[k]| + 2, 0, best))
    && (best > 0 ==> bestStem in stems && Score(bestMatch, bestStem) == best && HasWindow(canon, bestStem, bestMatch))
  }

  ghost predicate Occurs(canon: Text, window: Text) {
    exists i :: 0 <= i && i + |window| <= |canon| && Window(canon, i, |window|) == window
  }

  // The window is one of those the stem is compared with.
  ghost predicate HasWindow(canon: Text, stem: Text, window: Text) {
    exists i :: IsWindow(canon, stem, |window|, i) && Window(canon, i, |window|) == window
  }

  ghost predicate AtMost(canon: Text, stem: Text, size: int, i: int, best: nat) {
    IsWindow(canon, stem, size, i) ==> Score(Window(canon, i, size), stem) <= best
  }

  // No window of one stem, up to size and position, scores more.
  ghost predicate TopsStem(canon: Text, stem: Text, size: int, at: int, best: nat) {
    forall w, i {:trigger AtMost(canon, stem, w, i, best)} :: w < size || (w == size && i < at) ==> AtMost(canon, stem, w, i, best)
  }

  lemma TopsStemMore(canon: Text, stem: Text, size: int, at: int, best: nat, more: nat)
    requires TopsStem(canon, stem, size, at, best) && best <= more
    ensures TopsStem(canon, stem, size, at, more)
  {
    forall w, i | w < size || (w == size && i < at) ensures AtMost(canon, stem, w, i, more) {
      assert AtMost(canon, stem, w, i, best);
    }
  }

  lemma TopsStemNext(canon: Text, stem: Text, size: int, best: nat)
    requires TopsStem(canon, stem, size, |canon| - size + 1, best) || size < 3 || size > |canon|
    requires TopsStem(canon, stem, size, 0, best)
    ensures TopsStem(canon, stem, size + 1, 0, best)
  {
    forall w, i | w < size + 1 || (w == size + 1 && i < 0) ensures AtMost(canon, stem, w, i, best) {
      assert w < size || (w == size && i < |canon| - size + 1) ==> AtMost(canon, stem, w, i, best);
    }
  }

  // The windows of one size.
  method ScanSize(canon: Text, stem: Text, size: nat, best: nat, bestMatch: Text, ghost stems: seq<Text>) returns (best': nat, bestMatch': Text)
    requires 3 <= size <= |canon| && |stem| - 1 <= size <= |stem| + 1 && stem in stems
    requires TopsStem(canon, stem, size, 0, best)
    ensures best <= best' && (best' == best ==> bestMatch' == bestMatch)
    ensures best' > best ==> Score(bestMatch', stem) == best' && HasWindow(canon, stem, bestMatch')
    ensures TopsStem(canon, stem, size, |canon| - size + 1, best')
  {
    hide Score, Similar;
    best', bestMatch' := best, bestMatch;
    for i := 0 to |canon| - size + 1
      invariant best <= best' && (best' == best ==> bestMatch' == bestMatch)
      invariant best' > best ==> Score(bestMatch', stem) == best' && HasWindow(canon, stem, bestMatch')
      invariant TopsStem(canon, stem, size, i, best')
    {
      var window := Window(canon, i, size);
      var score := Grade(window, stem);
      ghost var was := best';
      if score > best' {
        best', bestMatch' := score, window;
        assert IsWindow(canon, stem, |window|, i) && Window(canon, i, |window|) == window;
      }
      TopsStemMore(canon, stem, size, i, was, best');
      assert AtMost(canon, stem, size, i, best');
    }
  }

  // The trigram check before the edit distance.
  method Grade(window: Text, stem: Text) returns (score: nat)
    ensures score == Score(window, stem)
  {
    if !Similar(window, stem) {
      return 0;
    }
    var editDist := DamerauLevenshtein(window, stem);
    if editDist == 0 {
      score := 100;
    } else if editDist == 1 {
      score := 85;
    } else if editDist == 2 && |stem| > 5 {
      score := 65;
    } else {
      score := 0;
    }
  }

  // The three sizes of one stem.
  method ScanStem(canon: Text, stem: Text, best: nat, bestMatch: Text, ghost stems: seq<Text>) returns (best': nat, bestMatch': Text)
    requires stem in stems
    ensures best <= best' && (best' == best ==> bestMatch' == bestMatch)
    ensures best' > best ==> Score(bestMatch', stem) == best' && HasWindow(canon, stem, bestMatch')
    ensures TopsStem(canon, stem, |stem| + 2, 0, best')
  {
    hide Score, HasWindow;
    best', bestMatch' := best, bestMatch;
    for size := |stem| - 1 to |stem| + 2
      invariant best <= best' && (best' == best ==> bestMatch' == bestMatch)
      invariant best' > best ==> Score(bestMatch', stem) == best' && HasWindow(canon, stem, bestMatch')
      invariant TopsStem(canon, stem, size, 0, best')
    {
      if 3 <= size <= |canon| {
        ghost var was := best';
        best', bestMatch' := ScanSize(canon, stem, size, best', bestMatch', stems);
        TopsStemMore(canon, stem, size, 0, was, best');
      }
      TopsStemNext(canon, stem, size, best');
    }
  }

  method FuzzySubstringScore(canon: Text, stems: seq<Text>) returns (best: nat, bestMatch: Text, bestStem: Text)
    ensures Tops(canon, stems, |stems|, best, bestMatch, bestStem)
  {
    best, bestMatch, bestStem := 0, "", "";
    for k := 0 to |stems|
      invariant Tops(canon, stems, k, best, bestMatch, bestStem)
    {
      hide Score, HasWindow;
      ghost var was := best;
      var best', bestMatch' := ScanStem(canon, stems[k], best, bestMatch, stems);
      forall j | 0 <= j < k ensures TopsStem(canon, stems[j], |stems[j]| + 2, 0, best') {
        TopsStemMore(canon, stems[j], |stems[j]| + 2, 0, was, best');
      }
      if best' > best {
        bestStem := stems[k];
      }
      best, bestMatch := best', bestMatch';
    }
  }

  lemma SimilarToItself(s: Text)
    ensures Similar(s, s)
  {
    assert Trigrams(s) * Trigrams(s) == Trigrams(s) == Trigrams(s) + Trigrams(s);
    var t := if |s| < 3 then s else Window(s, 0, 3);
    assert t in Trigrams(s);
    assert |Trigrams(s)| > 0;
  }

  // A stem that occurs as it stands gets full marks.
  lemma OccurringScores(canon: Text, stem: Text, best: nat)
    requires TopsStem(canon, stem, |stem| + 2, 0, best) && Occurs(canon, stem) && |stem| >= 3
    ensures best >= 100
  {
    var i :| 0 <= i && i + |stem| <= |canon| && Window(canon, i, |stem|) == stem;
    SimilarToItself(stem);
    DistanceBounds(stem, stem);
    assert AtMost(canon, stem, |stem|, i, best);
  }

  // Full marks exactly when some stem occurs in the name as it stands, whatever
  // its near-matches.
  lemma FullMarksIffOccurs(canon: Text, stems: seq<Text>, best: nat, bestMatch: Text, bestStem: Text)
    requires Tops(canon, stems, |stems|, best, bestMatch, bestStem)
    requires forall k :: 0 <= k < |stems| ==> |stems[k]| >= 3
    ensures best == 100 <==> exists k :: 0 <= k < |stems| && Occurs(canon, stems[k])
  {
    DistanceBounds(bestMatch, bestStem);
    if best == 100 {
      var i :| IsWindow(canon, bestStem, |bestMatch|, i) && Window(canon, i, |bestMatch|) == bestMatch;
      assert bestMatch == bestStem && Occurs(canon, bestStem);
    }
    if k :| 0 <= k < |stems| && Occurs(canon, stems[k]) {
      OccurringScores(canon, stems[k], best);
    }
  }
}
