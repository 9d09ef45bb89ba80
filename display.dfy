/** The presentation step of the sorting script: from the ranked keyphrases it shows the first
    five whose `split(' ')` has two to four parts, warns when there are fewer than five, and
    weights the shown phrases by score relative to the highest score for the tag cloud. */
module Display {
  import opened Ranking

  /** How many phrases are shown (`top_n`). */
  const TopN: nat := 5

  // ---------------------------------------------------------------------------------------
  // Counting the parts of a phrase

  /** `s.split(' ')` where `cur` is the part of the current piece already read. */
  function SplitSpaceFrom(s: string, cur: string): (parts: seq<string>)
    ensures parts != []
  {
    if s == [] then [cur]
    else if s[0] == ' ' then [cur] + SplitSpaceFrom(s[1..], [])
    else SplitSpaceFrom(s[1..], cur + [s[0]])
  }

  /** Python's `s.split(' ')`: the pieces between single spaces, so that two spaces in a row
      give an empty piece and the empty string gives one empty piece. */
  function SplitOnSpace(s: string): seq<string> {
    SplitSpaceFrom(s, [])
  }

  /** `' '.join(parts)`. */
  function JoinSpace(parts: seq<string>): string
    requires parts != []
  {
    if |parts| == 1 then parts[0] else parts[0] + [' '] + JoinSpace(parts[1..])
  }

  /** The number of spaces in `s`. */
  function CountSpaces(s: string): nat {
    if s == [] then 0 else (if s[0] == ' ' then 1 else 0) + CountSpaces(s[1..])
  }

  /** Joining the pieces with single spaces gives back the string. */
  lemma {:induction false} JoinSplitSpaceFrom(s: string, cur: string)
    ensures JoinSpace(SplitSpaceFrom(s, cur)) == cur + s
  {
    if s == [] {
      assert cur + s == cur;
    } else if s[0] == ' ' {
      var rest := SplitSpaceFrom(s[1..], []);
      JoinSplitSpaceFrom(s[1..], []);
      assert ([cur] + rest)[0] == cur && ([cur] + rest)[1..] == rest;
      assert [] + s[1..] == s[1..];
      assert cur + [' '] + s[1..] == cur + s;
    } else {
      JoinSplitSpaceFrom(s[1..], cur + [s[0]]);
      assert cur + [s[0]] + s[1..] == cur + s;
    }
  }

  /** There is one more piece than there are spaces, and no piece holds a space. */
  lemma {:induction false} SplitSpaceFromParts(s: string, cur: string)
    requires ' ' !in cur
    ensures |SplitSpaceFrom(s, cur)| == CountSpaces(s) + 1
    ensures forall i :: 0 <= i < |SplitSpaceFrom(s, cur)| ==> ' ' !in SplitSpaceFrom(s, cur)[i]
  {
    if s == [] {
    } else if s[0] == ' ' {
      SplitSpaceFromParts(s[1..], []);
      var rest := SplitSpaceFrom(s[1..], []);
      assert forall i :: 1 <= i < |[cur] + rest| ==> ([cur] + rest)[i] == rest[i - 1];
    } else {
      SplitSpaceFromParts(s[1..], cur + [s[0]]);
    }
  }

  /** `s.split(' ')` is undone by `' '.join`, its pieces hold no space, and it has one piece more
      than `s` has spaces. */
  lemma SplitOnSpaceSpec(s: string)
    ensures JoinSpace(SplitOnSpace(s)) == s
    ensures |SplitOnSpace(s)| == CountSpaces(s) + 1
    ensures forall i :: 0 <= i < |SplitOnSpace(s)| ==> ' ' !in SplitOnSpace(s)[i]
  {
    JoinSplitSpaceFrom(s, []);
    SplitSpaceFromParts(s, []);
  }

  // ---------------------------------------------------------------------------------------
  // Selecting the phrases to show

  /** A phrase is shown when `split(' ')` gives between two and four parts. */
  predicate Displayable(phrase: string) {
    2 <= |SplitOnSpace(phrase)| <= 4
  }

  /** The displayable entries of `s`, in order. */
  function Qualifying(s: seq<Ranked>): (q: seq<Ranked>)
    ensures |q| <= |s|
  {
    if s == [] then []
    else Qualifying(s[..|s| - 1]) + (if Displayable(s[|s| - 1].phrase) then [s[|s| - 1]] else [])
  }

  /** The selection holds displayable entries of `s` only, and every displayable one. */
  lemma {:induction false} QualifyingSpec(s: seq<Ranked>)
    ensures forall i :: 0 <= i < |Qualifying(s)| ==> Displayable(Qualifying(s)[i].phrase) && Qualifying(s)[i] in s
    ensures forall i :: 0 <= i < |s| && Displayable(s[i].phrase) ==> s[i] in Qualifying(s)
  {
    if s != [] {
      var init := s[..|s| - 1];
      QualifyingSpec(init);
      assert forall i :: 0 <= i < |init| ==> init[i] == s[i];
      assert forall x :: x in init ==> x in s;
    }
  }

  lemma {:induction false} QualifyingAppend(a: seq<Ranked>, b: seq<Ranked>)
    ensures Qualifying(a + b) == Qualifying(a) + Qualifying(b)
    decreases |b|
  {
    if b == [] {
      assert a + b == a;
    } else {
      var b' := b[..|b| - 1];
      assert (a + b)[..|a + b| - 1] == a + b';
      assert (a + b)[|a + b| - 1] == b[|b| - 1];
      QualifyingAppend(a, b');
    }
  }

  /** The entries shown: the first `min(5, n)` of the `n` displayable entries of `top`. */
  function Shown(top: seq<Ranked>): seq<Ranked> {
    var q := Qualifying(top);
    q[..Min(TopN, |q|)]
  }

  /** One more entry extends the selection by that entry when it is displayable. */
  lemma QualifyingStep(s: seq<Ranked>, i: int)
    requires 0 <= i < |s|
    ensures Qualifying(s[..i + 1]) == Qualifying(s[..i]) + (if Displayable(s[i].phrase) then [s[i]] else [])
  {
    assert s[..i + 1][..i] == s[..i];
  }

  /** Once five displayable entries are found among the first `i`, they are the ones shown. */
  lemma ShownOnceFull(s: seq<Ranked>, i: int)
    requires 0 <= i <= |s| && |Qualifying(s[..i])| == TopN
    ensures Shown(s) == Qualifying(s[..i]) && |Qualifying(s)| >= TopN
  {
    QualifyingAppend(s[..i], s[i..]);
    assert s[..i] + s[i..] == s;
  }

  /** The loop of the sorting script's `main`: walk over the ranked phrases, skip those with
      fewer than two or more than four parts, stop once five are taken, and warn when fewer
      than five were taken. */
  method SelectForDisplay(top: seq<Ranked>) returns (selected: seq<Ranked>, warn: bool)
    ensures selected == Shown(top)
    ensures |selected| <= TopN
    ensures forall i :: 0 <= i < |selected| ==> Displayable(selected[i].phrase)
    ensures warn <==> |Qualifying(top)| < TopN
  {
    selected := [];
    var printCount := 0;
    var i := 0;
    while i < |top|
      invariant 0 <= i <= |top|
      invariant selected == Qualifying(top[..i])
      invariant printCount == |selected| <= TopN
    {
      if printCount == TopN {
        ShownOnceFull(top, i);
        break;
      }
      QualifyingStep(top, i);
      var parts := SplitOnSpace(top[i].phrase);
      if |parts| < 2 || |parts| > 4 {
        i := i + 1;
        continue;
      }
      selected := selected + [top[i]];
      printCount := printCount + 1;
      i := i + 1;
    }
    assert i == |top| ==> top[..i] == top;
    warn := printCount != TopN;
    QualifyingSpec(top);
  }

  // ---------------------------------------------------------------------------------------
  // Tag-cloud weights

  /** `max(score for score, phrase in s)`. */
  function MaxScore(s: seq<Ranked>): (m: real)
    requires s != []
    ensures forall i :: 0 <= i < |s| ==> s[i].score <= m
    ensures exists i :: 0 <= i < |s| && s[i].score == m
  {
    if |s| == 1 then s[0].score
    else
      var rest := MaxScore(s[1..]);
      assert forall i :: 1 <= i < |s| ==> s[i] == s[1..][i - 1];
      if s[0].score >= rest then s[0].score else rest
  }

  /** The divisor of `create_worldcloud`: the highest score, or 1.0 for an empty list. */
  function NormalizationBase(s: seq<Ranked>): real {
    if s != [] then MaxScore(s) else 1.0
  }

  /** `score / max_score if max_score > 0 else 0`. */
  function NormalizedWeight(score: real, maxScore: real): (w: real)
    ensures maxScore > 0.0 ==> w * maxScore == score
    ensures maxScore <= 0.0 ==> w == 0.0
  {
    if maxScore > 0.0 then score / maxScore else 0.0
  }

  /** The weight map after the assignments for the entries of `s` in order; a later entry with
      the same phrase overwrites an earlier one. */
  function WeightsOf(s: seq<Ranked>, maxScore: real): map<string, real> {
    if s == [] then map[]
    else WeightsOf(s[..|s| - 1], maxScore)[s[|s| - 1].phrase := NormalizedWeight(s[|s| - 1].score, maxScore)]
  }

  /** The weight map has exactly the phrases of `s` as keys. */
  lemma {:induction false} WeightsKeys(s: seq<Ranked>, maxScore: real)
    ensures forall i :: 0 <= i < |s| ==> s[i].phrase in WeightsOf(s, maxScore)
    ensures forall p :: p in WeightsOf(s, maxScore) ==> exists i :: 0 <= i < |s| && s[i].phrase == p
  {
    if s != [] {
      var init := s[..|s| - 1];
      WeightsKeys(init, maxScore);
      assert forall i :: 0 <= i < |init| ==> init[i] == s[i];
    }
  }

  /** The weight of a phrase is set by its last entry in `s`. */
  lemma {:induction false} WeightsLastWins(s: seq<Ranked>, maxScore: real, j: int)
    requires 0 <= j < |s|
    requires forall l :: j < l < |s| ==> s[l].phrase != s[j].phrase
    ensures s[j].phrase in WeightsOf(s, maxScore)
    ensures WeightsOf(s, maxScore)[s[j].phrase] == NormalizedWeight(s[j].score, maxScore)
  {
    var init := s[..|s| - 1];
    if j < |s| - 1 {
      assert forall l :: j < l < |init| ==> init[l] == s[l];
      WeightsLastWins(init, maxScore, j);
      assert init[j] == s[j];
    }
  }

  /** Every weight is the normalised score of some entry with that phrase. */
  lemma {:induction false} WeightsFromEntries(s: seq<Ranked>, maxScore: real)
    ensures forall p :: p in WeightsOf(s, maxScore) ==>
              exists i :: 0 <= i < |s| && s[i].phrase == p && WeightsOf(s, maxScore)[p] == NormalizedWeight(s[i].score, maxScore)
  {
    if s != [] {
      var init := s[..|s| - 1];
      WeightsFromEntries(init, maxScore);
      forall p | p in WeightsOf(s, maxScore)
        ensures exists i :: 0 <= i < |s| && s[i].phrase == p && WeightsOf(s, maxScore)[p] == NormalizedWeight(s[i].score, maxScore)
      {
        if p == s[|s| - 1].phrase {
          assert s[|s| - 1].phrase == p;
        } else {
          var i :| 0 <= i < |init| && init[i].phrase == p && WeightsOf(init, maxScore)[p] == NormalizedWeight(init[i].score, maxScore);
          assert s[i] == init[i];
        }
      }
    }
  }

  /** With non-negative scores every weight lies in [0, 1]. */
  lemma WeightsInUnitInterval(s: seq<Ranked>)
    requires forall i :: 0 <= i < |s| ==> s[i].score >= 0.0
    ensures forall p :: p in WeightsOf(s, NormalizationBase(s)) ==> 0.0 <= WeightsOf(s, NormalizationBase(s))[p] <= 1.0
  {
    var m := NormalizationBase(s);
    WeightsFromEntries(s, m);
    forall p | p in WeightsOf(s, m) ensures 0.0 <= WeightsOf(s, m)[p] <= 1.0 {
      var i :| 0 <= i < |s| && s[i].phrase == p && WeightsOf(s, m)[p] == NormalizedWeight(s[i].score, m);
      if m > 0.0 {
        UnitQuotient(s[i].score, m);
      }
    }
  }

  lemma UnitQuotient(x: real, m: real)
    requires 0.0 <= x <= m && m > 0.0
    ensures 0.0 <= x / m <= 1.0
  {
  }

  /** When no score is positive every weight is 0. */
  lemma WeightsNonPositive(s: seq<Ranked>)
    requires NormalizationBase(s) <= 0.0
    ensures forall p :: p in WeightsOf(s, NormalizationBase(s)) ==> WeightsOf(s, NormalizationBase(s))[p] == 0.0
  {
    WeightsFromEntries(s, NormalizationBase(s));
  }

  /** No two entries of `s` carry the same phrase. */
  predicate DistinctPhrases(s: seq<Ranked>) {
    forall i, j :: 0 <= i < j < |s| ==> s[i].phrase != s[j].phrase
  }

  /** Entry `j` has the highest score of `s`, and that score is positive. */
  predicate IsTopScore(s: seq<Ranked>, j: int) {
    0 <= j < |s| && s[j].score == NormalizationBase(s) && s[j].score > 0.0
  }

  /** With distinct phrases, an entry of highest positive score weighs exactly 1. */
  lemma TopScoreWeighsOne(s: seq<Ranked>)
    requires DistinctPhrases(s)
    ensures forall j :: IsTopScore(s, j) ==>
              s[j].phrase in WeightsOf(s, NormalizationBase(s)) && WeightsOf(s, NormalizationBase(s))[s[j].phrase] == 1.0
  {
    forall j | IsTopScore(s, j)
      ensures s[j].phrase in WeightsOf(s, NormalizationBase(s)) && WeightsOf(s, NormalizationBase(s))[s[j].phrase] == 1.0
    {
      WeightsLastWins(s, NormalizationBase(s), j);
    }
  }

  /** Weights for the scores 9, 6 and 3: 1, 2/3 and 1/3. */
  lemma NormalizationExample()
    ensures var s := [Ranked(9.0, "a b"), Ranked(6.0, "c d"), Ranked(3.0, "e f")];
            WeightsOf(s, NormalizationBase(s)) == map["a b" := 1.0, "c d" := 2.0 / 3.0, "e f" := 1.0 / 3.0]
  {
    var s := [Ranked(9.0, "a b"), Ranked(6.0, "c d"), Ranked(3.0, "e f")];
    assert MaxScore(s[2..]) == 3.0;
    assert MaxScore(s[1..]) == 6.0;
    assert NormalizationBase(s) == 9.0;
    assert s[..1] == [s[0]] && s[..2] == [s[0], s[1]] && s[..3] == s;
    assert [s[0], s[1]][..1] == [s[0]] && [s[0]][..0] == [];
    assert WeightsOf([s[0]], 9.0) == map["a b" := 1.0];
    assert WeightsOf([s[0], s[1]], 9.0) == map["a b" := 1.0, "c d" := 2.0 / 3.0];
  }

  /** The loop of `create_worldcloud` that fills the phrase-to-weight map. */
  method CreateWeights(phrases: seq<Ranked>) returns (weights: map<string, real>)
    ensures weights == WeightsOf(phrases, NormalizationBase(phrases))
    ensures phrases == [] ==> weights == map[]
    ensures forall i :: 0 <= i < |phrases| ==> phrases[i].phrase in weights
    ensures forall p :: p in weights ==> exists i :: 0 <= i < |phrases| && phrases[i].phrase == p
  {
    var maxScore := if phrases != [] then MaxScore(phrases) else 1.0;
    weights := map[];
    for i := 0 to |phrases|
      invariant weights == WeightsOf(phrases[..i], maxScore)
    {
      assert phrases[..i + 1][..i] == phrases[..i];
      var normalized := if maxScore > 0.0 then phrases[i].score / maxScore else 0.0;
      weights := weights[phrases[i].phrase := normalized];
    }
    assert phrases[..|phrases|] == phrases;
    WeightsKeys(phrases, maxScore);
  }

  // ---------------------------------------------------------------------------------------
  // The whole presentation step

  /** What the script shows: nothing but a message for an empty ranking, otherwise the
      selected phrases, whether to warn, and the tag-cloud weights of the selected phrases. */
  datatype Presentation =
    | NotFound
    | Display(selected: seq<Ranked>, warn: bool, weights: map<string, real>)

  /** The sorting script's `main` after the ranking: the message for an empty ranking, then
      selection, warning and weights. */
  method Present(top: seq<Ranked>) returns (p: Presentation)
    ensures top == [] <==> p == NotFound
    ensures p.Display? ==>
              && p.selected == Shown(top)
              && (p.warn <==> |Qualifying(top)| < TopN)
              && p.weights == WeightsOf(p.selected, NormalizationBase(p.selected))
  {
    if top == [] {
      return NotFound;
    }
    var selected, warn := SelectForDisplay(top);
    var weights := CreateWeights(selected);
    p := Display(selected, warn, weights);
  }

  /** Selection keeps keys distinct. */
  lemma {:induction false} QualifyingDistinct(s: seq<Ranked>, key: string -> string)
    requires DistinctKeys(s, key)
    ensures DistinctKeys(Qualifying(s), key)
  {
    if s != [] {
      var init := s[..|s| - 1];
      assert DistinctKeys(init, key);
      QualifyingDistinct(init, key);
      QualifyingSpec(init);
      var q := Qualifying(init);
      forall k | 0 <= k < |q| ensures key(q[k].phrase) != key(s[|s| - 1].phrase) {
        var j :| 0 <= j < |init| && init[j] == q[k];
        assert s[j] == init[j];
      }
    }
  }

  /** The shown phrases of a ranking with distinct keys have distinct keys and phrases. */
  lemma ShownDistinct(top: seq<Ranked>, key: string -> string)
    requires DistinctKeys(top, key)
    ensures DistinctKeys(Shown(top), key)
    ensures DistinctPhrases(Shown(top))
  {
    QualifyingDistinct(top, key);
    var q := Qualifying(top);
    var shown := Shown(top);
    assert forall i :: 0 <= i < |shown| ==> shown[i] == q[i];
  }

  /** The sorting script end to end, after the scorer: rank with `top_k`, then present. Since
      the ranking has distinct keys, the shown phrases are distinct and the best shown phrase
      weighs exactly 1 whenever its score is positive. */
  method RankAndPresent(ranked: seq<Ranked>, topK: int) returns (p: Presentation)
    ensures var top := PrefixSlice(FirstOccurrences(ranked, NormalizedKey), topK);
            && (top == [] <==> p == NotFound)
            && (p.Display? ==> p.selected == Shown(top) && DistinctKeys(p.selected, NormalizedKey))
    ensures p.Display? ==> forall j :: IsTopScore(p.selected, j) ==>
                                         p.selected[j].phrase in p.weights && p.weights[p.selected[j].phrase] == 1.0
  {
    var top := ExtractKeyphrases(ranked, topK);
    p := Present(top);
    if p.Display? {
      ShownDistinct(top, NormalizedKey);
      TopScoreWeighsOne(p.selected);
    }
  }
}
