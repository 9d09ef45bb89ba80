/** The score explainer of `explain_phrase`: the phrase is lower-cased and split on runs of
    characters outside the word class; each token is looked up in the scorer's frequency and
    degree tables, and the phrase score is the sum of degree/frequency over the tokens. */
module Explanation {
  import opened Text

  /** The word class `[A-Za-zА-Яа-яЁё0-9_'’\-‐‑]` of the splitting pattern. */
  predicate IsWordChar(c: char) {
    ('A' <= c <= 'Z') || ('a' <= c <= 'z')
    || ('\U{0410}' <= c <= '\U{042F}') || ('\U{0430}' <= c <= '\U{044F}')
    || c == '\U{0401}' || c == '\U{0451}'
    || ('0' <= c <= '9') || c == '_' || c == '\'' || c == '\U{2019}'
    || c == '-' || c == '\U{2010}' || c == '\U{2011}'
  }

  /** Lower-casing neither creates nor removes word characters. */
  lemma LowerKeepsWordClass(c: char)
    ensures IsWordChar(LowerChar(c)) == IsWordChar(c)
  {
  }

  // The split is stated for any character class `inWord`; `RegexSplit` fixes it to
  // `IsWordChar`. Keeping the class abstract keeps the proofs below from unfolding it.

  /** Everything in `s` from its first character in the class on. */
  function DropSeparators(s: string, inWord: char -> bool): (r: string)
    ensures |r| <= |s|
    ensures s != [] && !inWord(s[0]) ==> |r| < |s|
    ensures r == [] || inWord(r[0])
  {
    if s != [] && !inWord(s[0]) then DropSeparators(s[1..], inWord) else s
  }

  /** What `DropSeparators` keeps is a suffix of its input. */
  lemma {:induction false} DropSeparatorsSuffix(s: string, inWord: char -> bool)
    ensures DropSeparators(s, inWord) == s[|s| - |DropSeparators(s, inWord)|..]
  {
    if s != [] && !inWord(s[0]) {
      DropSeparatorsSuffix(s[1..], inWord);
    }
  }

  /** The pieces of `s` between runs of characters outside `inWord`, where `cur` is the part of
      the current piece already read. */
  function SplitFrom(s: string, cur: string, inWord: char -> bool): (pieces: seq<string>)
    ensures pieces != []
    decreases |s|
  {
    if s == [] then [cur]
    else if inWord(s[0]) then SplitFrom(s[1..], cur + [s[0]], inWord)
    else [cur] + SplitFrom(DropSeparators(s, inWord), [], inWord)
  }

  /** `re.split(pattern, s)`: the pieces between runs of separators, with an empty piece before a
      leading run and after a trailing one. */
  function RegexSplit(s: string): seq<string> {
    SplitFrom(s, [], IsWordChar)
  }

  /** The pieces that are not empty, `[w for w in pieces if w]`. */
  function NonEmpty(pieces: seq<string>): (r: seq<string>)
    ensures |r| <= |pieces|
    ensures forall i :: 0 <= i < |r| ==> r[i] != [] && r[i] in pieces
  {
    if pieces == [] then []
    else (if pieces[0] == [] then [] else [pieces[0]]) + NonEmpty(pieces[1..])
  }

  /** The tokens of a phrase, `[w for w in re.split(pattern, phrase.lower()) if w]`. */
  function Words(phrase: string): seq<string> {
    NonEmpty(RegexSplit(Lower(phrase)))
  }

  /** All the strings of `pieces` run together. */
  function Concat(pieces: seq<string>): string {
    if pieces == [] then [] else pieces[0] + Concat(pieces[1..])
  }

  /** The characters of `s` in the class, in order. */
  function Keep(s: string, inWord: char -> bool): (r: string)
    ensures forall i :: 0 <= i < |r| ==> inWord(r[i])
  {
    if s == [] then [] else (if inWord(s[0]) then [s[0]] else []) + Keep(s[1..], inWord)
  }

  lemma {:induction false} NonEmptyAppend(a: seq<string>, b: seq<string>)
    ensures NonEmpty(a + b) == NonEmpty(a) + NonEmpty(b)
  {
    if a != [] {
      assert (a + b)[0] == a[0] && (a + b)[1..] == a[1..] + b;
      NonEmptyAppend(a[1..], b);
    } else {
      assert a + b == b;
    }
  }

  lemma {:induction false} ConcatAppend(a: seq<string>, b: seq<string>)
    ensures Concat(a + b) == Concat(a) + Concat(b)
  {
    if a != [] {
      assert (a + b)[0] == a[0] && (a + b)[1..] == a[1..] + b;
      ConcatAppend(a[1..], b);
    } else {
      assert a + b == b;
    }
  }

  /** Dropping the empty pieces does not change what the pieces spell. */
  lemma {:induction false} ConcatNonEmpty(pieces: seq<string>)
    ensures Concat(NonEmpty(pieces)) == Concat(pieces)
  {
    if pieces != [] {
      ConcatNonEmpty(pieces[1..]);
      var head := if pieces[0] == [] then [] else [pieces[0]];
      ConcatAppend(head, NonEmpty(pieces[1..]));
    }
  }

  lemma {:induction false} KeepDropSeparators(s: string, inWord: char -> bool)
    ensures Keep(DropSeparators(s, inWord), inWord) == Keep(s, inWord)
    decreases |s|
  {
    if s != [] && !inWord(s[0]) {
      KeepDropSeparators(s[1..], inWord);
    }
  }

  /** The pieces of the split, run together, are exactly the class characters of the input. */
  lemma {:induction false} ConcatSplitFrom(s: string, cur: string, inWord: char -> bool)
    ensures Concat(SplitFrom(s, cur, inWord)) == cur + Keep(s, inWord)
    decreases |s|
  {
    if s == [] {
    } else if inWord(s[0]) {
      ConcatSplitFrom(s[1..], cur + [s[0]], inWord);
    } else {
      var rest := DropSeparators(s, inWord);
      ConcatSplitFrom(rest, [], inWord);
      KeepDropSeparators(s, inWord);
      assert SplitFrom(s, cur, inWord) == [cur] + SplitFrom(rest, [], inWord);
      assert ([cur] + SplitFrom(rest, [], inWord))[1..] == SplitFrom(rest, [], inWord);
    }
  }

  /** Every piece of the split is made of class characters taken from `cur` or from `s`. */
  lemma {:induction false} SplitFromPieces(s: string, cur: string, inWord: char -> bool)
    requires forall c :: c in cur ==> inWord(c)
    ensures forall p, c :: p in SplitFrom(s, cur, inWord) && c in p ==> inWord(c) && (c in cur || c in s)
    decreases |s|
  {
    if s == [] {
    } else if inWord(s[0]) {
      SplitFromPieces(s[1..], cur + [s[0]], inWord);
    } else {
      var rest := DropSeparators(s, inWord);
      SplitFromPieces(rest, [], inWord);
      DropSeparatorsSuffix(s, inWord);
      assert forall c :: c in rest ==> c in s;
    }
  }

  /** A run of class characters is never split. */
  lemma {:induction false} SplitFromWord(s: string, cur: string, inWord: char -> bool)
    requires forall i :: 0 <= i < |s| ==> inWord(s[i])
    ensures SplitFrom(s, cur, inWord) == [cur + s]
    decreases |s|
  {
    if s != [] {
      SplitFromWord(s[1..], cur + [s[0]], inWord);
      assert cur + [s[0]] + s[1..] == cur + s;
    } else {
      assert cur + s == cur;
    }
  }

  /** At a separator the current piece ends and the split resumes after the run of separators. */
  lemma SplitAtSeparator(s: string, cur: string, inWord: char -> bool)
    requires s != [] && !inWord(s[0])
    ensures NonEmpty(SplitFrom(s, cur, inWord))
         == NonEmpty([cur]) + NonEmpty(SplitFrom(DropSeparators(s, inWord), [], inWord))
  {
    NonEmptyAppend([cur], SplitFrom(DropSeparators(s, inWord), [], inWord));
  }

  /** Skipping a leading run of separators changes the split only by empty pieces. */
  lemma SkipSeparators(s: string, inWord: char -> bool)
    ensures NonEmpty(SplitFrom(DropSeparators(s, inWord), [], inWord)) == NonEmpty(SplitFrom(s, [], inWord))
  {
    if s != [] && !inWord(s[0]) {
      SplitAtSeparator(s, [], inWord);
    }
  }

  /** Dropping separators from `a + t` drops those of `a`, and those of `t` too if `a` had
      nothing else. */
  lemma {:induction false} DropSeparatorsAppend(a: string, t: string, inWord: char -> bool)
    ensures DropSeparators(a + t, inWord)
         == if DropSeparators(a, inWord) == [] then DropSeparators(t, inWord) else DropSeparators(a, inWord) + t
    decreases |a|
  {
    if a != [] {
      assert (a + t)[0] == a[0] && (a + t)[1..] == a[1..] + t;
      if !inWord(a[0]) {
        DropSeparatorsAppend(a[1..], t, inWord);
      }
    } else {
      assert a + t == t;
    }
  }

  /** A separator cuts the split in two: the non-empty pieces of `a + ([c] + b)` are those of
      `a` followed by those of `b`. */
  lemma {:induction false} SplitFromSeparator(a: string, c: char, b: string, cur: string, inWord: char -> bool)
    requires !inWord(c)
    ensures NonEmpty(SplitFrom(a + ([c] + b), cur, inWord))
         == NonEmpty(SplitFrom(a, cur, inWord)) + NonEmpty(SplitFrom(b, [], inWord))
    decreases |a|, 2
  {
    var t := [c] + b;
    if a == [] {
      SeparatorFirst(c, b, cur, inWord);
      assert a + t == t;
    } else if inWord(a[0]) {
      var s := a + t;
      assert s[0] == a[0] && s[1..] == a[1..] + t;
      SplitFromSeparator(a[1..], c, b, cur + [a[0]], inWord);
    } else {
      SeparatorAfterSeparators(a, c, b, cur, inWord);
    }
  }

  /** `SplitFromSeparator` when the separator comes first. */
  lemma SeparatorFirst(c: char, b: string, cur: string, inWord: char -> bool)
    requires !inWord(c)
    ensures NonEmpty(SplitFrom([c] + b, cur, inWord)) == NonEmpty([cur]) + NonEmpty(SplitFrom(b, [], inWord))
  {
    var t := [c] + b;
    assert t[0] == c && t[1..] == b;
    assert DropSeparators(t, inWord) == DropSeparators(b, inWord);
    SplitAtSeparator(t, cur, inWord);
    SkipSeparators(b, inWord);
  }

  /** `SplitFromSeparator` when `a` starts with a separator. */
  lemma {:induction false} SeparatorAfterSeparators(a: string, c: char, b: string, cur: string, inWord: char -> bool)
    requires !inWord(c) && a != [] && !inWord(a[0])
    ensures NonEmpty(SplitFrom(a + ([c] + b), cur, inWord))
         == NonEmpty(SplitFrom(a, cur, inWord)) + NonEmpty(SplitFrom(b, [], inWord))
    decreases |a|, 1
  {
    var front := NonEmpty([cur]);
    var left := NonEmpty(SplitFrom(DropSeparators(a, inWord), [], inWord));
    var right := NonEmpty(SplitFrom(b, [], inWord));
    var rest := NonEmpty(SplitFrom(DropSeparators(a + ([c] + b), inWord), [], inWord));
    SplitAtLeadingSeparator(a, [c] + b, cur, inWord);
    SplitAtSeparator(a, cur, inWord);
    RestAfterSeparators(a, c, b, inWord);
    Regroup(NonEmpty(SplitFrom(a + ([c] + b), cur, inWord)), NonEmpty(SplitFrom(a, cur, inWord)), front, left, right, rest);
  }

  /** `SplitAtSeparator` for `a + t` where `a` starts with a separator. */
  lemma SplitAtLeadingSeparator(a: string, t: string, cur: string, inWord: char -> bool)
    requires a != [] && !inWord(a[0])
    ensures NonEmpty(SplitFrom(a + t, cur, inWord))
         == NonEmpty([cur]) + NonEmpty(SplitFrom(DropSeparators(a + t, inWord), [], inWord))
  {
    assert (a + t)[0] == a[0];
    SplitAtSeparator(a + t, cur, inWord);
  }

  lemma Regroup(whole: seq<string>, first: seq<string>, front: seq<string>, left: seq<string>, right: seq<string>, rest: seq<string>)
    requires whole == front + rest && first == front + left && rest == left + right
    ensures whole == first + right
  {
  }

  /** After the leading separators of `a`, the split of `a + ([c] + b)` is that of the rest of
      `a` followed by that of `b`. */
  lemma {:induction false} RestAfterSeparators(a: string, c: char, b: string, inWord: char -> bool)
    requires !inWord(c) && a != [] && !inWord(a[0])
    ensures NonEmpty(SplitFrom(DropSeparators(a + ([c] + b), inWord), [], inWord))
         == NonEmpty(SplitFrom(DropSeparators(a, inWord), [], inWord)) + NonEmpty(SplitFrom(b, [], inWord))
    decreases |a|, 0
  {
    var t := [c] + b;
    var d := DropSeparators(a, inWord);
    DropSeparatorsAppend(a, t, inWord);
    if d == [] {
      OnlySeparators(c, b, inWord);
      assert NonEmpty([[]]) == [];
    } else {
      SplitFromSeparator(d, c, b, [], inWord);
    }
  }

  /** A split that starts with a separator, after its leading separators, is that of the rest. */
  lemma OnlySeparators(c: char, b: string, inWord: char -> bool)
    requires !inWord(c)
    ensures NonEmpty(SplitFrom(DropSeparators([c] + b, inWord), [], inWord)) == NonEmpty(SplitFrom(b, [], inWord))
  {
    var t := [c] + b;
    assert t[0] == c && t[1..] == b;
    SkipSeparators(b, inWord);
  }

  /** The phrase tokens are non-empty, lower case and made of word characters only, and run
      together they are the word characters of the lower-cased phrase, in order. */
  lemma WordsAreTokens(phrase: string)
    ensures forall i :: 0 <= i < |Words(phrase)| ==> Words(phrase)[i] != []
    ensures forall i, c :: 0 <= i < |Words(phrase)| && c in Words(phrase)[i] ==> IsWordChar(c) && LowerChar(c) == c
    ensures Concat(Words(phrase)) == Keep(Lower(phrase), IsWordChar)
  {
    var low := Lower(phrase);
    LowerIsLowercase(phrase);
    SplitFromPieces(low, [], IsWordChar);
    ConcatSplitFrom(low, [], IsWordChar);
    ConcatNonEmpty(RegexSplit(low));
    forall i, c | 0 <= i < |Words(phrase)| && c in Words(phrase)[i]
      ensures IsWordChar(c) && LowerChar(c) == c
    {
      assert Words(phrase)[i] in RegexSplit(low);
      var j :| 0 <= j < |low| && low[j] == c;
    }
  }

  lemma LowerAround(a: string, c: char, b: string)
    ensures Lower(a + [c] + b) == Lower(a) + ([LowerChar(c)] + Lower(b))
  {
    var s := a + [c] + b;
    var r := Lower(a) + ([LowerChar(c)] + Lower(b));
    assert |Lower(s)| == |r|;
    forall i | 0 <= i < |s| ensures Lower(s)[i] == r[i] {
      if i < |a| {
        assert s[i] == a[i];
      } else if i == |a| {
        assert s[i] == c;
      } else {
        assert s[i] == b[i - |a| - 1];
      }
    }
  }

  /** A separator in the phrase splits its tokens: `Words(a + [c] + b) == Words(a) + Words(b)`. */
  lemma WordsSeparator(a: string, c: char, b: string)
    requires !IsWordChar(c)
    ensures Words(a + [c] + b) == Words(a) + Words(b)
  {
    LowerAround(a, c, b);
    LowerKeepsWordClass(c);
    SplitFromSeparator(Lower(a), LowerChar(c), Lower(b), [], IsWordChar);
  }

  /** A phrase that is one run of word characters is one token, its lower-cased self; the empty
      phrase has no token. */
  lemma WordsOfWord(w: string)
    requires forall i :: 0 <= i < |w| ==> IsWordChar(w[i])
    ensures Words(w) == if w == [] then [] else [Lower(w)]
  {
    forall i | 0 <= i < |w| ensures IsWordChar(Lower(w)[i]) {
      LowerKeepsWordClass(w[i]);
    }
    SplitFromWord(Lower(w), [], IsWordChar);
    assert [] + Lower(w) == Lower(w);
  }

  // ---------------------------------------------------------------------------------------
  // The breakdown

  /** One `(token, degree, frequency, degree/frequency)` tuple of the breakdown. */
  datatype Contribution = Contribution(token: string, degree: int, frequency: int, ratio: real)

  /** `m.get(w, 0)`. */
  function Lookup(m: map<string, int>, w: string): int {
    if w in m then m[w] else 0
  }

  /** `(deg / freq) if freq else 0.0`: the exact quotient, or 0 for a zero frequency. */
  function Ratio(degree: int, frequency: int): (r: real)
    ensures frequency != 0 ==> r * frequency as real == degree as real
    ensures frequency == 0 ==> r == 0.0
    ensures degree >= 0 && frequency >= 0 ==> r >= 0.0
  {
    if frequency != 0 then degree as real / frequency as real else 0.0
  }

  /** The RAKE score of a token list: the sum over tokens of degree/frequency. */
  function RakeScore(words: seq<string>, freqMap: map<string, int>, degMap: map<string, int>): real {
    if words == [] then 0.0
    else Ratio(Lookup(degMap, words[0]), Lookup(freqMap, words[0])) + RakeScore(words[1..], freqMap, degMap)
  }

  /** `sum(ws for _, _, _, ws in breakdown)`. */
  function SumRatios(breakdown: seq<Contribution>): real {
    if breakdown == [] then 0.0 else breakdown[0].ratio + SumRatios(breakdown[1..])
  }

  /** A breakdown whose ratios are those of `words` sums to the RAKE score of `words`. */
  lemma {:induction false} SumRatiosIsRakeScore(breakdown: seq<Contribution>, words: seq<string>,
                                                freqMap: map<string, int>, degMap: map<string, int>)
    requires |breakdown| == |words|
    requires forall i :: 0 <= i < |words| ==>
               breakdown[i].ratio == Ratio(Lookup(degMap, words[i]), Lookup(freqMap, words[i]))
    ensures SumRatios(breakdown) == RakeScore(words, freqMap, degMap)
  {
    if words != [] {
      SumRatiosIsRakeScore(breakdown[1..], words[1..], freqMap, degMap);
    }
  }

  /** With non-negative tables every phrase score is non-negative. */
  lemma {:induction false} RakeScoreNonNegative(words: seq<string>, freqMap: map<string, int>, degMap: map<string, int>)
    requires forall w :: w in freqMap ==> freqMap[w] >= 0
    requires forall w :: w in degMap ==> degMap[w] >= 0
    ensures RakeScore(words, freqMap, degMap) >= 0.0
  {
    if words != [] {
      RakeScoreNonNegative(words[1..], freqMap, degMap);
    }
  }

  /** The score of a concatenation of token lists is the sum of their scores. */
  lemma {:induction false} RakeScoreAppend(a: seq<string>, b: seq<string>, freqMap: map<string, int>, degMap: map<string, int>)
    ensures RakeScore(a + b, freqMap, degMap) == RakeScore(a, freqMap, degMap) + RakeScore(b, freqMap, degMap)
  {
    if a != [] {
      assert (a + b)[0] == a[0] && (a + b)[1..] == a[1..] + b;
      RakeScoreAppend(a[1..], b, freqMap, degMap);
    } else {
      assert a + b == b;
    }
  }

  /** Scores add up across a separator: the score of `a + [c] + b` is that of `a` plus that of `b`. */
  lemma PhraseScoreSeparator(a: string, c: char, b: string, freqMap: map<string, int>, degMap: map<string, int>)
    requires !IsWordChar(c)
    ensures RakeScore(Words(a + [c] + b), freqMap, degMap)
         == RakeScore(Words(a), freqMap, degMap) + RakeScore(Words(b), freqMap, degMap)
  {
    WordsSeparator(a, c, b);
    RakeScoreAppend(Words(a), Words(b), freqMap, degMap);
  }

  /** `explain_phrase`: one tuple per token, in phrase order, holding the token's degree and
      frequency (0 when missing) and their ratio; the phrase score is the sum of the ratios. */
  method ExplainPhrase(phrase: string, freqMap: map<string, int>, degMap: map<string, int>)
    returns (breakdown: seq<Contribution>, phraseScore: real)
    ensures |breakdown| == |Words(phrase)|
    ensures forall i :: 0 <= i < |breakdown| ==>
              && breakdown[i].token == Words(phrase)[i]
              && breakdown[i].degree == Lookup(degMap, breakdown[i].token)
              && breakdown[i].frequency == Lookup(freqMap, breakdown[i].token)
              && breakdown[i].ratio == Ratio(breakdown[i].degree, breakdown[i].frequency)
    ensures phraseScore == SumRatios(breakdown)
    ensures phraseScore == RakeScore(Words(phrase), freqMap, degMap)
    ensures (forall w :: w in freqMap ==> freqMap[w] >= 0) && (forall w :: w in degMap ==> degMap[w] >= 0)
            ==> phraseScore >= 0.0
  {
    var words := Words(phrase);
    breakdown := [];
    for i := 0 to |words|
      invariant |breakdown| == i
      invariant forall j :: 0 <= j < i ==>
                  && breakdown[j].token == words[j]
                  && breakdown[j].degree == Lookup(degMap, words[j])
                  && breakdown[j].frequency == Lookup(freqMap, words[j])
                  && breakdown[j].ratio == Ratio(breakdown[j].degree, breakdown[j].frequency)
    {
      var w := words[i];
      var freq := if w in freqMap then freqMap[w] else 0;
      var deg := if w in degMap then degMap[w] else 0;
      var wscore := if freq != 0 then deg as real / freq as real else 0.0;
      breakdown := breakdown + [Contribution(w, deg, freq, wscore)];
    }
    phraseScore := SumRatios(breakdown);
    SumRatiosIsRakeScore(breakdown, words, freqMap, degMap);
    if (forall w :: w in freqMap ==> freqMap[w] >= 0) && (forall w :: w in degMap ==> degMap[w] >= 0) {
      RakeScoreNonNegative(words, freqMap, degMap);
    }
  }

  /** A token in neither table contributes `(w, 0, 0, 0.0)` and does not fail. */
  lemma UnknownTokenContributesNothing(w: string, freqMap: map<string, int>, degMap: map<string, int>)
    requires w !in freqMap && w !in degMap
    ensures Contribution(w, Lookup(degMap, w), Lookup(freqMap, w), Ratio(Lookup(degMap, w), Lookup(freqMap, w)))
         == Contribution(w, 0, 0, 0.0)
  {
  }
}
