/** The keyphrase ranker of `extract_keyphrases`: the scorer's ranked `(score, phrase)` list is
    deduplicated by a normalised phrase key, keeping the first entry of each key, and then cut by
    Python's slice `[:top_k]`. The scorer itself is external; its output is an input here. */
module Ranking {
  import opened Text

  /** One `(score, phrase)` pair of the scorer's ranked list. */
  datatype Ranked = Ranked(score: real, phrase: string)

  function Min(a: int, b: int): int { if a <= b then a else b }

  function Max(a: int, b: int): int { if a >= b then a else b }

  /** The key used to detect duplicates: `phrase.strip().lower()`. */
  function NormalizedKey(phrase: string): string {
    Lower(Strip(phrase))
  }

  /** The set of keys that occur in `s`: exactly the keys of its entries. */
  function KeysOf(s: seq<Ranked>, key: string -> string): (ks: set<string>)
    ensures forall i :: 0 <= i < |s| ==> key(s[i].phrase) in ks
    ensures forall k :: k in ks ==> exists i :: 0 <= i < |s| && key(s[i].phrase) == k
  {
    if s == [] then {} else KeysOf(s[..|s| - 1], key) + {key(s[|s| - 1].phrase)}
  }

  /** No two entries of `s` share a key. */
  predicate DistinctKeys(s: seq<Ranked>, key: string -> string) {
    forall i, j :: 0 <= i < j < |s| ==> key(s[i].phrase) != key(s[j].phrase)
  }

  /** Scores never increase along `s`. */
  predicate NonIncreasing(s: seq<Ranked>) {
    forall i, j :: 0 <= i < j < |s| ==> s[i].score >= s[j].score
  }

  /** The entries of `s` whose key has not occurred earlier in `s`, in their original order. */
  function FirstOccurrences(s: seq<Ranked>, key: string -> string): seq<Ranked> {
    if s == [] then []
    else
      var init := FirstOccurrences(s[..|s| - 1], key);
      if key(s[|s| - 1].phrase) in KeysOf(s[..|s| - 1], key) then init else init + [s[|s| - 1]]
  }

  /** The positions in `s` of the entries `FirstOccurrences` keeps. */
  function FirstIndices(s: seq<Ranked>, key: string -> string): seq<int> {
    if s == [] then []
    else
      var init := FirstIndices(s[..|s| - 1], key);
      if key(s[|s| - 1].phrase) in KeysOf(s[..|s| - 1], key) then init else init + [|s| - 1]
  }

  /** The deduplicated list has no repeated key and keeps every key of the input. */
  lemma {:induction false} FirstOccurrencesKeys(s: seq<Ranked>, key: string -> string)
    ensures DistinctKeys(FirstOccurrences(s, key), key)
    ensures KeysOf(FirstOccurrences(s, key), key) == KeysOf(s, key)
  {
    if s != [] {
      var init, x := s[..|s| - 1], s[|s| - 1];
      var d := FirstOccurrences(init, key);
      FirstOccurrencesKeys(init, key);
      if key(x.phrase) !in KeysOf(init, key) {
        assert (d + [x])[..|d|] == d;
        assert KeysOf(d + [x], key) == KeysOf(d, key) + {key(x.phrase)};
        forall i | 0 <= i < |d| ensures key(d[i].phrase) != key(x.phrase) {
          assert key(d[i].phrase) in KeysOf(d, key);
        }
      }
    }
  }

  /** The kept positions are positions of `s`, in strictly increasing order. */
  lemma {:induction false} FirstIndicesIncreasing(s: seq<Ranked>, key: string -> string)
    ensures forall k :: 0 <= k < |FirstIndices(s, key)| ==> 0 <= FirstIndices(s, key)[k] < |s|
    ensures forall k, l :: 0 <= k < l < |FirstIndices(s, key)| ==> FirstIndices(s, key)[k] < FirstIndices(s, key)[l]
  {
    if s != [] {
      FirstIndicesIncreasing(s[..|s| - 1], key);
    }
  }

  /** The kept entries are the entries of `s` at the kept positions. */
  lemma {:induction false} FirstIndicesMatch(s: seq<Ranked>, key: string -> string)
    ensures |FirstIndices(s, key)| == |FirstOccurrences(s, key)|
    ensures forall k :: 0 <= k < |FirstIndices(s, key)| ==>
              0 <= FirstIndices(s, key)[k] < |s| && FirstOccurrences(s, key)[k] == s[FirstIndices(s, key)[k]]
  {
    if s != [] {
      var init := s[..|s| - 1];
      FirstIndicesMatch(init, key);
      var idx := FirstIndices(init, key);
      assert forall k :: 0 <= k < |idx| ==> s[idx[k]] == init[idx[k]];
    }
  }

  /** Each kept position holds the first entry of `s` with its key. */
  lemma {:induction false} FirstIndicesEarliest(s: seq<Ranked>, key: string -> string)
    ensures forall k :: 0 <= k < |FirstIndices(s, key)| ==> 0 <= FirstIndices(s, key)[k] < |s|
    ensures forall k, j :: 0 <= k < |FirstIndices(s, key)| && 0 <= j < FirstIndices(s, key)[k] ==>
              key(s[j].phrase) != key(s[FirstIndices(s, key)[k]].phrase)
  {
    FirstIndicesIncreasing(s, key);
    if s != [] {
      var init, x := s[..|s| - 1], s[|s| - 1];
      FirstIndicesEarliest(init, key);
      var idx := FirstIndices(init, key);
      forall k, j | 0 <= k < |idx| && 0 <= j < idx[k]
        ensures key(s[j].phrase) != key(s[idx[k]].phrase)
      {
        assert s[j] == init[j] && s[idx[k]] == init[idx[k]];
      }
      if key(x.phrase) !in KeysOf(init, key) {
        forall j | 0 <= j < |s| - 1 ensures key(s[j].phrase) != key(x.phrase) {
          assert s[j] == init[j];
        }
      }
    }
  }

  /** The deduplicated list is the subsequence of `s` at strictly increasing positions, and each
      position holds the first entry of `s` with that key. */
  lemma FirstIndicesSpec(s: seq<Ranked>, key: string -> string)
    ensures |FirstIndices(s, key)| == |FirstOccurrences(s, key)|
    ensures forall k :: 0 <= k < |FirstIndices(s, key)| ==>
              0 <= FirstIndices(s, key)[k] < |s| && FirstOccurrences(s, key)[k] == s[FirstIndices(s, key)[k]]
    ensures forall k, l :: 0 <= k < l < |FirstIndices(s, key)| ==> FirstIndices(s, key)[k] < FirstIndices(s, key)[l]
    ensures forall k, j :: 0 <= k < |FirstIndices(s, key)| && 0 <= j < FirstIndices(s, key)[k] ==>
              key(s[j].phrase) != key(s[FirstIndices(s, key)[k]].phrase)
  {
    FirstIndicesMatch(s, key);
    FirstIndicesIncreasing(s, key);
    FirstIndicesEarliest(s, key);
  }

  /** Deduplication keeps the order of `s`: a non-increasing ranking stays non-increasing. */
  lemma FirstOccurrencesNonIncreasing(s: seq<Ranked>, key: string -> string)
    requires NonIncreasing(s)
    ensures NonIncreasing(FirstOccurrences(s, key))
  {
    FirstIndicesSpec(s, key);
    var d, idx := FirstOccurrences(s, key), FirstIndices(s, key);
    forall k, l | 0 <= k < l < |d| ensures d[k].score >= d[l].score {
      assert d[k] == s[idx[k]] && d[l] == s[idx[l]] && idx[k] < idx[l];
    }
  }

  /** A list with distinct keys has as many keys as entries. */
  lemma {:induction false} DistinctKeysCount(s: seq<Ranked>, key: string -> string)
    requires DistinctKeys(s, key)
    ensures |KeysOf(s, key)| == |s|
  {
    if s != [] {
      var init, x := s[..|s| - 1], s[|s| - 1];
      assert DistinctKeys(init, key);
      DistinctKeysCount(init, key);
      forall j | 0 <= j < |init| ensures key(init[j].phrase) != key(x.phrase) {
        assert init[j] == s[j];
      }
    }
  }

  /** The deduplicated list has one entry per distinct key of the input. */
  lemma FirstOccurrencesLength(s: seq<Ranked>, key: string -> string)
    ensures |FirstOccurrences(s, key)| == |KeysOf(s, key)|
  {
    FirstOccurrencesKeys(s, key);
    DistinctKeysCount(FirstOccurrences(s, key), key);
  }

  /** Python's slice `s[:k]`: a prefix of `s`, of length `min(k, |s|)` for `k >= 0`; a negative
      `k` counts from the end, so `s[:-1]` drops the last entry. */
  function PrefixSlice(s: seq<Ranked>, k: int): (r: seq<Ranked>)
    ensures k >= 0 ==> |r| == Min(k, |s|)
    ensures k < 0 ==> |r| == Max(0, |s| + k)
    ensures r == s[..|r|]
  {
    if k >= 0 then (if k <= |s| then s[..k] else s)
    else if -k <= |s| then s[..|s| + k] else []
  }

  /** Cutting a prefix keeps distinct keys and a non-increasing order. */
  lemma PrefixSliceKeeps(s: seq<Ranked>, k: int, key: string -> string)
    ensures DistinctKeys(s, key) ==> DistinctKeys(PrefixSlice(s, k), key)
    ensures NonIncreasing(s) ==> NonIncreasing(PrefixSlice(s, k))
  {
    var r := PrefixSlice(s, k);
    assert forall i :: 0 <= i < |r| ==> r[i] == s[i];
  }

  /** The loop of `extract_keyphrases`: one pass over `ranked` that keeps a set of the keys seen
      so far and appends each entry whose key is new. */
  method Deduplicate(ranked: seq<Ranked>, key: string -> string) returns (unique: seq<Ranked>)
    ensures unique == FirstOccurrences(ranked, key)
  {
    var seen: set<string> := {};
    unique := [];
    for i := 0 to |ranked|
      invariant seen == KeysOf(ranked[..i], key)
      invariant unique == FirstOccurrences(ranked[..i], key)
    {
      assert ranked[..i + 1][..i] == ranked[..i];
      var k := key(ranked[i].phrase);
      if k in seen {
        continue;
      }
      seen := seen + {k};
      unique := unique + [ranked[i]];
    }
    assert ranked[..|ranked|] == ranked;
  }

  /** `extract_keyphrases` after the scorer has run: deduplicate by `strip().lower()`, then take
      `[:top_k]`. The result has distinct keys, keeps the input's order, and for `top_k >= 0`
      holds `min(top_k, number of distinct keys)` entries. */
  method ExtractKeyphrases(ranked: seq<Ranked>, topK: int) returns (top: seq<Ranked>)
    ensures top == PrefixSlice(FirstOccurrences(ranked, NormalizedKey), topK)
    ensures DistinctKeys(top, NormalizedKey)
    ensures topK >= 0 ==> |top| == Min(topK, |KeysOf(ranked, NormalizedKey)|)
    ensures topK < 0 ==> |top| == Max(0, |KeysOf(ranked, NormalizedKey)| + topK)
    ensures NonIncreasing(ranked) ==> NonIncreasing(top)
  {
    var unique := Deduplicate(ranked, NormalizedKey);
    top := PrefixSlice(unique, topK);
    DedupSliceDistinct(ranked, NormalizedKey, topK);
    DedupSliceLength(ranked, NormalizedKey, topK);
    if NonIncreasing(ranked) {
      DedupSliceOrder(ranked, NormalizedKey, topK);
    }
  }

  /** Deduplicating and then cutting leaves no repeated key, for any key function. */
  lemma DedupSliceDistinct(ranked: seq<Ranked>, key: string -> string, topK: int)
    ensures DistinctKeys(PrefixSlice(FirstOccurrences(ranked, key), topK), key)
  {
    FirstOccurrencesKeys(ranked, key);
    PrefixSliceKeeps(FirstOccurrences(ranked, key), topK, key);
  }

  /** Deduplicating and then cutting leaves the slice of one entry per distinct key. */
  lemma DedupSliceLength(ranked: seq<Ranked>, key: string -> string, topK: int)
    ensures topK >= 0 ==> |PrefixSlice(FirstOccurrences(ranked, key), topK)| == Min(topK, |KeysOf(ranked, key)|)
    ensures topK < 0 ==> |PrefixSlice(FirstOccurrences(ranked, key), topK)| == Max(0, |KeysOf(ranked, key)| + topK)
  {
    var unique := FirstOccurrences(ranked, key);
    FirstOccurrencesLength(ranked, key);
    assert |unique| == |KeysOf(ranked, key)|;
    var r := PrefixSlice(unique, topK);
  }

  /** Deduplicating and then cutting keeps a non-increasing ranking non-increasing. */
  lemma DedupSliceOrder(ranked: seq<Ranked>, key: string -> string, topK: int)
    requires NonIncreasing(ranked)
    ensures NonIncreasing(PrefixSlice(FirstOccurrences(ranked, key), topK))
  {
    FirstOccurrencesNonIncreasing(ranked, key);
    PrefixSliceKeeps(FirstOccurrences(ranked, key), topK, key);
  }
}
