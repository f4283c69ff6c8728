/**
 * The similarity service: a model version and the embedding matrix loaded for
 * it, and the top-k selection over the scores of a query against every row.
 *
 * The cosine scores are an input `sims` (one score per stored row), and numpy's
 * argsort is an input `order` that meets argsort's contract; how argsort orders
 * equal scores is left open, so nothing below depends on it.
 */
module Similarity {
  import opened Wrappers

  /** The part of the version error that names the rule broken. */
  const VersionRule: string := "version must be"

  /** The message of the error raised for an unsupported version tag. */
  const VersionError: string := "Model " + VersionRule + " 'v1' or 'v2'"

  /** Rows and columns of the matrix generated when no embedding file exists. */
  const MockRows: nat := 100
  const MockDimension: nat := 64

  /** The version tag used when the caller does not name one. */
  const DefaultVersion: string := "v1"

  /** The number of matches returned when the caller does not say. */
  const DefaultTopK: int := 10

  datatype ServiceError = ValueError(message: string)

  /** A service bound to one model version and the rows of its embedding matrix. */
  datatype SimilarityService = SimilarityService(version: string, embeddings: seq<seq<real>>)

  /** One entry of a result: a row index and its score. */
  datatype Match = Match(index: nat, similarity: real)

  /** ASCII lower-casing of one character. */
  function LowerChar(c: char): char
  {
    if 'A' <= c <= 'Z' then (c as int - 'A' as int + 'a' as int) as char else c
  }

  /** ASCII lower-casing of a string. */
  function Lower(s: string): (t: string)
    ensures |t| == |s|
  {
    seq(|s|, i requires 0 <= i < |s| => LowerChar(s[i]))
  }

  /** `t` occurs in `s` starting at position `i`. */
  predicate OccursAt(s: string, t: string, i: nat)
  {
    i + |t| <= |s| && s[i..i + |t|] == t
  }

  /** `t` occurs in `s` as a contiguous substring. */
  ghost predicate Contains(s: string, t: string)
  {
    exists i: nat :: OccursAt(s, t, i)
  }

  /**
   * A service for `version`, given the matrix loaded for it; any tag other than
   * "v1" or "v2" is rejected before anything is loaded.
   */
  function NewSimilarityService(version: string, embeddings: seq<seq<real>>): (r: Result<SimilarityService, ServiceError>)
    ensures r.Ok? <==> version == "v1" || version == "v2"
    ensures r.Ok? ==> r.value.version == version && r.value.embeddings == embeddings
    ensures r.Err? ==> r.error == ValueError(VersionError)
  {
    if version !in ["v1", "v2"] then Err(ValueError(VersionError))
    else Ok(SimilarityService(version, embeddings))
  }

  /** The default version tag is accepted and bound to the matrix given. */
  lemma DefaultVersionAccepted(embeddings: seq<seq<real>>)
    ensures NewSimilarityService(DefaultVersion, embeddings) == Ok(SimilarityService("v1", embeddings))
  {
  }

  /** The lower-cased message of the version error says "version must be". */
  lemma VersionErrorMessage()
    ensures Contains(Lower(VersionError), "version must be")
  {
    var lowered := Lower(VersionError);
    assert VersionError == ("Model " + VersionRule) + " 'v1' or 'v2'";
    assert (VersionError[..21])[6..] == VersionError[6..21] == VersionRule;
    forall i | 0 <= i < |VersionRule| ensures LowerChar(VersionRule[i]) == VersionRule[i] {
      assert VersionRule[i] in "version must be";
    }
    assert lowered[6..21] == VersionRule;
    assert OccursAt(lowered, VersionRule, 6);
  }

  /**
   * `order` is what argsort may return for `sims`: every row index exactly once,
   * arranged so that the scores do not decrease.
   */
  predicate IsArgsort(sims: seq<real>, order: seq<nat>)
  {
    && |order| == |sims|
    && (forall k :: 0 <= k < |order| ==> order[k] < |sims|)
    && (forall k, l :: 0 <= k < l < |order| ==> order[k] != order[l])
    && (forall j :: 0 <= j < |sims| ==> j in order)
    && (forall k, l :: 0 <= k < l < |order| ==> sims[order[k]] <= sims[order[l]])
  }

  /** The length of `xs[:stop]` for a list of length `n` (Python slicing, negative stops included). */
  function SliceLength(stop: int, n: nat): nat
  {
    if stop >= 0 then (if stop <= n then stop else n)
    else if n + stop >= 0 then n + stop else 0
  }

  /** Row `j` is the index of some entry of `results`. */
  predicate Returned(results: seq<Match>, j: nat)
  {
    exists k :: 0 <= k < |results| && results[k].index == j
  }

  /** `xs[::-1]`: the elements of `xs`, last first. */
  function Reverse(xs: seq<nat>): seq<nat>
  {
    seq(|xs|, i requires 0 <= i < |xs| => xs[|xs| - 1 - i])
  }

  /** Reversing keeps every element, each as often as before. */
  lemma {:induction false} ReverseSameElements(xs: seq<nat>)
    ensures multiset(Reverse(xs)) == multiset(xs)
  {
    if xs != [] {
      ReverseSameElements(xs[1..]);
      assert Reverse(xs) == Reverse(xs[1..]) + [xs[0]];
      assert xs == [xs[0]] + xs[1..];
    }
  }

  /** Each index of `idx`, paired with its score. */
  function Matches(sims: seq<real>, idx: seq<nat>): seq<Match>
    requires forall k :: 0 <= k < |idx| ==> idx[k] < |sims|
  {
    seq(|idx|, k requires 0 <= k < |idx| => Match(idx[k], sims[idx[k]]))
  }

  /**
   * The matches for a query whose score against row i is `sims[i]`: the argsort,
   * reversed, cut to `topK`, each index paired with its score.
   */
  function FindSimilar(service: SimilarityService, sims: seq<real>, order: seq<nat>, topK: int): (results: seq<Match>)
    requires |sims| == |service.embeddings|
    requires IsArgsort(sims, order)
    ensures 0 <= topK ==> |results| == if topK <= |sims| then topK else |sims|
    ensures topK < 0 ==> |results| == if |sims| + topK >= 0 then |sims| + topK else 0
    ensures forall k :: 0 <= k < |results| ==>
      results[k].index < |sims| && results[k].similarity == sims[results[k].index]
    ensures forall k, l :: 0 <= k < l < |results| ==> results[k].index != results[l].index
    ensures forall k, l :: 0 <= k < l < |results| ==> results[k].similarity >= results[l].similarity
    ensures forall k, j :: 0 <= k < |results| && 0 <= j < |sims| && !Returned(results, j) ==>
      results[k].similarity >= sims[j]
    ensures topK >= |sims| ==> forall j :: 0 <= j < |sims| ==> Returned(results, j)
  {
    var count := SliceLength(topK, |sims|);
    assert count <= |sims|;
    var results := Matches(sims, Reverse(order)[..count]);
    KeptOutscoreDropped(sims, order, count);
    EverythingKept(sims, order);
    results
  }

  /** Cutting the reversed argsort anywhere keeps scores at least as high as those it drops. */
  lemma KeptOutscoreDropped(sims: seq<real>, order: seq<nat>, count: nat)
    requires IsArgsort(sims, order) && count <= |sims|
    ensures var results := Matches(sims, Reverse(order)[..count]);
      forall k, j :: 0 <= k < |results| && 0 <= j < |sims| && !Returned(results, j) ==>
        results[k].similarity >= sims[j]
  {
    var n := |sims|;
    var ranked := Reverse(order);
    var results := Matches(sims, ranked[..count]);
    forall k, j | 0 <= k < |results| && 0 <= j < n && sims[j] > results[k].similarity
      ensures Returned(results, j)
    {
      assert j in order;
      var p :| 0 <= p < n && order[p] == j;
      assert results[k].similarity == sims[order[n - 1 - k]];
      assert p > n - 1 - k;
      assert results[n - 1 - p].index == j;
    }
  }

  /** The whole reversed argsort returns every row. */
  lemma EverythingKept(sims: seq<real>, order: seq<nat>)
    requires IsArgsort(sims, order)
    ensures var results := Matches(sims, Reverse(order)[..|sims|]);
      forall j :: 0 <= j < |sims| ==> Returned(results, j)
  {
    var n := |sims|;
    var results := Matches(sims, Reverse(order)[..n]);
    forall j | 0 <= j < n ensures Returned(results, j) {
      assert j in order;
      var p :| 0 <= p < n && order[p] == j;
      assert results[n - 1 - p].index == j;
    }
  }

  /** The mock matrix (100 rows) with the default `top_k` gives exactly ten matches. */
  lemma MockFallbackReturnsTen(service: SimilarityService, sims: seq<real>, order: seq<nat>)
    requires |service.embeddings| == MockRows
    requires forall i :: 0 <= i < |service.embeddings| ==> |service.embeddings[i]| == MockDimension
    requires |sims| == MockRows && IsArgsort(sims, order)
    ensures |FindSimilar(service, sims, order, DefaultTopK)| == 10
  {
  }

  // An argsort for every score vector: sorting the row indices by insertion.

  /** Every element of `s` is a row index of `sims`. */
  predicate InRange(sims: seq<real>, s: seq<nat>)
  {
    forall k :: 0 <= k < |s| ==> s[k] < |sims|
  }

  /** `s` lists indices of `sims` in non-decreasing order of score. */
  predicate SortedByScore(sims: seq<real>, s: seq<nat>)
  {
    && InRange(sims, s)
    && (forall k, l :: 0 <= k < l < |s| ==> sims[s[k]] <= sims[s[l]])
  }

  /** No index occurs twice in `s`. */
  predicate Distinct(s: seq<nat>)
  {
    forall k, l :: 0 <= k < l < |s| ==> s[k] != s[l]
  }

  /** Inserts index `i` into `s` before the first index whose score is at least that of `i`. */
  function Insert(sims: seq<real>, i: nat, s: seq<nat>): seq<nat>
    requires i < |sims| && InRange(sims, s)
  {
    if s == [] then [i]
    else if sims[i] <= sims[s[0]] then [i] + s
    else [s[0]] + Insert(sims, i, s[1..])
  }

  /** Insertion adds exactly `i`. */
  lemma {:induction false} InsertElements(sims: seq<real>, i: nat, s: seq<nat>)
    requires i < |sims| && InRange(sims, s)
    ensures |Insert(sims, i, s)| == |s| + 1 && InRange(sims, Insert(sims, i, s))
    ensures forall x: nat :: x in Insert(sims, i, s) <==> x == i || x in s
  {
    if s != [] && sims[i] > sims[s[0]] {
      var tail := s[1..];
      InsertElements(sims, i, tail);
      forall x: nat ensures x in Insert(sims, i, s) <==> x == i || x in s {
        assert x in s <==> x == s[0] || x in tail;
      }
    }
  }

  /** Insertion keeps a list sorted by score sorted. */
  lemma {:induction false} InsertSorted(sims: seq<real>, i: nat, s: seq<nat>)
    requires i < |sims| && SortedByScore(sims, s)
    ensures SortedByScore(sims, Insert(sims, i, s))
  {
    InsertElements(sims, i, s);
    if s != [] && sims[i] > sims[s[0]] {
      var tail := s[1..];
      InsertSorted(sims, i, tail);
      InsertElements(sims, i, tail);
      var r := Insert(sims, i, s);
      forall k | 1 <= k < |r| ensures sims[r[0]] <= sims[r[k]] {
        assert r[k] in Insert(sims, i, tail);
        if r[k] != i {
          var m :| 0 <= m < |tail| && tail[m] == r[k];
          assert s[m + 1] == r[k];
        }
      }
    }
  }

  /** Inserting an index not yet present keeps a list free of repeats. */
  lemma {:induction false} InsertDistinct(sims: seq<real>, i: nat, s: seq<nat>)
    requires i < |sims| && InRange(sims, s)
    requires Distinct(s) && i !in s
    ensures Distinct(Insert(sims, i, s))
  {
    if s != [] && sims[i] > sims[s[0]] {
      var tail := s[1..];
      assert forall m :: 0 <= m < |tail| ==> tail[m] == s[m + 1];
      InsertDistinct(sims, i, tail);
      InsertElements(sims, i, tail);
      var rest := Insert(sims, i, tail);
      forall k | 0 <= k < |rest| ensures rest[k] != s[0] {
        assert rest[k] in rest;
      }
    }
  }

  /** The indices below `n`, sorted by score. */
  function ArgsortPrefix(sims: seq<real>, n: nat): (s: seq<nat>)
    requires n <= |sims|
    ensures |s| == n
    ensures SortedByScore(sims, s) && Distinct(s)
    ensures forall x: nat :: x in s <==> x < n
  {
    if n == 0 then []
    else
      var s' := ArgsortPrefix(sims, n - 1);
      InsertElements(sims, n - 1, s');
      InsertSorted(sims, n - 1, s');
      InsertDistinct(sims, n - 1, s');
      Insert(sims, n - 1, s')
  }

  /** An argsort of `sims`. */
  function Argsort(sims: seq<real>): seq<nat>
  {
    ArgsortPrefix(sims, |sims|)
  }

  /** The precondition of `FindSimilar` on `order` can be met for every score vector. */
  lemma ArgsortExists(sims: seq<real>)
    ensures IsArgsort(sims, Argsort(sims))
  {
  }

  // The scores of a result do not depend on how argsort orders equal scores.

  /** The rows whose score is below `v`. */
  function Below(sims: seq<real>, v: real): set<nat>
  {
    set j: nat | j < |sims| && sims[j] < v
  }

  /** The rows whose score is at most `v`. */
  function AtMost(sims: seq<real>, v: real): set<nat>
  {
    set j: nat | j < |sims| && sims[j] <= v
  }

  /** The indices at the first `k` positions of `order`. */
  function FirstPositions(order: seq<nat>, k: nat): set<nat>
    requires k <= |order|
  {
    set p | 0 <= p < k :: order[p]
  }

  /** A subset has no more elements than its superset. */
  lemma {:induction false} SubsetCard(a: set<nat>, b: set<nat>)
    requires a <= b
    ensures |a| <= |b|
    decreases |a|
  {
    if a != {} {
      var x :| x in a;
      SubsetCard(a - {x}, b - {x});
    }
  }

  /** The first `k` positions of a repeat-free sequence hold `k` different indices. */
  lemma {:induction false} FirstPositionsCard(order: seq<nat>, k: nat)
    requires k <= |order|
    requires forall p, q :: 0 <= p < q < |order| ==> order[p] != order[q]
    ensures |FirstPositions(order, k)| == k
  {
    if k > 0 {
      FirstPositionsCard(order, k - 1);
      assert FirstPositions(order, k) == FirstPositions(order, k - 1) + {order[k - 1]};
      assert order[k - 1] !in FirstPositions(order, k - 1);
    }
  }

  /**
   * The score at position `k` of an argsort has at most `k` rows scoring below
   * it and more than `k` rows scoring at most it.
   */
  lemma RankBounds(sims: seq<real>, order: seq<nat>, k: nat)
    requires IsArgsort(sims, order) && k < |sims|
    ensures |Below(sims, sims[order[k]])| <= k < |AtMost(sims, sims[order[k]])|
  {
    var v := sims[order[k]];
    FirstPositionsCard(order, k);
    FirstPositionsCard(order, k + 1);
    forall j | j in Below(sims, v) ensures j in FirstPositions(order, k) {
      assert j in order;
      var p :| 0 <= p < |order| && order[p] == j;
      assert p < k;
    }
    SubsetCard(Below(sims, v), FirstPositions(order, k));
    SubsetCard(FirstPositions(order, k + 1), AtMost(sims, v));
  }

  /** A lower score has no more rows at most it than a higher score has rows below it. */
  lemma CountsOrdered(sims: seq<real>, a: real, b: real)
    ensures a < b ==> |AtMost(sims, a)| <= |Below(sims, b)|
  {
    if a < b {
      SubsetCard(AtMost(sims, a), Below(sims, b));
    }
  }

  /** Any two argsorts of the same scores list the same score at every position. */
  lemma ArgsortScoresAgree(sims: seq<real>, o1: seq<nat>, o2: seq<nat>, k: nat)
    requires IsArgsort(sims, o1) && IsArgsort(sims, o2) && k < |sims|
    ensures sims[o1[k]] == sims[o2[k]]
  {
    RankBounds(sims, o1, k);
    RankBounds(sims, o2, k);
    CountsOrdered(sims, sims[o1[k]], sims[o2[k]]);
    CountsOrdered(sims, sims[o2[k]], sims[o1[k]]);
  }

  /** Reversing two argsorts of the same scores lists the same score at every position. */
  lemma ReversedScoresAgree(sims: seq<real>, o1: seq<nat>, o2: seq<nat>)
    requires IsArgsort(sims, o1) && IsArgsort(sims, o2)
    ensures forall k :: 0 <= k < |sims| ==> sims[Reverse(o1)[k]] == sims[Reverse(o2)[k]]
  {
    forall k | 0 <= k < |sims| ensures sims[Reverse(o1)[k]] == sims[Reverse(o2)[k]] {
      ArgsortScoresAgree(sims, o1, o2, |sims| - 1 - k);
    }
  }

  /**
   * Whatever order argsort gives tied scores, `FindSimilar` returns the same
   * list of similarities; only the indices of tied rows may differ.
   */
  lemma TieOrderKeepsScores(service: SimilarityService, sims: seq<real>, o1: seq<nat>, o2: seq<nat>, topK: int)
    requires |sims| == |service.embeddings|
    requires IsArgsort(sims, o1) && IsArgsort(sims, o2)
    ensures var r1, r2 := FindSimilar(service, sims, o1, topK), FindSimilar(service, sims, o2, topK);
      |r1| == |r2| && forall k :: 0 <= k < |r1| ==> r1[k].similarity == r2[k].similarity
  {
    var count := SliceLength(topK, |sims|);
    ReversedScoresAgree(sims, o1, o2);
    assert FindSimilar(service, sims, o1, topK) == Matches(sims, Reverse(o1)[..count]);
    assert FindSimilar(service, sims, o2, topK) == Matches(sims, Reverse(o2)[..count]);
  }
}
