# A/B-routed similarity service, modelled in Dafny

The system answers nearest-neighbour queries over a fixed embedding matrix. It
has two cooperating services:

- **`ABRouter`** (`src/services/ab_testing.py`) picks the model version ("v1"
  or "v2") for each request. It compares one random draw against the traffic
  split, and keeps a table from version tag to the latencies logged for that
  version. `get_metrics` reports the mean latency of each version.
- **`SimilarityService`** (`src/services/similarity.py`) binds a validated
  version tag to its embedding matrix. `find_similar` ranks the rows by their
  cosine score against the query and returns the `top_k` best as
  `{index, similarity}` pairs.

The model has three files:

- `wrappers.dfy` (module `Wrappers`): `Option` and `Result`. `None` stands for a
  Python `None` argument; `Err` stands for a raised exception.
- `ab_testing.dfy` (module `ABTesting`): the router as a class. `split` and
  `metrics` (`map<string, seq<real>>`) are fields. `LogPerformance` updates
  `metrics` in place. A ghost `history` records every logged observation in
  order. The invariant `Valid()` (= `TableOf(metrics, history)`) says three
  things: each version maps to exactly its logged latencies, in order; only
  logged versions appear, each with a non-empty list; and the table holds one
  latency per call. `ChooseVersion(r)` and `GetMetrics()` are functions that
  read the object. The random draw `r` is a parameter. Latencies are exact
  `real`s.
- `similarity.dfy` (module `Similarity`): the service as a value. The cosine
  scores are an input `sims`, with one score per stored row. numpy's `argsort` is
  an input `order`. `IsArgsort(sims, order)` states argsort's contract: every
  row index once, in non-decreasing order of score. It says nothing about how
  equal scores are ordered. `FindSimilar` reverses `order`, cuts it as Python's
  `[:top_k]` does (negative `top_k` included), and pairs each index with its
  score. `Argsort` (insertion by score) shows that every score vector has an
  argsort. `TieOrderKeepsScores` shows that the list of returned similarities is
  the same for every argsort.

How ties come out: `np.argsort` is not stable by default, and its result is
reversed before slicing. So the code promises no tie-break by index, and the model
leaves tie order open. Every property below holds for any tie order.

## Model

| member | source | states |
|---|---|---|
| `ABTesting.ABRouter.constructor` | src/services/ab_testing.py:10-12 | the split is the one given, or exactly `{"v1": 0.7, "v2": 0.3}` when none or an empty one is given; the table starts empty and valid |
| `ABTesting.ABRouter.ChooseVersion` | src/services/ab_testing.py:14-17 | a key error exactly when the split has no "v1"; otherwise the result is "v1" exactly when `r < split["v1"]`, and is always "v1" or "v2" |
| `ABTesting.ABRouter.SaturatedSplitChoosesV1` | src/services/ab_testing.py:17 | with `split["v1"] >= 1`, every draw in [0, 1) is routed to "v1" |
| `ABTesting.ABRouter.EmptyShareChoosesV2` | src/services/ab_testing.py:17 | with `split["v1"] <= 0`, every draw in [0, 1) is routed to "v2" |
| `ABTesting.ABRouter.LogPerformance` | src/services/ab_testing.py:19-21 | the list of `version` becomes its old list (empty if absent) plus `latency`; every other entry and the split are unchanged; the stored count grows by exactly one; the invariant is kept |
| `ABTesting.TableOfAppend` | src/services/ab_testing.py:19-21 | appending one latency to a table built from a log gives the table of that log extended by the observation (entries stay non-empty and in logging order, and counts match) |
| `ABTesting.LatenciesOfAppend` | src/services/ab_testing.py:21 | logging an observation extends the latency list of its own version only |
| `ABTesting.ObservationsUpdate` | src/services/ab_testing.py:21 | replacing one version's list changes the total number of stored latencies by exactly the change in that list's length |
| `ABTesting.LatenciesOfNonEmpty` | src/services/ab_testing.py:21 | a version has latencies in a log exactly when some observation names it |
| `ABTesting.TableOfKeys` | src/services/ab_testing.py:12-21 | a table built by appends holds exactly the versions that were logged |
| `ABTesting.ABRouter.GetMetrics` | src/services/ab_testing.py:23-28 | the keys are exactly the table's versions; a non-empty list's value times its length is the list's sum; an empty list gives 0.0 |
| `ABTesting.ABRouter.MetricsAreMeansOfLog` | src/services/ab_testing.py:23-28 | on a router built by its own calls, the keys are exactly the logged versions, and each value is the mean of that version's logged latencies (so the 0.0 branch is never taken) |
| `ABTesting.SumBounds` | src/services/ab_testing.py:26 | latencies all in [lo, hi] have a sum between lo and hi times their count |
| `ABTesting.MeanBounds` | src/services/ab_testing.py:26 | the mean of latencies all in [lo, hi] lies in [lo, hi] |
| `ABTesting.ABRouter.MetricsWithinObservedRange` | src/services/ab_testing.py:25-28 | a reported mean lies within the range of the latencies logged for that version |
| `ABTesting.LogScenario` | tests/test_ab_testing.py:13-16 | a default router after logging 0.1 and 0.3 for "v1" and 0.2 for "v2" holds `{"v1": [0.1, 0.3], "v2": [0.2]}` |
| `ABTesting.ABRouter.ScenarioMetrics` | tests/test_ab_testing.py:17-19 | that table reports a mean of exactly 0.2 for both versions |
| `ABTesting.LogAndGetMetricsScenario` | tests/test_ab_testing.py:12-19 | the whole test: the metrics are exactly `{"v1": 0.2, "v2": 0.2}` |
| `Similarity.NewSimilarityService` | src/services/similarity.py:11-15 | construction succeeds exactly for "v1" or "v2", and then stores the version and the matrix given; any other tag gives `ValueError` with the version message |
| `Similarity.DefaultVersionAccepted` | src/services/similarity.py:11-15 | with no version given, the default tag "v1" is accepted and bound to the matrix given |
| `Similarity.VersionErrorMessage` | src/services/similarity.py:13 | the lower-cased error message contains "version must be" |
| `Similarity.FindSimilar` | src/services/similarity.py:28-33 | the number of results is `min(top_k, N)` for `top_k >= 0` and `max(0, N + top_k)` for negative `top_k`, as Python's `[:top_k]` gives; indices are in [0, N) and distinct; each similarity is its row's score; similarities are non-increasing; every returned row scores at least as high as every row not returned; with `top_k >= N` every row is returned |
| `Similarity.ReverseSameElements` | src/services/similarity.py:32 | `[::-1]` keeps every row index, each as often as before |
| `Similarity.KeptOutscoreDropped` | src/services/similarity.py:32 | any prefix of a reversed argsort keeps rows scoring at least as high as every row it drops |
| `Similarity.EverythingKept` | src/services/similarity.py:32 | the whole reversed argsort returns every row |
| `Similarity.MockFallbackReturnsTen` | src/services/similarity.py:24-32 | on the 100-row, 64-column mock matrix with the default `top_k` of 10, exactly 10 results come back |
| `Similarity.ArgsortPrefix` | src/services/similarity.py:32 | insertion by score of the indices below n gives each index below n exactly once, in non-decreasing order of score |
| `Similarity.ArgsortExists` | src/services/similarity.py:32 | every score vector has an order meeting argsort's contract, so `FindSimilar` can be called for any scores |
| `Similarity.RankBounds` | src/services/similarity.py:32 | the score at position k of an argsort has at most k rows scoring below it and more than k rows scoring at most it |
| `Similarity.ArgsortScoresAgree` | src/services/similarity.py:32 | two argsorts of the same scores list the same score at every position |
| `Similarity.TieOrderKeepsScores` | src/services/similarity.py:32-33 | for any two argsorts the results have the same length and the same similarity at every position; only tied rows' indices may differ |

## Left out

- `random.random()` (src/services/ab_testing.py:16): the draw is the parameter `r` of `ChooseVersion`. The 1000-draw balance test in tests/test_ab_testing.py is statistical and is not modelled.
- Cosine similarity (`sklearn.metrics.pairwise.cosine_similarity`, numpy reshaping): a floating-point library call. Its scores are the input `sims`. So errors raised inside sklearn are not modelled: a query of the wrong length, or an embedding matrix with no rows (where `FindSimilar` returns `[]`).
- `load_embeddings` (file check, pickle load, seeded `np.random.rand(100, 64)`): I/O and library randomness. The matrix is a parameter of `NewSimilarityService`. Of the mock fallback, only its shape (`MockRows`, `MockDimension`) is kept.
- Score range: the test's check that the top similarity lies in [0, 1] (tests/test_similarity.py:12) depends on the cosine values. With scores as an input, the model states only that each returned similarity is its row's score.
- `np.argsort`'s tie order: the model takes any order that meets argsort's contract, and no property depends on how ties are broken.
- Floating-point rounding in `np.mean`, and the `int`/`float` conversions of numpy values: latencies and scores are exact reals.
- Split values are reals. A Python split may hold values that do not compare with a float; those are not modelled.
- `get_metrics` leaving the router unchanged holds by construction: `GetMetrics` is a function that only reads the object.
- `src/api/endpoints.py`: HTTP routing, `time.time()` latency measurement, the module-level router, and the catch-all error response are not part of this model.
- Concurrency: the metrics table has no locking, and the model covers single-threaded calls only.
