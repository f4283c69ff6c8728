/**
 * The A/B router: a traffic split between model versions "v1" and "v2", and a
 * table of the latencies observed per version.
 *
 * The random draw of `choose_version` is a parameter `r` here; latencies are
 * exact reals, so a mean is the exact quotient of a sum by a count.
 */
module ABTesting {
  import opened Wrappers

  /** The split a router uses when it is given none, or an empty one. */
  const DefaultSplit: map<string, real> := map["v1" := 0.7, "v2" := 0.3]

  /** Looking up a version the split does not hold raises a key error. */
  datatype RouterError = KeyError(key: string)

  /** One call of `log_performance`: the version tag and the latency logged for it. */
  datatype Observation = Observation(version: string, latency: real)

  /** The sum of a sequence of latencies. */
  function Sum(s: seq<real>): real
  {
    if s == [] then 0.0 else Sum(s[..|s| - 1]) + s[|s| - 1]
  }

  /** The arithmetic mean of a non-empty sequence of latencies. */
  function Mean(s: seq<real>): real
    requires |s| > 0
  {
    Sum(s) / (|s| as real)
  }

  /** The latencies logged for version `v`, in the order they were logged. */
  function LatenciesOf(log: seq<Observation>, v: string): seq<real>
  {
    if log == [] then []
    else
      var last := log[|log| - 1];
      LatenciesOf(log[..|log| - 1], v) + (if last.version == v then [last.latency] else [])
  }

  /** Logging one more observation extends the latencies of its version only. */
  lemma LatenciesOfAppend(log: seq<Observation>, o: Observation, v: string)
    ensures LatenciesOf(log + [o], v) == LatenciesOf(log, v) + (if o.version == v then [o.latency] else [])
  {
    assert (log + [o])[..|log|] == log;
  }

  /** The number of latencies stored in a metrics table, over all versions. */
  ghost function Observations(m: map<string, seq<real>>): nat
    decreases |m.Keys|
  {
    if m.Keys == {} then 0
    else
      var k :| k in m;
      assert (m - {k}).Keys == m.Keys - {k};
      |m[k]| + Observations(m - {k})
  }

  /** Counting the observations of a table may start from any of its versions. */
  lemma {:induction false} ObservationsRemove(m: map<string, seq<real>>, k: string)
    requires k in m
    ensures Observations(m) == |m[k]| + Observations(m - {k})
    decreases |m.Keys|
  {
    var j :| j in m && Observations(m) == |m[j]| + Observations(m - {j});
    if j != k {
      var mj, mk := m - {j}, m - {k};
      assert mj.Keys == m.Keys - {j} && mk.Keys == m.Keys - {k};
      ObservationsRemove(mj, k);
      ObservationsRemove(mk, j);
      assert mj - {k} == mk - {j};
    }
  }

  /** Replacing the list of one version changes the count by the difference in length. */
  lemma ObservationsUpdate(m: map<string, seq<real>>, k: string, s: seq<real>)
    ensures Observations(m[k := s]) == Observations(m) - (if k in m then |m[k]| else 0) + |s|
  {
    ObservationsRemove(m[k := s], k);
    assert m[k := s] - {k} == m - {k};
    if k in m {
      ObservationsRemove(m, k);
    } else {
      assert m - {k} == m;
    }
  }

  /** Some observation of `log` names version `v`. */
  ghost predicate Logged(log: seq<Observation>, v: string)
  {
    exists i :: 0 <= i < |log| && log[i].version == v
  }

  /** A version has latencies in a log exactly when some observation of the log names it. */
  lemma {:induction false} LatenciesOfNonEmpty(log: seq<Observation>, v: string)
    ensures |LatenciesOf(log, v)| > 0 <==> Logged(log, v)
  {
    if log != [] {
      var init := log[..|log| - 1];
      LatenciesOfNonEmpty(init, v);
      if exists i :: 0 <= i < |init| && init[i].version == v {
        var i :| 0 <= i < |init| && init[i].version == v;
        assert log[i].version == v;
      }
      if exists i :: 0 <= i < |log| && log[i].version == v {
        var i :| 0 <= i < |log| && log[i].version == v;
        if i < |init| {
          assert init[i].version == v;
        }
      }
    }
  }

  /** A sum of latencies lying in [lo, hi] lies between lo and hi times their count. */
  lemma {:induction false} SumBounds(s: seq<real>, lo: real, hi: real)
    requires forall x :: x in s ==> lo <= x <= hi
    ensures lo * (|s| as real) <= Sum(s) <= hi * (|s| as real)
  {
    if s != [] {
      var init := s[..|s| - 1];
      assert forall x :: x in init ==> x in s;
      SumBounds(init, lo, hi);
      assert s[|s| - 1] in s;
      assert lo * (|s| as real) == lo * (|init| as real) + lo;
      assert hi * (|s| as real) == hi * (|init| as real) + hi;
    }
  }

  /** The mean of latencies lying in [lo, hi] lies in [lo, hi]. */
  lemma MeanBounds(s: seq<real>, lo: real, hi: real)
    requires |s| > 0
    requires forall x :: x in s ==> lo <= x <= hi
    ensures lo <= Mean(s) <= hi
  {
    SumBounds(s, lo, hi);
  }

  /**
   * `m` is the table that the log `h` builds: each version maps to exactly the
   * latencies logged for it, in order; only logged versions appear; and the table
   * stores one latency per observation.
   */
  ghost predicate TableOf(m: map<string, seq<real>>, h: seq<Observation>)
  {
    && (forall v :: v in m ==> |m[v]| > 0 && m[v] == LatenciesOf(h, v))
    && (forall i :: 0 <= i < |h| ==> h[i].version in m)
    && Observations(m) == |h|
  }

  /** `m` with `x` appended to the list of `v`, the list created empty when missing. */
  function Append(m: map<string, seq<real>>, v: string, x: real): map<string, seq<real>>
  {
    m[v := (if v in m then m[v] else []) + [x]]
  }

  /** Appending to the table keeps it the table of the log extended by that observation. */
  lemma TableOfAppend(m: map<string, seq<real>>, h: seq<Observation>, v: string, x: real)
    requires TableOf(m, h)
    ensures TableOf(Append(m, v, x), h + [Observation(v, x)])
  {
    var o := Observation(v, x);
    var m', h' := Append(m, v, x), h + [o];
    var times := if v in m then m[v] else [];
    assert times == LatenciesOf(h, v) by {
      LatenciesOfNonEmpty(h, v);
    }
    forall w | w in m' ensures |m'[w]| > 0 && m'[w] == LatenciesOf(h', w) {
      LatenciesOfAppend(h, o, w);
    }
    forall i | 0 <= i < |h'| ensures h'[i].version in m' {
      if i < |h| {
        assert h'[i] == h[i];
      }
    }
    ObservationsUpdate(m, v, times + [x]);
  }

  /** A table built from a log holds exactly the logged versions. */
  lemma TableOfKeys(m: map<string, seq<real>>, h: seq<Observation>)
    requires TableOf(m, h)
    ensures forall v :: v in m <==> Logged(h, v)
  {
    forall v ensures v in m <==> Logged(h, v) {
      LatenciesOfNonEmpty(h, v);
    }
  }

  /** A router: a traffic split and a table from version tag to observed latencies. */
  class ABRouter {
    var split: map<string, real>
    var metrics: map<string, seq<real>>
    /** Every call of `LogPerformance` so far, in order. */
    ghost var history: seq<Observation>

    /** The table is the one its calls of `LogPerformance` built. */
    ghost predicate Valid()
      reads this
    {
      TableOf(metrics, history)
    }

    /** A new router; a missing or empty split falls back to `DefaultSplit`. */
    constructor (split: Option<map<string, real>>)
      ensures Valid()
      ensures this.split == if split.None? || split.value == map[] then DefaultSplit else split.value
      ensures metrics == map[] && history == []
    {
      this.split := if split.None? || split.value == map[] then DefaultSplit else split.value;
      metrics := map[];
      history := [];
    }

    /** The version serving a request whose random draw is `r`. */
    function ChooseVersion(r: real): (v: Result<string, RouterError>)
      reads this
      ensures v.Err? <==> "v1" !in split
      ensures v.Err? ==> v.error == KeyError("v1")
      ensures v.Ok? ==> (v.value == "v1" <==> r < split["v1"])
      ensures v.Ok? ==> v.value == "v1" || v.value == "v2"
    {
      if "v1" !in split then Err(KeyError("v1"))
      else if r < split["v1"] then Ok("v1")
      else Ok("v2")
    }

    /** Appends `latency` to the list of `version`, creating the list if it is missing. */
    method LogPerformance(version: string, latency: real)
      requires Valid()
      modifies this`metrics, this`history
      ensures Valid()
      ensures metrics == old(metrics)[version := (if version in old(metrics) then old(metrics)[version] else []) + [latency]]
      ensures history == old(history) + [Observation(version, latency)]
      ensures Observations(metrics) == Observations(old(metrics)) + 1
      ensures split == old(split)
    {
      TableOfAppend(metrics, history, version, latency);
      metrics := Append(metrics, version, latency);
      history := history + [Observation(version, latency)];
    }

    /** The mean latency of every version in the table; 0.0 for an empty list. */
    function GetMetrics(): (means: map<string, real>)
      reads this
      ensures means.Keys == metrics.Keys
      ensures forall v :: v in means && |metrics[v]| > 0 ==> means[v] * (|metrics[v]| as real) == Sum(metrics[v])
      ensures forall v :: v in means && |metrics[v]| == 0 ==> means[v] == 0.0
    {
      assert forall v :: v in metrics && |metrics[v]| > 0 ==> Mean(metrics[v]) * (|metrics[v]| as real) == Sum(metrics[v]);
      map v | v in metrics :: if |metrics[v]| > 0 then Mean(metrics[v]) else 0.0
    }

    /**
     * On a router built by its own calls, the metrics have exactly the logged
     * versions as keys, and each is the mean of that version's logged latencies.
     */
    lemma MetricsAreMeansOfLog()
      requires Valid()
      ensures forall v :: v in GetMetrics() <==> Logged(history, v)
      ensures forall v :: v in GetMetrics() ==>
        |LatenciesOf(history, v)| > 0 && GetMetrics()[v] == Mean(LatenciesOf(history, v))
    {
      TableOfKeys(metrics, history);
    }

    /** A reported mean lies within the range of the latencies logged for its version. */
    lemma MetricsWithinObservedRange(v: string, lo: real, hi: real)
      requires v in metrics && |metrics[v]| > 0
      requires forall x :: x in metrics[v] ==> lo <= x <= hi
      ensures v in GetMetrics() && lo <= GetMetrics()[v] <= hi
    {
      MeanBounds(metrics[v], lo, hi);
    }

    /** The means reported for the table of `LogScenario`. */
    lemma ScenarioMetrics()
      requires metrics == map["v1" := [0.1, 0.3], "v2" := [0.2]]
      ensures GetMetrics() == map["v1" := 0.2, "v2" := 0.2]
    {
      var means := GetMetrics();
      assert means.Keys == {"v1", "v2"};
      assert means["v1"] == 0.2 by {
        assert [0.1, 0.3][..1] == [0.1];
        assert [0.1][..0] == [];
        assert Mean([0.1, 0.3]) == 0.2;
      }
      assert means["v2"] == 0.2 by {
        assert [0.2][..0] == [];
        assert Mean([0.2]) == 0.2;
      }
    }

    /** With a share of at least 1 for "v1", every draw in [0, 1) goes to "v1". */
    lemma SaturatedSplitChoosesV1(r: real)
      requires "v1" in split && split["v1"] >= 1.0
      requires 0.0 <= r < 1.0
      ensures ChooseVersion(r) == Ok("v1")
    {
    }

    /** With a share of at most 0 for "v1", every draw in [0, 1) goes to "v2". */
    lemma EmptyShareChoosesV2(r: real)
      requires "v1" in split && split["v1"] <= 0.0
      requires 0.0 <= r < 1.0
      ensures ChooseVersion(r) == Ok("v2")
    {
    }
  }

  /** Logging 0.1 and 0.3 for "v1" and 0.2 for "v2" on a default router reports 0.2 for both. */
  method LogAndGetMetricsScenario() returns (means: map<string, real>)
    ensures means == map["v1" := 0.2, "v2" := 0.2]
  {
    var router := LogScenario();
    router.ScenarioMetrics();
    means := router.GetMetrics();
  }

  /** The three calls of `log_performance` of the scenario, on a default router. */
  method LogScenario() returns (router: ABRouter)
    ensures fresh(router) && router.Valid()
    ensures router.metrics == map["v1" := [0.1, 0.3], "v2" := [0.2]]
  {
    router := new ABRouter(None);
    router.LogPerformance("v1", 0.1);
    assert router.metrics == map["v1" := [0.1]] by {
      assert [] + [0.1] == [0.1];
    }
    router.LogPerformance("v1", 0.3);
    assert router.metrics == map["v1" := [0.1, 0.3]] by {
      assert [0.1] + [0.3] == [0.1, 0.3];
    }
    router.LogPerformance("v2", 0.2);
    assert [] + [0.2] == [0.2];
  }
}
