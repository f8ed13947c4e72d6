/**
  The probabilities with which the controller picks benchmarks, chosen so that each of them takes its target
  share of the running time. Durations and probabilities are real numbers.
 */
module TimeShare {
  import opened Wrappers

  function Sum(s: seq<real>): real {
    if s == [] then 0.0 else Sum(s[..|s| - 1]) + s[|s| - 1]
  }

  /** What the program can work with: positive runtimes, no negative target, and a positive first one, which
      is the reference for the others. */
  predicate Usable(targets: seq<real>, runtimes: seq<real>) {
    && |targets| == |runtimes| > 0 && targets[0] > 0.0
    && (forall i :: 0 <= i < |targets| ==> targets[i] >= 0.0)
    && forall i :: 0 <= i < |runtimes| ==> runtimes[i] > 0.0
  }

  /** Probabilities that divide the time fairly: what benchmark `i` is expected to take of it, its probability
      times its runtime, is in proportion to its target. */
  ghost predicate Fair(targets: seq<real>, runtimes: seq<real>, p: seq<real>) {
    && |p| == |targets| == |runtimes| && Sum(p) == 1.0
    && forall i, j :: 0 <= i < |p| && 0 <= j < |p| ==> InProportion(targets, runtimes, p, i, j)
  }

  ghost predicate InProportion(targets: seq<real>, runtimes: seq<real>, p: seq<real>, i: nat, j: nat)
    requires |p| == |targets| == |runtimes| && i < |p| && j < |p|
  {
    p[i] * runtimes[i] * targets[j] == p[j] * runtimes[j] * targets[i]
  }

  /** The probability of benchmark `j` relative to that of the first one. */
  function Relative(targets: seq<real>, runtimes: seq<real>, j: nat): real
    requires Usable(targets, runtimes) && j < |targets|
  {
    runtimes[0] * targets[j] / (runtimes[j] * targets[0])
  }

  function Relatives(targets: seq<real>, runtimes: seq<real>): (s: seq<real>)
    requires Usable(targets, runtimes)
  {
    seq(|targets|, (j: nat) requires j < |targets| => Relative(targets, runtimes, j))
  }

  function Divided(s: seq<real>, d: real): (r: seq<real>)
    requires d != 0.0
  {
    seq(|s|, i requires 0 <= i < |s| => s[i] / d)
  }

  // ---- Sums

  lemma {:induction false} SumDivided(s: seq<real>, d: real)
    requires d != 0.0
    ensures Sum(Divided(s, d)) == Sum(s) / d
    decreases |s|
  {
    if s != [] {
      assert Divided(s, d)[..|s| - 1] == Divided(s[..|s| - 1], d);
      SumDivided(s[..|s| - 1], d);
    }
  }

  lemma {:induction false} SumIsPositive(s: seq<real>)
    requires forall i :: 0 <= i < |s| ==> s[i] >= 0.0
    ensures Sum(s) >= 0.0 && (s != [] && s[0] > 0.0 ==> Sum(s) > 0.0)
    decreases |s|
  {
    if s != [] {
      SumIsPositive(s[..|s| - 1]);
    }
  }

  // ---- Fairness

  lemma Cross(a: real, r: real, t: real, s: real, q: real)
    requires r > 0.0 && s > 0.0
    ensures a == q * t / (r * s) <==> a * r * s == q * t
  {
    var d := r * s;
    assert d > 0.0;
    assert a * r * s == a * d;
    if a == q * t / d {
      assert a * d == q * t;
    }
    if a * d == q * t {
      assert a == q * t / d;
    }
  }

  lemma RelativeIsPositive(targets: seq<real>, runtimes: seq<real>, j: nat)
    requires Usable(targets, runtimes) && j < |targets|
    ensures Relative(targets, runtimes, j) >= 0.0
    ensures Relative(targets, runtimes, j) > 0.0 <==> targets[j] > 0.0
    ensures Relative(targets, runtimes, 0) == 1.0
  {
    var d := runtimes[j] * targets[0];
    assert d > 0.0;
    var q := runtimes[0] * targets[j];
    assert q >= 0.0 && (q > 0.0 <==> targets[j] > 0.0);
    Quotient(q, d);
    Quotient(runtimes[0] * targets[0], runtimes[0] * targets[0]);
  }

  lemma Quotient(q: real, d: real)
    requires d > 0.0 && q >= 0.0
    ensures q / d >= 0.0 && (q / d > 0.0 <==> q > 0.0) && (q == d ==> q / d == 1.0)
  {
  }

  /** The relative probabilities are in proportion, whatever they are divided by. */
  lemma DividedInProportion(targets: seq<real>, runtimes: seq<real>, d: real, i: nat, j: nat)
    requires Usable(targets, runtimes) && d > 0.0 && i < |targets| && j < |targets|
    ensures InProportion(targets, runtimes, Divided(Relatives(targets, runtimes), d), i, j)
  {
    Reduced(targets[i], runtimes[i], targets[0], runtimes[0], d);
    Reduced(targets[j], runtimes[j], targets[0], runtimes[0], d);
  }

  lemma Reduced(t: real, r: real, t0: real, r0: real, d: real)
    requires r > 0.0 && t0 > 0.0 && d > 0.0
    ensures r0 * t / (r * t0) / d * r == r0 / t0 / d * t
  {
    var x := r0 * t / (r * t0);
    Cross(x, r, t, t0, r0);
    assert x * r * t0 == r0 * t;
    assert x * r == r0 * t / t0;
    assert x / d * r == x * r / d;
    assert r0 / t0 / d * t == r0 * t / t0 / d;
  }

  /** Dividing the relative probabilities by their sum makes them fair. */
  lemma NormalizedIsFair(targets: seq<real>, runtimes: seq<real>)
    requires Usable(targets, runtimes)
    ensures Sum(Relatives(targets, runtimes)) > 0.0
    ensures Fair(targets, runtimes, Divided(Relatives(targets, runtimes), Sum(Relatives(targets, runtimes))))
  {
    var w := Relatives(targets, runtimes);
    forall j: nat | j < |w| ensures w[j] >= 0.0 && w[0] > 0.0 {
      RelativeIsPositive(targets, runtimes, j);
    }
    SumIsPositive(w);
    SumDivided(w, Sum(w));
    Quotient(Sum(w), Sum(w));
    forall i: nat, j: nat | i < |w| && j < |w| ensures InProportion(targets, runtimes, Divided(w, Sum(w)), i, j) {
      DividedInProportion(targets, runtimes, Sum(w), i, j);
    }
  }

  /** There is only one fair choice. */
  lemma FairIsUnique(targets: seq<real>, runtimes: seq<real>, p: seq<real>)
    requires Usable(targets, runtimes) && Fair(targets, runtimes, p)
    ensures Sum(Relatives(targets, runtimes)) > 0.0
    ensures p == Divided(Relatives(targets, runtimes), Sum(Relatives(targets, runtimes)))
  {
    var w := Relatives(targets, runtimes);
    NormalizedIsFair(targets, runtimes);
    if p[0] == 0.0 {
      forall j: nat | j < |p| ensures p[j] == 0.0 {
        FairEntry(targets, runtimes, p, j);
      }
      SumIsZero(p);
      assert false;
    }
    forall j: nat | j < |p| ensures Divided(p, p[0])[j] == w[j] {
      FairEntry(targets, runtimes, p, j);
    }
    assert Divided(p, p[0]) == w;
    SumDivided(p, p[0]);
    forall j: nat | j < |p| ensures p[j] == w[j] / Sum(w) {
      Inverse(p[j], p[0]);
    }
  }

  lemma Inverse(x: real, d: real)
    requires d != 0.0
    ensures 1.0 / d != 0.0 && x == x / d / (1.0 / d)
  {
  }

  lemma FairEntry(targets: seq<real>, runtimes: seq<real>, p: seq<real>, j: nat)
    requires Usable(targets, runtimes) && Fair(targets, runtimes, p) && j < |p|
    ensures p[0] == 0.0 ==> p[j] == 0.0
    ensures p[0] != 0.0 ==> p[j] / p[0] == Relative(targets, runtimes, j)
  {
    assert InProportion(targets, runtimes, p, j, 0);
    var d := runtimes[j] * targets[0];
    assert d > 0.0 && p[j] * d == p[0] * (runtimes[0] * targets[j]);
    if p[0] != 0.0 {
      Cross(p[j] / p[0], runtimes[j], targets[j], targets[0], runtimes[0]);
      assert p[j] / p[0] * p[0] == p[j];
      CancelFactor(p[j] / p[0] * d, runtimes[0] * targets[j], p[0]);
    }
  }

  lemma CancelFactor(a: real, b: real, c: real)
    requires c != 0.0 && a * c == b * c
    ensures a == b
  {
  }

  lemma {:induction false} SumIsZero(s: seq<real>)
    requires forall i :: 0 <= i < |s| ==> s[i] == 0.0
    ensures Sum(s) == 0.0
    decreases |s|
  {
    if s != [] {
      SumIsZero(s[..|s| - 1]);
    }
  }

  /** Only the relation of the runtimes counts, not their unit. */
  lemma FairScales(targets: seq<real>, runtimes: seq<real>, d: real, p: seq<real>)
    requires d > 0.0
    ensures Fair(targets, Divided(runtimes, d), p) <==> Fair(targets, runtimes, p)
  {
    if |p| == |targets| == |runtimes| {
      var q := Divided(runtimes, d);
      forall i: nat, j: nat | i < |p| && j < |p|
        ensures InProportion(targets, q, p, i, j) <==> InProportion(targets, runtimes, p, i, j)
      {
        var a, b := p[i] * runtimes[i] * targets[j], p[j] * runtimes[j] * targets[i];
        assert p[i] * q[i] * targets[j] == a / d;
        assert p[j] * q[j] * targets[i] == b / d;
        assert a / d == b / d <==> a == b;
      }
    }
  }

  /** The shortcut for runtimes that are all one agrees with the general case. */
  lemma ShortcutIsFair(targets: seq<real>, runtimes: seq<real>)
    requires Usable(targets, runtimes) && forall i :: 0 <= i < |runtimes| ==> runtimes[i] == 1.0
    ensures Sum(targets) > 0.0 && Fair(targets, runtimes, Divided(targets, Sum(targets)))
  {
    SumIsPositive(targets);
    SumDivided(targets, Sum(targets));
    Quotient(Sum(targets), Sum(targets));
    var p := Divided(targets, Sum(targets));
    forall i: nat, j: nat | i < |p| && j < |p| ensures InProportion(targets, runtimes, p, i, j) {
      Commute(targets[i], targets[j], Sum(targets));
    }
  }

  lemma Commute(a: real, b: real, d: real)
    requires d != 0.0
    ensures a / d * 1.0 * b == b / d * 1.0 * a
  {
    assert a / d * b == a * b / d;
    assert b / d * a == b * a / d;
  }

  /** A benchmark has a positive probability exactly if its target is positive. */
  lemma FairIsPositive(targets: seq<real>, runtimes: seq<real>, p: seq<real>, j: nat)
    requires Usable(targets, runtimes) && Fair(targets, runtimes, p) && j < |p|
    ensures 0.0 <= p[j] && (p[j] > 0.0 <==> targets[j] > 0.0)
  {
    FairIsUnique(targets, runtimes, p);
    RelativeIsPositive(targets, runtimes, j);
    Quotient(Relative(targets, runtimes, j), Sum(Relatives(targets, runtimes)));
  }

  // ---- The program

  /** The probabilities, unless the lists do not match. Without benchmarks there is still one, for the
      reference that does not exist. */
  method AdjustProbabilities(targets: seq<real>, runtimes: seq<real>) returns (p: Option<seq<real>>)
    requires |targets| == |runtimes| > 0 ==> Usable(targets, runtimes)
    ensures p.None? <==> |targets| != |runtimes|
    ensures |targets| == |runtimes| == 0 ==> p == Some([1.0])
    ensures |targets| == |runtimes| > 0 ==> Fair(targets, runtimes, p.value)
  {
    if |targets| != |runtimes| {
      return None;
    }
    var probabilities := [1.0];
    ghost var n := if targets == [] then 1 else |targets|;
    if targets != [] {
      RelativeIsPositive(targets, runtimes, 0);
    }
    var j := 1;
    while j < |targets|
      invariant 1 <= j <= n && |probabilities| == j
      invariant targets != [] ==> forall i: nat :: i < j ==> probabilities[i] == Relative(targets, runtimes, i)
      invariant targets == [] ==> probabilities == [1.0]
    {
      assert runtimes[j] * targets[0] > 0.0;
      probabilities := probabilities + [runtimes[0] * targets[j] / (runtimes[j] * targets[0])];
      j := j + 1;
    }
    if targets == [] {
      assert Sum([1.0]) == 1.0 && Divided([1.0], 1.0) == [1.0];
    } else {
      assert probabilities == Relatives(targets, runtimes);
      NormalizedIsFair(targets, runtimes);
    }
    return Some(Divided(probabilities, Sum(probabilities)));
  }

  /** The wall times of the last ten runs. The first entry of a history is no run. */
  function Recent(times: seq<real>): (recent: seq<real>)
    requires times != []
    ensures recent == [] <==> |times| == 1
  {
    if |times| <= 11 then times[1..] else times[|times| - 10..]
  }

  function Mean(s: seq<real>): real
    requires s != []
  {
    Sum(s) / |s| as real
  }

  predicate IsHistory(histories: seq<seq<real>>) {
    && (forall i :: 0 <= i < |histories| ==> histories[i] != [])
    && forall i, k :: 0 <= i < |histories| && 0 <= k < |histories[i]| ==> histories[i][k] > 0.0
  }

  /** The last of the first `n` benchmarks that has run, if there is one. */
  function LastValid(histories: seq<seq<real>>, n: nat): (v: Option<nat>)
    requires n <= |histories|
    ensures v.Some? ==> v.value < n && |histories[v.value]| > 1
    ensures forall i :: 0 <= i < n && (v.None? || v.value < i) ==> |histories[i]| <= 1
  {
    if n == 0 then None
    else if |histories[n - 1]| > 1 then Some(n - 1)
    else LastValid(histories, n - 1)
  }

  /** The runtime before the adjustment: the mean of the last runs, or the first entry for want of runs. */
  function Unadjusted(times: seq<real>): real
    requires times != []
  {
    if |times| > 1 then Mean(Recent(times)) else times[0]
  }

  /** The runtime that is expected of a benchmark: the mean of its last runs; for one that has not run, its
      first entry in units of the last benchmark that has. */
  function ExpectedRuntime(histories: seq<seq<real>>, i: nat): real
    requires IsHistory(histories) && i < |histories|
  {
    Expected(histories[i], LastHistory(histories))
  }

  /** The history of the last benchmark that has run, or one that says nothing. */
  function LastHistory(histories: seq<seq<real>>): seq<real>
  {
    var v := LastValid(histories, |histories|);
    if v.None? then [] else histories[v.value]
  }

  function InUnits(x: real, unit: real): real {
    x * unit
  }

  function Expected(times: seq<real>, last: seq<real>): real
    requires times != []
  {
    if |times| > 1 || last == [] then Unadjusted(times) else InUnits(Unadjusted(times), Unadjusted(last))
  }

  lemma UnadjustedIsPositive(times: seq<real>)
    requires times != [] && forall k :: 0 <= k < |times| ==> times[k] > 0.0
    ensures Unadjusted(times) > 0.0
  {
    if |times| > 1 {
      SumIsPositive(Recent(times));
      Quotient(Sum(Recent(times)), |Recent(times)| as real);
    }
  }

  method AdjustRuntime(histories: seq<seq<real>>) returns (runtimes: seq<real>)
    requires IsHistory(histories)
    ensures |runtimes| == |histories|
    ensures forall i: nat :: i < |histories| ==> runtimes[i] == ExpectedRuntime(histories, i) > 0.0
  {
    var valid, needAdjustment;
    runtimes, valid, needAdjustment := FirstPass(histories);
    if valid.Some? {
      runtimes := SecondPass(histories, runtimes, needAdjustment, valid.value);
    }
    forall i: nat | i < |histories| ensures runtimes[i] == ExpectedRuntime(histories, i) > 0.0 {
      UnadjustmentAt(histories, |histories|, i);
      if valid.Some? {
        UnadjustmentAt(histories, |histories|, valid.value);
      }
      ExpectedRuntimeIsPositive(histories, i);
    }
  }

  lemma ExpectedRuntimeIsPositive(histories: seq<seq<real>>, i: nat)
    requires IsHistory(histories) && i < |histories|
    ensures ExpectedRuntime(histories, i) > 0.0
  {
    ExpectedIsPositive(histories[i], LastHistory(histories));
  }

  /** Puts those that have not run in units of the last one that has. */
  method SecondPass(histories: seq<seq<real>>, before: seq<real>, needAdjustment: seq<nat>, valid: nat)
    returns (runtimes: seq<real>)
    requires |before| == |histories| && valid < |histories| && |histories[valid]| > 1
    requires needAdjustment == NotRun(histories, |histories|)
    ensures |runtimes| == |histories|
    ensures forall k: nat :: k < |histories| ==>
      runtimes[k] == if |histories[k]| <= 1 then InUnits(before[k], before[valid]) else before[k]
  {
    NotRunInRange(histories, |histories|);
    runtimes := ScaleAt(before, needAdjustment, valid);
    forall k: nat | k < |histories| ensures k in needAdjustment <==> |histories[k]| <= 1 {
      NotRunIff(histories, k);
    }
  }

  lemma NotRunInRange(histories: seq<seq<real>>, n: nat)
    requires n <= |histories|
    ensures Ascending(NotRun(histories, n)) && forall m :: 0 <= m < |NotRun(histories, n)| ==> NotRun(histories, n)[m] < n
    ensures forall k: nat :: k < n && |histories[k]| > 1 ==> k !in NotRun(histories, n)
  {
    NotRunMembers(histories, n);
    var s := NotRun(histories, n);
    forall m | 0 <= m < |s| ensures s[m] < n {
      assert s[m] in s;
    }
  }

  lemma NotRunIff(histories: seq<seq<real>>, i: nat)
    requires i < |histories|
    ensures i in NotRun(histories, |histories|) <==> |histories[i]| <= 1
  {
    NotRunMembers(histories, |histories|);
  }

  lemma ExpectedIsPositive(times: seq<real>, last: seq<real>)
    requires times != [] && forall k :: 0 <= k < |times| ==> times[k] > 0.0
    requires forall k :: 0 <= k < |last| ==> last[k] > 0.0
    ensures Expected(times, last) > 0.0
  {
    UnadjustedIsPositive(times);
    if last != [] {
      UnadjustedIsPositive(last);
      ProductIsPositive(Unadjusted(times), Unadjusted(last));
    }
  }

  lemma ProductIsPositive(a: real, b: real)
    requires a > 0.0 && b > 0.0
    ensures InUnits(a, b) > 0.0
  {
  }

  /** Those of the first `n` benchmarks that have not run. */
  function NotRun(histories: seq<seq<real>>, n: nat): (indices: seq<nat>)
    requires n <= |histories|
  {
    if n == 0 then [] else NotRun(histories, n - 1) + if |histories[n - 1]| <= 1 then [n - 1] else []
  }

  lemma {:induction false} NotRunMembers(histories: seq<seq<real>>, n: nat)
    requires n <= |histories|
    ensures forall k: nat :: k in NotRun(histories, n) <==> k < n && |histories[k]| <= 1
    ensures Ascending(NotRun(histories, n))
    decreases n
  {
    if n > 0 {
      NotRunMembers(histories, n - 1);
      var before := NotRun(histories, n - 1);
      forall m | 0 <= m < |before| ensures before[m] < n - 1 {
        assert before[m] in before;
      }
    }
  }

  function Unadjustments(histories: seq<seq<real>>, n: nat): (runtimes: seq<real>)
    requires n <= |histories| && forall i :: 0 <= i < |histories| ==> histories[i] != []
    ensures |runtimes| == n
  {
    if n == 0 then [] else Unadjustments(histories, n - 1) + [Unadjusted(histories[n - 1])]
  }

  lemma {:induction false} UnadjustmentAt(histories: seq<seq<real>>, n: nat, k: nat)
    requires k < n <= |histories| && forall i :: 0 <= i < |histories| ==> histories[i] != []
    ensures Unadjustments(histories, n)[k] == Unadjusted(histories[k])
    decreases n
  {
    if k < n - 1 {
      UnadjustmentAt(histories, n - 1, k);
    }
  }

  /** The runtimes before the adjustment, the last benchmark that has run, and those that have not. */
  method FirstPass(histories: seq<seq<real>>)
    returns (runtimes: seq<real>, valid: Option<nat>, needAdjustment: seq<nat>)
    requires forall k :: 0 <= k < |histories| ==> histories[k] != []
    ensures runtimes == Unadjustments(histories, |histories|)
    ensures valid == LastValid(histories, |histories|)
    ensures needAdjustment == NotRun(histories, |histories|)
  {
    runtimes, valid, needAdjustment := [], None, [];
    for i := 0 to |histories|
      invariant runtimes == Unadjustments(histories, i)
      invariant valid == LastValid(histories, i)
      invariant needAdjustment == NotRun(histories, i)
    {
      var runtime, hasRun := Measure(histories[i]);
      runtimes := runtimes + [runtime];
      if hasRun {
        valid := Some(i);
      } else {
        needAdjustment := needAdjustment + [i];
      }
    }
  }

  method Measure(times: seq<real>) returns (runtime: real, hasRun: bool)
    requires times != []
    ensures runtime == Unadjusted(times) && (hasRun <==> |times| > 1)
  {
    var recent := Recent(times);
    hasRun := recent != [];
    runtime := if hasRun then Mean(recent) else times[0];
  }

  predicate Ascending(s: seq<nat>) {
    forall m, m' :: 0 <= m < m' < |s| ==> s[m] < s[m']
  }

  /** Multiplies the runtimes at some indices by the one at `valid`. */
  method ScaleAt(before: seq<real>, indices: seq<nat>, valid: nat) returns (runtimes: seq<real>)
    requires valid < |before| && valid !in indices && Ascending(indices)
    requires forall m :: 0 <= m < |indices| ==> indices[m] < |before|
    ensures |runtimes| == |before|
    ensures forall k: nat :: k < |before| ==> runtimes[k] == if k in indices then InUnits(before[k], before[valid]) else before[k]
  {
    runtimes := before;
    for m := 0 to |indices|
      invariant |runtimes| == |before|
      invariant forall k: nat :: k < |before| ==>
        runtimes[k] == if k in indices[..m] then InUnits(before[k], before[valid]) else before[k]
    {
      var index := indices[m];
      assert index !in indices[..m] && valid !in indices[..m];
      assert indices[..m + 1] == indices[..m] + [index];
      runtimes := runtimes[index := InUnits(runtimes[index], runtimes[valid])];
    }
    assert indices[..|indices|] == indices;
  }

  function ExpectedRuntimes(histories: seq<seq<real>>): (runtimes: seq<real>)
    requires IsHistory(histories)
  {
    seq(|histories|, (i: nat) requires i < |histories| => ExpectedRuntime(histories, i))
  }

  /** The probabilities for the next choice are the fair ones for the expected runtimes, on either branch. */
  method ComputeBenchmarkWeights(targets: seq<real>, histories: seq<seq<real>>) returns (p: seq<real>)
    requires IsHistory(histories) && |histories| == |targets| > 0 && targets[0] > 0.0
    requires forall i :: 0 <= i < |targets| ==> targets[i] >= 0.0
    ensures Usable(targets, ExpectedRuntimes(histories)) && Fair(targets, ExpectedRuntimes(histories), p)
  {
    var current := AdjustRuntime(histories);
    assert current == ExpectedRuntimes(histories);
    if exists i :: 0 <= i < |current| && current[i] != 1.0 {
      SumIsPositive(current);
      var ratios := Divided(current, Sum(current));
      forall i | 0 <= i < |ratios| ensures ratios[i] > 0.0 {
        Quotient(current[i], Sum(current));
      }
      var res := AdjustProbabilities(targets, ratios);
      p := res.value;
      FairScales(targets, current, Sum(current), p);
    } else {
      ShortcutIsFair(targets, current);
      p := Divided(targets, Sum(targets));
    }
  }
}
