/**
  Sampling operation sizes from a distribution: the samples follow the quantiles of the distribution and are
  then repaired from the back until their total is the expected one.

  Percentages are real numbers here; the 32-bit conversions of the repair are exact.
 */
module SizeSampler {
  import opened Wrappers
  import opened BlockLru
  import opened Numbers

  datatype Entry = Entry(size: int, percentage: real)

  /** A distribution is ordered by size. */
  predicate IsDistribution(dist: seq<Entry>) {
    && (forall i :: 0 <= i < |dist| ==> dist[i].size >= 0 && dist[i].percentage >= 0.0)
    && (forall i, j :: 0 <= i < j < |dist| ==> dist[i].size < dist[j].size)
    && Cumulative(dist, |dist|) > 0.0
  }

  /** The sum of the first `i` percentages. */
  function Cumulative(dist: seq<Entry>, i: nat): real
    requires i <= |dist|
  {
    if i == 0 then 0.0 else Cumulative(dist, i - 1) + dist[i - 1].percentage
  }

  function Clip(size: int, maxSize: nat): int {
    if size < maxSize then size else maxSize
  }

  // ---- The quantiles

  function Scaled(n: nat, part: real, total: real): real
    requires total > 0.0
  {
    n as real * part / total
  }

  /** How many of the samples belong to the first `i` entries, as a fraction. */
  function Share(dist: seq<Entry>, n: nat, i: nat): real
    requires i <= |dist| && IsDistribution(dist)
  {
    Scaled(n, Cumulative(dist, i), Cumulative(dist, |dist|))
  }

  lemma {:induction false} CumulativeGrows(dist: seq<Entry>, i: nat, j: nat)
    requires IsDistribution(dist) && i <= j <= |dist|
    ensures Cumulative(dist, i) <= Cumulative(dist, j)
    decreases j
  {
    if i < j {
      CumulativeGrows(dist, i, j - 1);
    }
  }

  lemma ScaleGrows(n: nat, a: real, b: real, total: real)
    requires a <= b && total > 0.0
    ensures Scaled(n, a, total) <= Scaled(n, b, total)
  {
    assert n as real * a <= n as real * b;
  }

  lemma ShareGrows(dist: seq<Entry>, n: nat, i: nat, j: nat)
    requires IsDistribution(dist) && i <= j <= |dist|
    ensures Share(dist, n, i) <= Share(dist, n, j)
  {
    CumulativeGrows(dist, i, j);
    ScaleGrows(n, Cumulative(dist, i), Cumulative(dist, j), Cumulative(dist, |dist|));
  }

  lemma ShareEnds(dist: seq<Entry>, n: nat)
    requires IsDistribution(dist)
    ensures Share(dist, n, 0) == 0.0 && Share(dist, n, |dist|) == n as real
  {
    var total := Cumulative(dist, |dist|);
    assert n as real * total / total == n as real;
  }

  /** The first `i` entries cover sample `k`. */
  predicate Covers(dist: seq<Entry>, n: nat, i: nat, k: nat)
    requires i <= |dist| && IsDistribution(dist)
  {
    Share(dist, n, i) - k as real > 0.999
  }

  /** The entry with which the entries start to cover sample `k`. */
  predicate Starts(dist: seq<Entry>, n: nat, i: nat, k: nat)
    requires i < |dist| && IsDistribution(dist)
  {
    !Covers(dist, n, i, k) && Covers(dist, n, i + 1, k)
  }

  /** Sample `k` is the quantile at `k + 0.999`: its size is that of the entry that starts to cover it. */
  ghost predicate IsQuantile(dist: seq<Entry>, maxSize: nat, n: nat, k: nat, sample: int)
    requires IsDistribution(dist)
  {
    exists i: nat :: i < |dist| && Starts(dist, n, i, k) && sample == Clip(dist[i].size, maxSize)
  }

  lemma StartIsQuantile(dist: seq<Entry>, maxSize: nat, n: nat, k: nat, i: nat)
    requires IsDistribution(dist) && i < |dist| && Starts(dist, n, i, k)
    ensures IsQuantile(dist, maxSize, n, k, Clip(dist[i].size, maxSize)) && 0 <= Clip(dist[i].size, maxSize) <= maxSize
  {
  }

  lemma StartsInOrder(dist: seq<Entry>, n: nat, j: nat, k: nat, p: nat, q: nat)
    requires IsDistribution(dist) && j <= k && p < |dist| && q < |dist|
    requires Starts(dist, n, p, j) && Starts(dist, n, q, k)
    ensures p <= q
  {
    if q < p {
      ShareGrows(dist, n, q + 1, p);
    }
  }

  lemma ClipGrows(dist: seq<Entry>, maxSize: nat, p: nat, q: nat)
    requires IsDistribution(dist) && p <= q < |dist|
    ensures Clip(dist[p].size, maxSize) <= Clip(dist[q].size, maxSize)
  {
    assert p < q ==> dist[p].size < dist[q].size;
  }

  /** Later quantiles are no smaller. */
  lemma QuantilesAscend(dist: seq<Entry>, maxSize: nat, n: nat, j: nat, k: nat, a: int, b: int)
    requires IsDistribution(dist) && j <= k
    requires IsQuantile(dist, maxSize, n, j, a) && IsQuantile(dist, maxSize, n, k, b)
    ensures a <= b
  {
    var p: nat :| p < |dist| && Starts(dist, n, p, j) && a == Clip(dist[p].size, maxSize);
    var q: nat :| q < |dist| && Starts(dist, n, q, k) && b == Clip(dist[q].size, maxSize);
    StartsInOrder(dist, n, j, k, p, q);
    ClipGrows(dist, maxSize, p, q);
  }

  /** There is one value for each quantile, so the quantiles determine the samples. */
  lemma QuantileIsUnique(dist: seq<Entry>, maxSize: nat, n: nat, k: nat, a: int, b: int)
    requires IsDistribution(dist)
    requires IsQuantile(dist, maxSize, n, k, a) && IsQuantile(dist, maxSize, n, k, b)
    ensures a == b
  {
    QuantilesAscend(dist, maxSize, n, k, k, a, b);
    QuantilesAscend(dist, maxSize, n, k, k, b, a);
  }

  /** How many samples there are after each entry: the share of the entries so far, rounded. */
  ghost predicate AreCounts(dist: seq<Entry>, n: nat, counts: seq<nat>)
    requires IsDistribution(dist)
  {
    && |counts| == |dist| + 1 && counts[0] == 0 && counts[|dist|] == n
    && forall i: nat :: i <= |dist| ==> Rounded(dist, n, i, counts[i])
  }

  ghost predicate AreQuantiles(dist: seq<Entry>, maxSize: nat, n: nat, samples: seq<int>)
    requires IsDistribution(dist)
  {
    |samples| == n && forall k: nat :: k < n ==> IsQuantile(dist, maxSize, n, k, samples[k])
  }

  /** The first `k` places hold their quantiles. */
  ghost predicate Filled(dist: seq<Entry>, maxSize: nat, n: nat, samples: seq<int>, k: nat)
    requires IsDistribution(dist)
  {
    && |samples| == n && k <= n
    && forall j: nat :: j < k ==> IsQuantile(dist, maxSize, n, j, samples[j]) && 0 <= samples[j] <= maxSize
  }

  lemma FillOne(dist: seq<Entry>, maxSize: nat, n: nat, samples: seq<int>, k: nat, i: nat)
    requires IsDistribution(dist) && Filled(dist, maxSize, n, samples, k) && k < n && i < |dist| && Starts(dist, n, i, k)
    ensures Filled(dist, maxSize, n, samples[k := Clip(dist[i].size, maxSize)], k + 1)
  {
    StartIsQuantile(dist, maxSize, n, k, i);
  }

  /** The number of samples after some entries is the rounded share. */
  predicate Rounded(dist: seq<Entry>, n: nat, i: nat, k: nat)
    requires IsDistribution(dist) && i <= |dist|
  {
    -0.001 < Share(dist, n, i) - k as real <= 0.999
  }

  lemma RoundedStarts(dist: seq<Entry>, n: nat, i: nat, low: nat, k: nat)
    requires IsDistribution(dist) && i < |dist| && Rounded(dist, n, i, low) && low <= k
    requires Share(dist, n, i + 1) - k as real > 0.999
    ensures Starts(dist, n, i, k) && k < n
    ensures -0.001 < Share(dist, n, i + 1) - (k + 1) as real
  {
    ShareGrows(dist, n, i + 1, |dist|);
    ShareEnds(dist, n);
  }

  /** The samples of one entry: the inner loop. */
  method Emit(dist: seq<Entry>, maxSize: nat, n: nat, i: nat, cum: real, total: real, samples: array<int>, low: nat)
    returns (k: nat)
    requires IsDistribution(dist) && i < |dist| && cum == Cumulative(dist, i + 1) && total == Cumulative(dist, |dist|)
    requires samples.Length == n && Filled(dist, maxSize, n, samples[..], low) && Rounded(dist, n, i, low)
    modifies samples
    ensures Filled(dist, maxSize, n, samples[..], k) && Rounded(dist, n, i + 1, k) && low <= k
  {
    k := low;
    ShareGrows(dist, n, i, i + 1);
    while Scaled(n, cum, total) - k as real > 0.999
      invariant low <= k && Filled(dist, maxSize, n, samples[..], k)
      invariant -0.001 < Share(dist, n, i + 1) - k as real
      decreases n - k
    {
      RoundedStarts(dist, n, i, low, k);
      FillOne(dist, maxSize, n, samples[..], k, i);
      samples[k] := Clip(dist[i].size, maxSize);
      k := k + 1;
    }
  }

  /** The samples before the repair. Every one of the `n` places is written, in order, with its quantile, and
      after each entry the number of samples so far is within a thousandth of being rounded down. */
  method Apportion(dist: seq<Entry>, maxSize: nat, n: nat) returns (samples: array<int>, ghost counts: seq<nat>)
    requires IsDistribution(dist)
    ensures fresh(samples) && samples.Length == n
    ensures AreQuantiles(dist, maxSize, n, samples[..]) && AllWithin(samples[..], maxSize)
    ensures forall j: nat, k: nat :: j < k < n ==> samples[j] <= samples[k]
    ensures AreCounts(dist, n, counts)
  {
    samples := new int[n];
    var total := Total(dist);
    var cum, k: nat := 0.0, 0;
    counts := [0];
    ShareEnds(dist, n);
    for i := 0 to |dist|
      invariant cum == Cumulative(dist, i)
      invariant |counts| == i + 1 && counts[0] == 0 && counts[i] == k
      invariant forall j: nat :: j <= i ==> Rounded(dist, n, j, counts[j])
      invariant Filled(dist, maxSize, n, samples[..], k)
    {
      cum := cum + dist[i].percentage;
      k := Emit(dist, maxSize, n, i, cum, total, samples, k);
      counts := counts + [k];
    }
    AllAscend(dist, maxSize, n, samples[..]);
  }

  lemma AllAscend(dist: seq<Entry>, maxSize: nat, n: nat, samples: seq<int>)
    requires IsDistribution(dist) && AreQuantiles(dist, maxSize, n, samples)
    ensures forall j: nat, k: nat :: j < k < n ==> samples[j] <= samples[k]
  {
    forall j: nat, k: nat | j < k < n ensures samples[j] <= samples[k] {
      QuantilesAscend(dist, maxSize, n, j, k, samples[j], samples[k]);
    }
  }

  method Total(dist: seq<Entry>) returns (total: real)
    ensures total == Cumulative(dist, |dist|)
  {
    total := 0.0;
    for i := 0 to |dist|
      invariant total == Cumulative(dist, i)
    {
      total := total + dist[i].percentage;
    }
  }

  // ---- The repair

  /** The narrowing conversion from 64 to 32 bits. */
  function ToInt32(x: int): (y: int)
    ensures INT32_MIN <= y <= INT32_MAX
    ensures INT32_MIN <= x <= INT32_MAX ==> y == x
  {
    (x - INT32_MIN) % TWO_TO_32 + INT32_MIN
  }

  function Sum(s: seq<int>): int {
    if s == [] then 0 else Sum(s[..|s| - 1]) + s[|s| - 1]
  }

  /** A sample after its step of the repair, when the total exceeds the expected one by `excess`. */
  function Step(sample: int, maxSize: nat, excess: int): int {
    if excess > 0 then
      var lowered := ToInt32(sample - excess);
      if lowered > 0 then lowered else 0
    else
      Clip(ToInt32(sample - excess), maxSize)
  }

  /** The repair turns `s` into `t`, from the last sample to the first: `excesses[j + 1]` is the excess before
      the step of sample `j` and `excesses[j]` the one after it. Without an excess samples stay as they are. */
  ghost predicate Repair(s: seq<int>, t: seq<int>, excesses: seq<int>, maxSize: nat) {
    && |t| == |s| && |excesses| == |s| + 1
    && forall j: nat :: j < |t| ==> RepairStep(s[j], t[j], excesses[j + 1], excesses[j], maxSize)
  }

  ghost predicate RepairStep(before: int, after: int, excess: int, left: int, maxSize: nat) {
    && after == (if excess == 0 then before else Step(before, maxSize, excess))
    && left == excess - before + after
  }

  /** The samples and the first excess determine the result. */
  lemma {:induction false} RepairIsUnique(s: seq<int>, t: seq<int>, t': seq<int>, e: seq<int>, e': seq<int>, maxSize: nat, j: nat)
    requires Repair(s, t, e, maxSize) && Repair(s, t', e', maxSize) && e[|s|] == e'[|s|] && j <= |s|
    ensures e[j] == e'[j] && (j < |s| ==> t[j] == t'[j])
    decreases |s| - j
  {
    if j < |s| {
      RepairIsUnique(s, t, t', e, e', maxSize, j + 1);
      assert RepairStep(s[j], t[j], e[j + 1], e[j], maxSize);
      assert RepairStep(s[j], t'[j], e'[j + 1], e'[j], maxSize);
    }
  }

  lemma {:induction false} SumAppend(a: seq<int>, b: seq<int>)
    ensures Sum(a + b) == Sum(a) + Sum(b)
    decreases |b|
  {
    if b == [] {
      assert a + b == a;
    } else {
      assert (a + b)[..|a + b| - 1] == a + b[..|b| - 1];
      SumAppend(a, b[..|b| - 1]);
    }
  }

  /** The repair in place. It tells whether the final check holds. */
  method RepairTotal(a: array<int>, maxSize: nat, expected: int) returns (ok: bool, ghost excesses: seq<int>)
    requires maxSize <= INT32_MAX
    modifies a
    ensures Repair(old(a[..]), a[..], excesses, maxSize)
    ensures excesses[a.Length] == Sum(old(a[..])) - expected
    ensures ok <==> Sum(a[..]) == expected
  {
    ghost var was := a[..];
    var actual := Accumulate(a);
    var i := a.Length;
    ghost var done, start := [], actual - expected;
    excesses := [start];
    while i > 0
      invariant 0 <= i <= a.Length && Partly(was, i, a[..], done, excesses, maxSize)
      invariant excesses[0] == actual - expected && excesses[|done|] == start
    {
      var oldBytes := a[i - 1];
      if actual == expected {
        break;
      }
      var newBytes := Adjust(oldBytes, maxSize, actual, expected);
      OneMoreStep(was, i, a[..], done, excesses, maxSize);
      a[i - 1] := newBytes;
      actual := actual - oldBytes + newBytes;
      done, excesses := [newBytes] + done, [actual - expected] + excesses;
      i := i - 1;
    }
    excesses := AllSteps(was, i, a[..], done, excesses, maxSize);
    return actual == expected, excesses;
  }

  /** The samples from `i` on are repaired, the ones before it are as they were. */
  ghost predicate Partly(was: seq<int>, i: nat, now: seq<int>, done: seq<int>, excesses: seq<int>, maxSize: nat) {
    && i <= |was| && now == was[..i] + done
    && Repair(was[i..], done, excesses, maxSize)
  }

  lemma OneMoreStep(was: seq<int>, i: nat, now: seq<int>, done: seq<int>, excesses: seq<int>, maxSize: nat)
    requires Partly(was, i, now, done, excesses, maxSize) && i > 0 && excesses[0] != 0
    ensures |now| == |was| && now[i - 1] == was[i - 1]
    ensures var after := Step(was[i - 1], maxSize, excesses[0]);
            Partly(was, i - 1, now[i - 1 := after], [after] + done, [excesses[0] - was[i - 1] + after] + excesses, maxSize)
  {
    var before, after := was[i - 1], Step(was[i - 1], maxSize, excesses[0]);
    var s := was[i..];
    var b, a, e := [before] + s, [after] + done, [excesses[0] - before + after] + excesses;
    assert was[i - 1..] == b;
    assert now[i - 1 := after] == was[..i - 1] + a;
    forall j: nat | j < |a| ensures RepairStep(b[j], a[j], e[j + 1], e[j], maxSize) {
      if j > 0 {
        assert RepairStep(s[j - 1], done[j - 1], excesses[j - 1 + 1], excesses[j - 1], maxSize);
      }
    }
  }

  lemma AllSteps(was: seq<int>, i: nat, now: seq<int>, done: seq<int>, excesses: seq<int>, maxSize: nat)
    returns (all: seq<int>)
    requires Partly(was, i, now, done, excesses, maxSize) && (i == 0 || excesses[0] == 0)
    ensures Repair(was, now, all, maxSize) && all[|was|] == excesses[|done|]
    ensures Sum(now) - Sum(was) == excesses[0] - excesses[|done|]
  {
    all := seq(i, _ => 0) + excesses;
    assert was == was[..i] + was[i..];
    RestIsKept(was[..i], was[i..], done, excesses, maxSize);
    RepairChangesTotal(was, now, all, maxSize);
  }

  /** Without an excess the samples that the loop has not reached are repaired already. */
  lemma RestIsKept(rest: seq<int>, s: seq<int>, t: seq<int>, excesses: seq<int>, maxSize: nat)
    requires Repair(s, t, excesses, maxSize) && (rest == [] || excesses[0] == 0)
    ensures Repair(rest + s, rest + t, seq(|rest|, _ => 0) + excesses, maxSize)
  {
    var before, after, e := rest + s, rest + t, seq(|rest|, _ => 0) + excesses;
    forall j: nat | j < |after| ensures RepairStep(before[j], after[j], e[j + 1], e[j], maxSize) {
      if j >= |rest| {
        assert RepairStep(s[j - |rest|], t[j - |rest|], excesses[j - |rest| + 1], excesses[j - |rest|], maxSize);
      }
    }
  }

  method Adjust(oldBytes: int, maxSize: nat, actual: int, expected: int) returns (newBytes: int)
    requires actual != expected
    ensures newBytes == Step(oldBytes, maxSize, actual - expected)
  {
    if actual > expected {
      var lowered := ToInt32(oldBytes - (actual - expected));
      newBytes := if lowered > 0 then lowered else 0;
    } else {
      var raised := ToInt32(oldBytes + (expected - actual));
      newBytes := if raised < maxSize then raised else maxSize;
    }
  }

  lemma {:induction false} TotalUpTo(s: seq<int>, t: seq<int>, excesses: seq<int>, maxSize: nat, j: nat)
    requires Repair(s, t, excesses, maxSize) && j <= |s|
    ensures Sum(t[..j]) - Sum(s[..j]) == excesses[0] - excesses[j]
    decreases j
  {
    if j > 0 {
      TotalUpTo(s, t, excesses, maxSize, j - 1);
      assert RepairStep(s[j - 1], t[j - 1], excesses[j - 1 + 1], excesses[j - 1], maxSize);
      assert t[..j][..j - 1] == t[..j - 1] && s[..j][..j - 1] == s[..j - 1];
    }
  }

  /** The excess that is left at the end accounts for the change of the total. */
  lemma RepairChangesTotal(s: seq<int>, t: seq<int>, excesses: seq<int>, maxSize: nat)
    requires Repair(s, t, excesses, maxSize)
    ensures Sum(t) == Sum(s) - excesses[|s|] + excesses[0]
  {
    TotalUpTo(s, t, excesses, maxSize, |s|);
    assert s[..|s|] == s && t[..|t|] == t;
  }

  method Accumulate(a: array<int>) returns (sum: int)
    ensures sum == Sum(a[..])
  {
    sum := 0;
    for i := 0 to a.Length
      invariant sum == Sum(a[..i])
    {
      assert a[..i + 1][..i] == a[..i];
      sum := sum + a[i];
    }
    assert a[..a.Length] == a[..];
  }

  // ---- What the repair achieves

  predicate AllWithin(s: seq<int>, maxSize: nat) {
    forall i :: 0 <= i < |s| ==> 0 <= s[i] <= maxSize
  }

  function Clamp(x: int, low: int, high: int): int {
    if x < low then low else if x > high then high else x
  }

  /** The conversion in the first step of the repair changes nothing. */
  predicate FirstStepFits(s: seq<int>, excess: int) {
    s == [] || excess == 0 || INT32_MIN <= s[|s| - 1] - excess <= INT32_MAX
  }

  /** An excess whose steps fit whatever the sample. */
  predicate Harmless(excess: int, maxSize: nat) {
    INT32_MIN <= -excess && maxSize - excess <= INT32_MAX
  }

  /** One step that fits: it goes as far as the limits allow and leaves an excess of the same sign, for which
      all steps fit. */
  lemma FittingStep(before: int, after: int, excess: int, left: int, maxSize: nat)
    requires RepairStep(before, after, excess, left, maxSize) && 0 <= before <= maxSize <= INT32_MAX
    requires INT32_MIN <= before - excess <= INT32_MAX
    ensures after == Clamp(before - excess, 0, maxSize) && Harmless(left, maxSize)
    ensures if excess >= 0 then 0 <= left <= excess else excess <= left <= 0
    ensures left != 0 ==> after == Limit(excess, maxSize)
  {
    assert ToInt32(before - excess) == before - excess;
  }

  function Limit(excess: int, maxSize: nat): int {
    if excess > 0 then 0 else maxSize
  }

  /** If the first step fits, so do all others; every sample moves towards its limit, and the excess towards
      zero without crossing it. */
  lemma {:induction false} AllStepsFit(s: seq<int>, t: seq<int>, excesses: seq<int>, maxSize: nat, j: nat)
    requires Repair(s, t, excesses, maxSize) && AllWithin(s, maxSize) && maxSize <= INT32_MAX
    requires FirstStepFits(s, excesses[|s|]) && j <= |s|
    ensures var excess := excesses[|s|];
            && (if excess >= 0 then 0 <= excesses[j] <= excess else excess <= excesses[j] <= 0)
            && (j < |s| ==> Harmless(excesses[j], maxSize) && t[j] == Clamp(s[j] - excesses[j + 1], 0, maxSize))
            && (j < |s| && excesses[j] != 0 ==> t[j] == Limit(excess, maxSize))
    decreases |s| - j
  {
    if j < |s| {
      AllStepsFit(s, t, excesses, maxSize, j + 1);
      assert RepairStep(s[j], t[j], excesses[j + 1], excesses[j], maxSize);
      FittingStep(s[j], t[j], excesses[j + 1], excesses[j], maxSize);
    }
  }

  /** Once there is no excess the rest stays as it is. */
  lemma {:induction false} NoExcessStays(s: seq<int>, t: seq<int>, excesses: seq<int>, maxSize: nat, i: nat, j: nat)
    requires Repair(s, t, excesses, maxSize) && i <= j <= |s| && excesses[j] == 0
    ensures excesses[i] == 0
    decreases j
  {
    if i < j {
      assert RepairStep(s[j - 1], t[j - 1], excesses[j - 1 + 1], excesses[j - 1], maxSize);
      NoExcessStays(s, t, excesses, maxSize, i, j - 1);
    }
  }

  lemma MaxTotal(n: nat, maxSize: nat)
    ensures (n + 1) * maxSize == n * maxSize + maxSize && n * maxSize >= 0
  {
  }

  lemma {:induction false} SumWithin(s: seq<int>, maxSize: nat)
    requires AllWithin(s, maxSize)
    ensures 0 <= Sum(s) <= |s| * maxSize
    ensures (forall i :: 0 <= i < |s| ==> s[i] == 0) ==> Sum(s) == 0
    ensures (forall i :: 0 <= i < |s| ==> s[i] == maxSize) ==> Sum(s) == |s| * maxSize
    decreases |s|
  {
    if s != [] {
      SumWithin(s[..|s| - 1], maxSize);
      MaxTotal(|s| - 1, maxSize);
    }
  }

  /** The total becomes the expected one, as far as the limits of the sizes allow. */
  lemma RepairedTotal(s: seq<int>, t: seq<int>, excesses: seq<int>, maxSize: nat)
    requires Repair(s, t, excesses, maxSize) && AllWithin(s, maxSize) && maxSize <= INT32_MAX
    requires FirstStepFits(s, excesses[|s|])
    ensures AllWithin(t, maxSize)
    ensures Sum(t) == Clamp(Sum(s) - excesses[|s|], 0, |s| * maxSize)
  {
    forall j: nat | j < |t|
      ensures 0 <= t[j] <= maxSize && (excesses[0] != 0 ==> t[j] == Limit(excesses[|s|], maxSize))
    {
      AllStepsFit(s, t, excesses, maxSize, j);
      if excesses[j] == 0 {
        NoExcessStays(s, t, excesses, maxSize, 0, j);
      }
    }
    AllStepsFit(s, t, excesses, maxSize, 0);
    SumWithin(s, maxSize);
    SumWithin(t, maxSize);
    RepairChangesTotal(s, t, excesses, maxSize);
  }

  /** Only a suffix changes: behind a changed sample all are at the limit, and no sample moves away from it. */
  lemma RepairedSuffix(s: seq<int>, t: seq<int>, excesses: seq<int>, maxSize: nat, i: nat, j: nat)
    requires Repair(s, t, excesses, maxSize) && AllWithin(s, maxSize) && maxSize <= INT32_MAX
    requires FirstStepFits(s, excesses[|s|]) && i < j < |s| && t[i] != s[i]
    ensures t[j] == Limit(excesses[|s|], maxSize)
    ensures if excesses[|s|] > 0 then t[i] < s[i] else t[i] > s[i]
  {
    AllStepsFit(s, t, excesses, maxSize, i + 1);
    AllStepsFit(s, t, excesses, maxSize, i);
    AllStepsFit(s, t, excesses, maxSize, j);
    assert RepairStep(s[i], t[i], excesses[i + 1], excesses[i], maxSize);
    if excesses[j] == 0 {
      NoExcessStays(s, t, excesses, maxSize, i + 1, j);
    }
  }

  /** For differences below 2^32 the repair is right if and only if its first conversion fits: otherwise it
      leaves a sample that is negative or too large. */
  lemma RepairIsRightIff(s: seq<int>, t: seq<int>, excesses: seq<int>, maxSize: nat)
    requires Repair(s, t, excesses, maxSize) && AllWithin(s, maxSize) && maxSize <= INT32_MAX
    requires maxSize - TWO_TO_32 < excesses[|s|] < TWO_TO_32 - maxSize
    ensures AllWithin(t, maxSize) && Sum(t) == Clamp(Sum(s) - excesses[|s|], 0, |s| * maxSize)
            <==> FirstStepFits(s, excesses[|s|])
  {
    if FirstStepFits(s, excesses[|s|]) {
      RepairedTotal(s, t, excesses, maxSize);
    } else {
      var n := |s| - 1;
      assert RepairStep(s[n], t[n], excesses[n + 1], excesses[n], maxSize);
      WrappedStep(s[n], maxSize, excesses[|s|]);
    }
  }

  lemma WrappedStep(sample: int, maxSize: nat, excess: int)
    requires 0 <= sample <= maxSize <= INT32_MAX && maxSize - TWO_TO_32 < excess < TWO_TO_32 - maxSize
    requires !(INT32_MIN <= sample - excess <= INT32_MAX)
    ensures !(0 <= Step(sample, maxSize, excess) <= maxSize)
  {
    var x := sample - excess;
    assert ToInt32(x) == if excess > 0 then x + TWO_TO_32 else x - TWO_TO_32;
  }

  /** The final check holds exactly if sizes within the limit can have that total at all. */
  lemma CheckHoldsIff(s: seq<int>, t: seq<int>, excesses: seq<int>, maxSize: nat, expected: int)
    requires Repair(s, t, excesses, maxSize) && AllWithin(s, maxSize) && maxSize <= INT32_MAX
    requires excesses[|s|] == Sum(s) - expected && FirstStepFits(s, excesses[|s|])
    ensures Sum(t) == expected <==> 0 <= expected <= |s| * maxSize
  {
    RepairedTotal(s, t, excesses, maxSize);
    MaxTotal(|s|, maxSize);
  }

  // ---- The whole sampler

  /** The sum of sizes times percentages of the first `i` entries. */
  function Weighted(dist: seq<Entry>, i: nat): real
    requires i <= |dist|
  {
    if i == 0 then 0.0 else Weighted(dist, i - 1) + dist[i - 1].size as real * dist[i - 1].percentage
  }

  function ExpectedBytes(dist: seq<Entry>, n: nat): int {
    (n as real * Weighted(dist, |dist|)).Floor
  }

  method ExpectedTotal(dist: seq<Entry>, n: nat) returns (expected: int)
    requires IsDistribution(dist)
    ensures expected == ExpectedBytes(dist, n) && expected >= 0
  {
    var bytes := 0.0;
    for i := 0 to |dist|
      invariant bytes == n as real * Weighted(dist, i) && Weighted(dist, i) >= 0.0
    {
      var e := dist[i];
      assert e.size as real * e.percentage >= 0.0;
      bytes := bytes + n as real * e.size as real * e.percentage;
      Distribute(n as real, Weighted(dist, i), e.size as real, e.percentage);
    }
    return bytes.Floor;
  }

  lemma Distribute(n: real, w: real, size: real, percentage: real)
    ensures n * w + n * size * percentage == n * (w + size * percentage)
  {
  }

  // ---- What the samples add up to before the repair

  function Product(a: real, b: real): real {
    a * b
  }

  /** The sum of clipped sizes times percentages of the first `i` entries. */
  function ClippedWeighted(dist: seq<Entry>, maxSize: nat, i: nat): real
    requires i <= |dist|
  {
    if i == 0 then 0.0
    else ClippedWeighted(dist, maxSize, i - 1) + Product(Clip(dist[i - 1].size, maxSize) as real, dist[i - 1].percentage)
  }

  /** The samples between two counts are those of one entry. */
  lemma SamplesOfEntry(dist: seq<Entry>, maxSize: nat, n: nat, samples: seq<int>, counts: seq<nat>, i: nat)
    requires IsDistribution(dist) && AreCounts(dist, n, counts) && AreQuantiles(dist, maxSize, n, samples) && i < |dist|
    ensures counts[i] <= counts[i + 1] <= n
    ensures forall k: nat :: counts[i] <= k < counts[i + 1] ==> samples[k] == Clip(dist[i].size, maxSize)
  {
    ShareGrows(dist, n, i, i + 1);
    ShareGrows(dist, n, i + 1, |dist|);
    ShareEnds(dist, n);
    forall k: nat | counts[i] <= k < counts[i + 1] ensures samples[k] == Clip(dist[i].size, maxSize) {
      StartIsQuantile(dist, maxSize, n, k, i);
      QuantileIsUnique(dist, maxSize, n, k, samples[k], Clip(dist[i].size, maxSize));
    }
  }

  lemma {:induction false} SumOfEqual(samples: seq<int>, low: nat, high: nat, size: int)
    requires low <= high <= |samples| && forall k: nat :: low <= k < high ==> samples[k] == size
    ensures Sum(samples[..high]) == Sum(samples[..low]) + (high - low) * size
    decreases high
  {
    if low < high {
      SumOfEqual(samples, low, high - 1, size);
      assert samples[..high][..high - 1] == samples[..high - 1];
      assert (high - low) * size == (high - 1 - low) * size + size;
    }
  }

  lemma ScaledStep(n: nat, weighted: real, c: real, cum: real, percentage: real, total: real)
    requires total > 0.0
    ensures Scaled(n, weighted + Product(c, percentage), total)
            == Scaled(n, weighted, total) + Product(c, Scaled(n, cum + percentage, total) - Scaled(n, cum, total))
  {
    var m := n as real / total;
    ScaledIsProduct(n, weighted + Product(c, percentage), total);
    assert m * (weighted + Product(c, percentage)) == m * weighted + m * (c * percentage);
    ScaledIsProduct(n, weighted, total);
    ScaledIsProduct(n, cum + percentage, total);
    ScaledIsProduct(n, cum, total);
    assert m * (c * percentage) == c * (m * percentage);
  }

  lemma ScaledIsProduct(n: nat, part: real, total: real)
    requires total > 0.0
    ensures Scaled(n, part, total) == n as real / total * part
  {
  }

  /** The clipped size of the entry before the i-th. */
  function Previous(dist: seq<Entry>, maxSize: nat, i: nat): real
    requires i <= |dist|
  {
    if i == 0 then 0.0 else Clip(dist[i - 1].size, maxSize) as real
  }

  /** What the first `i` entries contribute beyond their part of the distribution, once the rounding that is
      still open is counted in. */
  function Surplus(dist: seq<Entry>, maxSize: nat, n: nat, samples: seq<int>, counts: seq<nat>, i: nat): real
    requires IsDistribution(dist) && i <= |dist| < |counts| && counts[i] <= |samples|
  {
    Sum(samples[..counts[i]]) as real - Scaled(n, ClippedWeighted(dist, maxSize, i), Cumulative(dist, |dist|))
    + Product(Previous(dist, maxSize, i), Share(dist, n, i) - counts[i] as real)
  }

  lemma SumStep(dist: seq<Entry>, maxSize: nat, n: nat, samples: seq<int>, counts: seq<nat>, i: nat)
    requires IsDistribution(dist) && AreCounts(dist, n, counts) && AreQuantiles(dist, maxSize, n, samples) && i < |dist|
    ensures counts[i] <= counts[i + 1] <= n
    ensures Sum(samples[..counts[i + 1]]) as real
            == Sum(samples[..counts[i]]) as real
               + Product(counts[i + 1] as real - counts[i] as real, Previous(dist, maxSize, i + 1))
  {
    var k, k', c := counts[i], counts[i + 1], Clip(dist[i].size, maxSize);
    SamplesOfEntry(dist, maxSize, n, samples, counts, i);
    SumOfEqual(samples, k, k', c);
    IntegerProduct(k' - k, c);
  }

  lemma IntegerProduct(a: int, b: int)
    ensures (a * b) as real == Product(a as real, b as real)
  {
  }

  lemma ScaledWeightedStep(dist: seq<Entry>, maxSize: nat, n: nat, i: nat)
    requires IsDistribution(dist) && i < |dist|
    ensures Scaled(n, ClippedWeighted(dist, maxSize, i + 1), Cumulative(dist, |dist|))
            == Scaled(n, ClippedWeighted(dist, maxSize, i), Cumulative(dist, |dist|))
               + Product(Previous(dist, maxSize, i + 1), Share(dist, n, i + 1) - Share(dist, n, i))
  {
    ScaledStep(n, ClippedWeighted(dist, maxSize, i), Clip(dist[i].size, maxSize) as real,
               Cumulative(dist, i), dist[i].percentage, Cumulative(dist, |dist|));
  }

  lemma SurplusStep(dist: seq<Entry>, maxSize: nat, n: nat, samples: seq<int>, counts: seq<nat>, i: nat)
    requires IsDistribution(dist) && AreCounts(dist, n, counts) && AreQuantiles(dist, maxSize, n, samples) && i < |dist|
    ensures counts[i] <= n && counts[i + 1] <= n
    ensures Surplus(dist, maxSize, n, samples, counts, i + 1)
            == Surplus(dist, maxSize, n, samples, counts, i)
               + Product(Previous(dist, maxSize, i + 1) - Previous(dist, maxSize, i), Share(dist, n, i) - counts[i] as real)
  {
    SumStep(dist, maxSize, n, samples, counts, i);
    ScaledWeightedStep(dist, maxSize, n, i);
    Telescope(Previous(dist, maxSize, i), Previous(dist, maxSize, i + 1), counts[i] as real, counts[i + 1] as real,
              Share(dist, n, i), Share(dist, n, i + 1));
  }

  lemma Telescope(previous: real, c: real, k: real, k': real, share: real, share': real)
    ensures Product(k' - k, c) - Product(c, share' - share) + Product(c, share' - k')
            == Product(previous, share - k) + Product(c - previous, share - k)
  {
  }

  /** Within a thousandth below and one above, in units of the size. */
  predicate Small(surplus: real, size: real) {
    -0.001 * size <= surplus <= 0.999 * size
  }

  lemma SurplusStaysSmall(dist: seq<Entry>, maxSize: nat, n: nat, samples: seq<int>, counts: seq<nat>, i: nat)
    requires IsDistribution(dist) && AreCounts(dist, n, counts) && AreQuantiles(dist, maxSize, n, samples) && i < |dist|
    requires counts[i] <= n && Small(Surplus(dist, maxSize, n, samples, counts, i), Previous(dist, maxSize, i))
    ensures counts[i + 1] <= n
    ensures Small(Surplus(dist, maxSize, n, samples, counts, i + 1), Previous(dist, maxSize, i + 1))
  {
    var surplus := Surplus(dist, maxSize, n, samples, counts, i);
    SurplusStep(dist, maxSize, n, samples, counts, i);
    PreviousGrows(dist, maxSize, i);
    assert Rounded(dist, n, i, counts[i]);
    SmallSum(surplus, Previous(dist, maxSize, i), Previous(dist, maxSize, i + 1), Share(dist, n, i) - counts[i] as real);
  }

  lemma SurplusAtStart(dist: seq<Entry>, maxSize: nat, n: nat, samples: seq<int>, counts: seq<nat>)
    requires IsDistribution(dist) && AreCounts(dist, n, counts) && |samples| == n
    ensures Surplus(dist, maxSize, n, samples, counts, 0) == 0.0
  {
    assert samples[..0] == [];
  }

  lemma {:induction false} SurplusIsSmall(dist: seq<Entry>, maxSize: nat, n: nat, samples: seq<int>, counts: seq<nat>, i: nat)
    requires IsDistribution(dist) && AreCounts(dist, n, counts) && AreQuantiles(dist, maxSize, n, samples) && i <= |dist|
    ensures counts[i] <= n && Small(Surplus(dist, maxSize, n, samples, counts, i), Previous(dist, maxSize, i))
    decreases i
  {
    if i == 0 {
      SurplusAtStart(dist, maxSize, n, samples, counts);
    } else {
      SurplusIsSmall(dist, maxSize, n, samples, counts, i - 1);
      SurplusStaysSmall(dist, maxSize, n, samples, counts, i - 1);
    }
  }

  lemma PreviousGrows(dist: seq<Entry>, maxSize: nat, i: nat)
    requires IsDistribution(dist) && i < |dist|
    ensures 0.0 <= Previous(dist, maxSize, i) <= Previous(dist, maxSize, i + 1) <= maxSize as real
  {
    if i > 0 {
      assert dist[i - 1].size < dist[i].size;
    }
  }

  lemma SmallSum(surplus: real, previous: real, next: real, delta: real)
    requires Small(surplus, previous) && previous <= next && -0.001 <= delta <= 0.999
    ensures Small(surplus + Product(next - previous, delta), next)
  {
    var step := next - previous;
    assert -0.001 * step <= Product(step, delta) <= 0.999 * step;
  }

  /** The samples before the repair represent the distribution: their sum is that of the clipped distribution to
      within one largest size, however many samples there are. */
  lemma QuantileSum(dist: seq<Entry>, maxSize: nat, n: nat, samples: seq<int>, counts: seq<nat>)
    requires IsDistribution(dist) && AreCounts(dist, n, counts) && AreQuantiles(dist, maxSize, n, samples)
    ensures var average := Scaled(n, ClippedWeighted(dist, maxSize, |dist|), Cumulative(dist, |dist|));
            average - 0.001 * maxSize as real <= Sum(samples) as real <= average + 0.999 * maxSize as real
  {
    var last := |dist|;
    SurplusIsSmall(dist, maxSize, n, samples, counts, last);
    ShareEnds(dist, n);
    assert samples[..n] == samples;
    assert Product(Previous(dist, maxSize, last), 0.0) == 0.0;
    if last > 0 {
      PreviousGrows(dist, maxSize, last - 1);
    }
  }

  /** By how much the expected total exceeds what the clipped distribution amounts to. */
  function ClippedAway(dist: seq<Entry>, maxSize: nat, n: nat): real
    requires IsDistribution(dist)
  {
    Product(n as real, Weighted(dist, |dist|)) - Scaled(n, ClippedWeighted(dist, maxSize, |dist|), Cumulative(dist, |dist|))
  }

  /** The difference that the repair starts with fits in 32 bits, with a sample to spare. */
  predicate DifferenceFits(dist: seq<Entry>, maxSize: nat, n: nat)
    requires IsDistribution(dist)
  {
    && ClippedAway(dist, maxSize, n) + 2.0 * maxSize as real <= INT32_MAX as real
    && ClippedAway(dist, maxSize, n) - maxSize as real - 1.0 >= INT32_MIN as real
  }

  /** The samples themselves may add up to any number: only what was clipped away counts. */
  lemma FirstDifferenceFits(dist: seq<Entry>, maxSize: nat, n: nat, samples: seq<int>, counts: seq<nat>)
    requires IsDistribution(dist) && AreCounts(dist, n, counts) && AreQuantiles(dist, maxSize, n, samples)
    requires DifferenceFits(dist, maxSize, n) && AllWithin(samples, maxSize)
    ensures FirstStepFits(samples, Sum(samples) - ExpectedBytes(dist, n))
  {
    QuantileSum(dist, maxSize, n, samples, counts);
    var expected := Product(n as real, Weighted(dist, |dist|));
    assert expected - 1.0 < ExpectedBytes(dist, n) as real <= expected;
    if n > 0 {
      BetweenReals(samples[n - 1], maxSize, Sum(samples) - ExpectedBytes(dist, n), ClippedAway(dist, maxSize, n));
    }
  }

  lemma BetweenReals(last: int, maxSize: nat, excess: int, away: real)
    requires 0 <= last <= maxSize
    requires -away - 0.001 * maxSize as real <= excess as real <= -away + 0.999 * maxSize as real + 1.0
    requires away + 2.0 * maxSize as real <= INT32_MAX as real && away - maxSize as real - 1.0 >= INT32_MIN as real
    ensures INT32_MIN <= last - excess <= INT32_MAX
  {
    assert INT32_MIN as real <= (last - excess) as real <= INT32_MAX as real;
  }

  /** If the percentages add up to one and no size is clipped, nothing is clipped away, and the difference fits
      for every number of samples. */
  lemma {:induction false} NothingClippedAway(dist: seq<Entry>, maxSize: nat, i: nat)
    requires i <= |dist| && forall k :: 0 <= k < |dist| ==> dist[k].size <= maxSize
    ensures ClippedWeighted(dist, maxSize, i) == Weighted(dist, i)
    decreases i
  {
    if i > 0 {
      NothingClippedAway(dist, maxSize, i - 1);
    }
  }

  lemma UnclippedFits(dist: seq<Entry>, maxSize: nat, n: nat)
    requires IsDistribution(dist) && Cumulative(dist, |dist|) == 1.0 && 2 * maxSize <= INT32_MAX
    requires forall k :: 0 <= k < |dist| ==> dist[k].size <= maxSize
    ensures ClippedAway(dist, maxSize, n) == 0.0 && DifferenceFits(dist, maxSize, n)
  {
    NothingClippedAway(dist, maxSize, |dist|);
    assert (2 * maxSize) as real <= INT32_MAX as real;
  }

  lemma SamplesRepaired(s: seq<int>, t: seq<int>, excesses: seq<int>, maxSize: nat, expected: int)
    requires Repair(s, t, excesses, maxSize) && excesses[|s|] == Sum(s) - expected
    requires AllWithin(s, maxSize) && 0 <= expected && maxSize <= INT32_MAX && FirstStepFits(s, Sum(s) - expected)
    ensures AllWithin(t, maxSize) && (Sum(t) == expected <==> expected <= |s| * maxSize)
  {
    RepairedTotal(s, t, excesses, maxSize);
    CheckHoldsIff(s, t, excesses, maxSize, expected);
  }

  /** The sizes for a benchmark, unless the final check fails: the quantiles, repaired and shuffled. What is
      returned always has the expected total. Where the first conversion of the repair fits, sizes are within the
      limit, and the check fails exactly if that total is out of reach; it does fit if what was clipped away
      does, however many samples there are and whatever they add up to. */
  method SampleSizeBytes(dist: seq<Entry>, maxSize: nat, n: nat, shuffle: Shuffle)
    returns (sizes: Option<seq<int>>, ghost quantiles: seq<int>, ghost repaired: seq<int>, ghost excesses: seq<int>)
    requires IsDistribution(dist) && maxSize <= INT32_MAX && Permutes(shuffle)
    ensures AreQuantiles(dist, maxSize, n, quantiles)
    ensures Repair(quantiles, repaired, excesses, maxSize) && excesses[n] == Sum(quantiles) - ExpectedBytes(dist, n)
    ensures sizes.Some? <==> Sum(repaired) == ExpectedBytes(dist, n)
    ensures sizes.Some? ==> multiset(sizes.value) == multiset(repaired)
    ensures sizes.Some? ==> |sizes.value| == n && Sum(sizes.value) == ExpectedBytes(dist, n)
    ensures DifferenceFits(dist, maxSize, n) ==>
              && (sizes.Some? <==> ExpectedBytes(dist, n) <= n * maxSize)
              && (sizes.Some? ==> AllWithin(sizes.value, maxSize))
    ensures FirstStepFits(quantiles, Sum(quantiles) - ExpectedBytes(dist, n)) ==>
              && (sizes.Some? <==> ExpectedBytes(dist, n) <= n * maxSize)
              && (sizes.Some? ==> AllWithin(sizes.value, maxSize))
    ensures DifferenceFits(dist, maxSize, n) ==> FirstStepFits(quantiles, Sum(quantiles) - ExpectedBytes(dist, n))
  {
    var expected := ExpectedTotal(dist, n);
    var samples, counts := Apportion(dist, maxSize, n);
    quantiles := samples[..];
    if DifferenceFits(dist, maxSize, n) {
      FirstDifferenceFits(dist, maxSize, n, quantiles, counts);
    }
    var ok;
    ok, excesses := RepairTotal(samples, maxSize, expected);
    repaired := samples[..];
    if FirstStepFits(quantiles, Sum(quantiles) - expected) {
      SamplesRepaired(quantiles, repaired, excesses, maxSize, expected);
    }
    if ok {
      ShuffledSame(samples[..], shuffle(samples[..]), maxSize);
      sizes := Some(shuffle(samples[..]));
    } else {
      sizes := None;
    }
  }

  lemma MoveOut(init: seq<int>, b: seq<int>, i: nat)
    requires i < |b| && multiset(init + [b[i]]) == multiset(b)
    ensures multiset(init) == multiset(b[..i] + b[i + 1..])
  {
    assert b == b[..i] + ([b[i]] + b[i + 1..]);
    SameWithout(init, b[..i] + b[i + 1..], b[i]);
  }

  lemma {:induction false} SumOfPermutation(a: seq<int>, b: seq<int>)
    requires multiset(a) == multiset(b)
    ensures Sum(a) == Sum(b)
    decreases |a|
  {
    SameLength(a, b);
    if a != [] {
      var x, init := a[|a| - 1], a[..|a| - 1];
      assert a == init + [x];
      assert x in multiset(b);
      var i :| 0 <= i < |b| && b[i] == x;
      assert b == b[..i] + ([x] + b[i + 1..]);
      MoveOut(init, b, i);
      SumOfPermutation(init, b[..i] + b[i + 1..]);
      SumAppend(b[..i], [x] + b[i + 1..]);
      SumAppend([x], b[i + 1..]);
      SumAppend(b[..i], b[i + 1..]);
      assert Sum([x]) == x;
    }
  }

  lemma ShuffledSame(a: seq<int>, b: seq<int>, maxSize: nat)
    requires multiset(a) == multiset(b)
    ensures |a| == |b| && Sum(a) == Sum(b) && (AllWithin(a, maxSize) ==> AllWithin(b, maxSize))
  {
    SameLength(a, b);
    SumOfPermutation(a, b);
    forall i | 0 <= i < |b| ensures b[i] in a {
      assert b[i] in multiset(a);
    }
  }

  /** The expected total is not divided by the sum of the percentages. Input files whose percentages add up to
      more than one, by rounding, can therefore make the final check fail. */
  lemma RoundedInputCanFail()
    ensures IsDistribution([Entry(8, 1.001)]) && DifferenceFits([Entry(8, 1.001)], 8, 1000)
    ensures ExpectedBytes([Entry(8, 1.001)], 1000) > 1000 * 8
  {
    var dist := [Entry(8, 1.001)];
    assert Cumulative(dist, 1) == Cumulative(dist, 0) + 1.001;
    assert Weighted(dist, 1) == Weighted(dist, 0) + 8.0 * 1.001;
  }
}
