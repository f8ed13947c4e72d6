/**
  The benchmark weights of workload-weighted scheduling: every workload gets the same total, divided among its
  benchmarks evenly or by the custom weights. Weights are real numbers; the custom ones may be zero or negative.
 */
module WorkloadWeights {
  import opened Wrappers

  datatype Benchmark = Benchmark(name: string, workload: string)

  /** A custom weight applies to the benchmarks whose capitalized name contains the keyword. */
  datatype Custom = Custom(keyword: string, weight: real)

  type Upper = string -> string

  type Weights = map<string, real>

  predicate Contains(text: string, keyword: string) {
    && |keyword| <= |text|
    && (text[..|keyword|] == keyword || (text != [] && Contains(text[1..], keyword)))
  }

  function Names(benchmarks: seq<Benchmark>): (names: seq<string>)
    ensures |names| == |benchmarks|
    ensures forall i :: 0 <= i < |benchmarks| ==> names[i] == benchmarks[i].name
  {
    seq(|benchmarks|, i requires 0 <= i < |benchmarks| => benchmarks[i].name)
  }

  predicate Distinct(names: seq<string>) {
    forall i, j :: 0 <= i < j < |names| ==> names[i] != names[j]
  }

  function Times(weight: real, factor: real): real {
    weight * factor
  }

  /** The product of the custom weights that apply to a benchmark. */
  function Factor(name: string, customs: seq<Custom>, upper: Upper): real {
    if customs == [] then 1.0
    else
      var last := customs[|customs| - 1];
      var others := Factor(name, customs[..|customs| - 1], upper);
      if Contains(upper(name), last.keyword) then Times(others, last.weight) else others
  }

  predicate AllPositive(customs: seq<Custom>) {
    forall i :: 0 <= i < |customs| ==> customs[i].weight > 0.0
  }

  lemma {:induction false} FactorIsPositive(name: string, customs: seq<Custom>, upper: Upper)
    requires AllPositive(customs)
    ensures Factor(name, customs, upper) > 0.0
    decreases |customs|
  {
    if customs != [] {
      FactorIsPositive(name, customs[..|customs| - 1], upper);
      PositiveTimes(Factor(name, customs[..|customs| - 1], upper), customs[|customs| - 1].weight);
    }
  }

  lemma PositiveTimes(a: real, b: real)
    requires a > 0.0 && b > 0.0
    ensures Times(a, b) > 0.0
  {
  }

  // ---- Totals

  predicate Defined(weights: Weights, names: seq<string>) {
    forall i :: 0 <= i < |names| ==> names[i] in weights
  }

  function Total(weights: Weights, names: seq<string>): real
    requires Defined(weights, names)
  {
    if names == [] then 0.0 else Total(weights, names[..|names| - 1]) + weights[names[|names| - 1]]
  }

  lemma {:induction false} TotalScales(before: Weights, after: Weights, names: seq<string>, d: real)
    requires Defined(before, names) && Defined(after, names) && d != 0.0
    requires forall i :: 0 <= i < |names| ==> after[names[i]] == before[names[i]] / d
    ensures Total(after, names) == Total(before, names) / d
    decreases |names|
  {
    if names != [] {
      TotalScales(before, after, names[..|names| - 1], d);
    }
  }

  lemma {:induction false} TotalSame(before: Weights, after: Weights, names: seq<string>)
    requires Defined(before, names) && Defined(after, names)
    requires forall i :: 0 <= i < |names| ==> after[names[i]] == before[names[i]]
    ensures Total(after, names) == Total(before, names)
    decreases |names|
  {
    if names != [] {
      TotalSame(before, after, names[..|names| - 1]);
    }
  }

  // ---- One workload

  /** The other benchmarks are left alone. */
  ghost predicate KeepsOthers(before: Weights, after: Weights, names: seq<string>) {
    && after.Keys == before.Keys
    && forall name :: name in before && name !in names ==> after[name] == before[name]
  }

  /** Multiplies the weights of a workload by the custom weights that apply. */
  method ApplyCustom(weights: Weights, names: seq<string>, customs: seq<Custom>, upper: Upper)
    returns (scaled: Weights)
    requires Defined(weights, names) && Distinct(names)
    ensures KeepsOthers(weights, scaled, names)
    ensures forall i :: 0 <= i < |names| ==> scaled[names[i]] == Times(weights[names[i]], Factor(names[i], customs, upper))
  {
    scaled := weights;
    for i := 0 to |names|
      invariant KeepsOthers(weights, scaled, names[..i])
      invariant forall k :: 0 <= k < i ==> scaled[names[k]] == Times(weights[names[k]], Factor(names[k], customs, upper))
    {
      assert names[i] !in names[..i];
      scaled := ApplyTo(scaled, names[i], customs, upper);
      assert names[..i + 1] == names[..i] + [names[i]];
    }
    assert names[..|names|] == names;
  }

  method ApplyTo(weights: Weights, name: string, customs: seq<Custom>, upper: Upper) returns (scaled: Weights)
    requires name in weights
    ensures scaled == weights[name := Times(weights[name], Factor(name, customs, upper))]
  {
    scaled := weights;
    for c := 0 to |customs|
      invariant scaled == weights[name := Times(weights[name], Factor(name, customs[..c], upper))]
    {
      assert customs[..c + 1][..c] == customs[..c] && customs[..c + 1][c] == customs[c];
      if Contains(upper(name), customs[c].keyword) {
        Associate(weights[name], Factor(name, customs[..c], upper), customs[c].weight);
        scaled := scaled[name := Times(scaled[name], customs[c].weight)];
      }
    }
    assert customs[..|customs|] == customs;
  }

  lemma Associate(a: real, b: real, c: real)
    ensures Times(Times(a, b), c) == Times(a, Times(b, c))
  {
  }

  /** Divides the weights of a workload by their total. */
  method Normalize(weights: Weights, names: seq<string>, sum: real) returns (normal: Weights)
    requires Defined(weights, names) && Distinct(names) && sum == Total(weights, names) != 0.0
    ensures KeepsOthers(weights, normal, names)
    ensures forall i :: 0 <= i < |names| ==> normal[names[i]] == Part(weights[names[i]], Total(weights, names))
  {
    normal := weights;
    for i := 0 to |names|
      invariant KeepsOthers(weights, normal, names[..i])
      invariant forall k :: 0 <= k < i ==> normal[names[k]] == Part(weights[names[k]], sum)
    {
      assert names[i] !in names[..i];
      normal := normal[names[i] := Part(normal[names[i]], sum)];
      assert names[..i + 1] == names[..i] + [names[i]];
    }
    assert names[..|names|] == names;
  }

  function Part(weight: real, sum: real): real
    requires sum != 0.0
  {
    weight / sum
  }

  method Sum(weights: Weights, names: seq<string>) returns (sum: real)
    requires Defined(weights, names)
    ensures sum == Total(weights, names)
  {
    sum := 0.0;
    for i := 0 to |names|
      invariant sum == Total(weights, names[..i])
    {
      assert names[..i + 1][..i] == names[..i];
      sum := sum + weights[names[i]];
    }
    assert names[..|names|] == names;
  }

  /** The total of a workload once the custom weights are applied. */
  function CustomTotal(weights: Weights, names: seq<string>, customs: seq<Custom>, upper: Upper): real
    requires Defined(weights, names)
  {
    if names == [] then 0.0
    else
      var last := names[|names| - 1];
      CustomTotal(weights, names[..|names| - 1], customs, upper) + Times(weights[last], Factor(last, customs, upper))
  }

  lemma {:induction false} CustomTotalIs(weights: Weights, scaled: Weights, names: seq<string>, customs: seq<Custom>,
                                         upper: Upper)
    requires Defined(weights, names) && Defined(scaled, names)
    requires forall i :: 0 <= i < |names| ==> scaled[names[i]] == Times(weights[names[i]], Factor(names[i], customs, upper))
    ensures Total(scaled, names) == CustomTotal(weights, names, customs, upper)
    decreases |names|
  {
    if names != [] {
      CustomTotalIs(weights, scaled, names[..|names| - 1], customs, upper);
    }
  }

  /** A workload with more than one benchmark after the update: the total is one, and the weights are the old
      ones times the custom ones that apply, in proportion. */
  ghost predicate Updated(before: Weights, after: Weights, names: seq<string>, customs: seq<Custom>, upper: Upper) {
    && Defined(before, names) && Defined(after, names)
    && CustomTotal(before, names, customs, upper) != 0.0
    && Total(after, names) == 1.0
    && forall i :: 0 <= i < |names| ==>
      after[names[i]] == Part(Times(before[names[i]], Factor(names[i], customs, upper)),
                              CustomTotal(before, names, customs, upper))
  }

  /** The update of one workload; none if it divides by zero. */
  method UpdateGroup(weights: Weights, names: seq<string>, customs: seq<Custom>, upper: Upper)
    returns (updated: Option<Weights>)
    requires Defined(weights, names) && Distinct(names)
    ensures updated.None? <==> CustomTotal(weights, names, customs, upper) == 0.0
    ensures updated.Some? ==> KeepsOthers(weights, updated.value, names)
    ensures updated.Some? ==> Updated(weights, updated.value, names, customs, upper)
  {
    var scaled := ApplyCustom(weights, names, customs, upper);
    CustomTotalIs(weights, scaled, names, customs, upper);
    var sum := Sum(scaled, names);
    if sum == 0.0 {
      return None;
    }
    var normal := Normalize(scaled, names, sum);
    TotalScales(scaled, normal, names, sum);
    DividedBySelf(sum);
    updated := Some(normal);
  }

  lemma DividedBySelf(d: real)
    requires d != 0.0
    ensures d / d == 1.0
  {
  }

  lemma {:induction false} CustomTotalSame(weights: Weights, other: Weights, names: seq<string>, customs: seq<Custom>,
                                           upper: Upper)
    requires Defined(weights, names) && Defined(other, names)
    requires forall i :: 0 <= i < |names| ==> weights[names[i]] == other[names[i]]
    ensures CustomTotal(weights, names, customs, upper) == CustomTotal(other, names, customs, upper)
    decreases |names|
  {
    if names != [] {
      CustomTotalSame(weights, other, names[..|names| - 1], customs, upper);
    }
  }

  lemma UpdatedSame(before: Weights, before': Weights, after: Weights, after': Weights, names: seq<string>,
                    customs: seq<Custom>, upper: Upper)
    requires Updated(before, after, names, customs, upper) && Defined(before', names) && Defined(after', names)
    requires forall i :: 0 <= i < |names| ==> before'[names[i]] == before[names[i]] && after'[names[i]] == after[names[i]]
    ensures Updated(before', after', names, customs, upper)
  {
    CustomTotalSame(before, before', names, customs, upper);
    TotalSame(after, after', names);
  }

  // ---- All workloads

  /** No benchmark is in two workloads. */
  predicate DisjointGroups(groups: seq<seq<string>>) {
    && (forall g :: 0 <= g < |groups| ==> groups[g] != [] && Distinct(groups[g]))
    && forall g, h :: 0 <= g < h < |groups| ==> Disjoint(groups[g], groups[h])
  }

  predicate Disjoint(a: seq<string>, b: seq<string>) {
    forall name :: name in a ==> name !in b
  }

  /** The update of a workload with more than one benchmark divides by zero. */
  predicate DividesByZero(weights: Weights, names: seq<string>, customs: seq<Custom>, upper: Upper)
    requires Defined(weights, names)
  {
    |names| != 1 && CustomTotal(weights, names, customs, upper) == 0.0
  }

  /** The weights of these benchmarks are the same. */
  predicate SameOn(a: Weights, b: Weights, names: seq<string>) {
    Defined(a, names) && Defined(b, names) && forall i :: 0 <= i < |names| ==> a[names[i]] == b[names[i]]
  }

  /** What the update does to a workload. The custom weights do not apply to one with a single benchmark. */
  ghost predicate GroupDone(before: Weights, after: Weights, names: seq<string>, customs: seq<Custom>, upper: Upper) {
    if |names| == 1 then SameOn(before, after, names) else Updated(before, after, names, customs, upper)
  }

  method UpdateWorkloadWeights(weights: Weights, groups: seq<seq<string>>, customs: seq<Custom>, upper: Upper)
    returns (updated: Option<Weights>)
    requires DisjointGroups(groups)
    requires forall g :: 0 <= g < |groups| ==> Defined(weights, groups[g])
    ensures updated.None? <==> exists g :: 0 <= g < |groups| && DividesByZero(weights, groups[g], customs, upper)
    ensures updated.Some? ==> AllDone(weights, updated.value, groups, customs, upper)
  {
    var current := weights;
    for g := 0 to |groups|
      invariant current.Keys == weights.Keys
      invariant forall h :: 0 <= h < g ==> GroupDone(weights, current, groups[h], customs, upper)
      invariant forall h :: g <= h < |groups| ==> SameOn(weights, current, groups[h])
      invariant forall name :: name in weights && (forall h :: 0 <= h < g ==> name !in groups[h])
                  ==> current[name] == weights[name]
    {
      if |groups[g]| == 1 {
        continue;
      }
      CustomTotalSame(weights, current, groups[g], customs, upper);
      updated := UpdateGroup(current, groups[g], customs, upper);
      if updated.None? {
        assert DividesByZero(weights, groups[g], customs, upper);
        return;
      }
      UpdatedSame(current, weights, updated.value, updated.value, groups[g], customs, upper);
      OthersDone(weights, current, updated.value, groups, g, customs, upper);
      current := updated.value;
    }
    updated := Some(current);
  }

  /** Every workload is updated, and benchmarks outside of them are left alone. */
  ghost predicate AllDone(before: Weights, after: Weights, groups: seq<seq<string>>, customs: seq<Custom>, upper: Upper) {
    && after.Keys == before.Keys
    && (forall g :: 0 <= g < |groups| ==> GroupDone(before, after, groups[g], customs, upper))
    && forall name :: name in before && (forall g :: 0 <= g < |groups| ==> name !in groups[g]) ==> after[name] == before[name]
  }

  /** The update of one workload changes nothing in the others. */
  lemma OthersDone(weights: Weights, before: Weights, after: Weights, groups: seq<seq<string>>, g: nat,
                   customs: seq<Custom>, upper: Upper)
    requires g < |groups| && DisjointGroups(groups) && KeepsOthers(before, after, groups[g])
    requires forall h :: 0 <= h < |groups| ==> Defined(before, groups[h])
    requires forall h :: 0 <= h < g ==> GroupDone(weights, before, groups[h], customs, upper)
    ensures forall h :: 0 <= h < |groups| && h != g ==> SameOn(before, after, groups[h])
    ensures forall h :: 0 <= h < g ==> GroupDone(weights, after, groups[h], customs, upper)
  {
    forall h | 0 <= h < |groups| && h != g ensures SameOn(before, after, groups[h]) {
      OthersSame(before, after, groups[g], groups[h]);
    }
    forall h | 0 <= h < g ensures GroupDone(weights, after, groups[h], customs, upper) {
      if |groups[h]| != 1 {
        UpdatedSame(weights, weights, before, after, groups[h], customs, upper);
      }
    }
  }

  lemma OthersSame(before: Weights, after: Weights, names: seq<string>, others: seq<string>)
    requires KeepsOthers(before, after, names) && Defined(before, others)
    requires Disjoint(names, others) || Disjoint(others, names)
    ensures SameOn(before, after, others)
  {
  }

  // ---- Workload-weighted scheduling

  /** The names of the benchmarks of a workload. */
  function Group(benchmarks: seq<Benchmark>, workload: string): seq<string> {
    if benchmarks == [] then []
    else
      var last := benchmarks[|benchmarks| - 1];
      Group(benchmarks[..|benchmarks| - 1], workload) + if last.workload == workload then [last.name] else []
  }

  /** The workloads of the benchmarks, in any order. */
  predicate AreWorkloads(workloads: seq<string>, benchmarks: seq<Benchmark>) {
    && Distinct(workloads)
    && (forall i :: 0 <= i < |benchmarks| ==> benchmarks[i].workload in workloads)
    && forall w :: 0 <= w < |workloads| ==> Group(benchmarks, workloads[w]) != []
  }

  lemma {:induction false} GroupMembers(benchmarks: seq<Benchmark>, workload: string)
    requires Distinct(Names(benchmarks))
    ensures forall name :: name in Group(benchmarks, workload) <==> Benchmark(name, workload) in benchmarks
    ensures Distinct(Group(benchmarks, workload))
    decreases |benchmarks|
  {
    if benchmarks != [] {
      var init, last := benchmarks[..|benchmarks| - 1], benchmarks[|benchmarks| - 1];
      assert benchmarks == init + [last];
      assert forall i :: 0 <= i < |init| ==> Names(init)[i] == Names(benchmarks)[i];
      GroupMembers(init, workload);
      forall i | 0 <= i < |init| ensures init[i].name != last.name {
        assert Names(benchmarks)[i] != Names(benchmarks)[|init|];
      }
    }
  }

  /** The workloads share no benchmark. */
  lemma GroupsAreDisjoint(benchmarks: seq<Benchmark>, v: string, w: string)
    requires Distinct(Names(benchmarks)) && v != w
    ensures Disjoint(Group(benchmarks, v), Group(benchmarks, w))
  {
    GroupMembers(benchmarks, v);
    GroupMembers(benchmarks, w);
    forall i, j | 0 <= i < |benchmarks| && 0 <= j < |benchmarks| && benchmarks[i].workload != benchmarks[j].workload
      ensures benchmarks[i].name != benchmarks[j].name
    {
      assert Names(benchmarks)[i] != Names(benchmarks)[j];
    }
  }

  /** The sum of the totals of the first `n` workloads. */
  function GroupTotals(weights: Weights, benchmarks: seq<Benchmark>, workloads: seq<string>): real
    requires forall w :: w in workloads ==> Defined(weights, Group(benchmarks, w))
  {
    if workloads == [] then 0.0
    else
      GroupTotals(weights, benchmarks, workloads[..|workloads| - 1])
      + Total(weights, Group(benchmarks, workloads[|workloads| - 1]))
  }

  /** One more benchmark adds its weight to the total of its workload, wherever that is in the list. */
  lemma {:induction false} OneMoreBenchmark(weights: Weights, benchmarks: seq<Benchmark>, last: Benchmark, workloads: seq<string>)
    requires Distinct(workloads) && Defined(weights, Names(benchmarks)) && last.name in weights
    requires forall w :: w in workloads ==> Defined(weights, Group(benchmarks, w))
    requires forall w :: w in workloads ==> Defined(weights, Group(benchmarks + [last], w))
    ensures GroupTotals(weights, benchmarks + [last], workloads)
            == GroupTotals(weights, benchmarks, workloads) + if last.workload in workloads then weights[last.name] else 0.0
    decreases |workloads|
  {
    if workloads != [] {
      var init, w := workloads[..|workloads| - 1], workloads[|workloads| - 1];
      assert workloads == init + [w];
      OneMoreBenchmark(weights, benchmarks, last, init);
      assert (benchmarks + [last])[..|benchmarks|] == benchmarks;
      assert w !in init;
      if last.workload == w {
        assert Group(benchmarks + [last], w)[..|Group(benchmarks, w)|] == Group(benchmarks, w);
      } else {
        assert Group(benchmarks + [last], w) == Group(benchmarks, w);
      }
    }
  }

  lemma {:induction false} NoBenchmarks(weights: Weights, workloads: seq<string>)
    ensures GroupTotals(weights, [], workloads) == 0.0
    decreases |workloads|
  {
    if workloads != [] {
      NoBenchmarks(weights, workloads[..|workloads| - 1]);
    }
  }

  lemma {:induction false} GroupDefined(weights: Weights, benchmarks: seq<Benchmark>, w: string)
    requires Defined(weights, Names(benchmarks))
    ensures Defined(weights, Group(benchmarks, w))
    decreases |benchmarks|
  {
    if benchmarks != [] {
      var init := benchmarks[..|benchmarks| - 1];
      assert forall i :: 0 <= i < |init| ==> Names(init)[i] == Names(benchmarks)[i];
      assert Names(benchmarks)[|init|] == benchmarks[|init|].name;
      GroupDefined(weights, init, w);
    }
  }

  /** The workloads partition the benchmarks, so their totals add up to the grand total. */
  lemma {:induction false} GrandTotal(weights: Weights, benchmarks: seq<Benchmark>, workloads: seq<string>)
    requires Defined(weights, Names(benchmarks)) && Distinct(workloads)
    requires forall i :: 0 <= i < |benchmarks| ==> benchmarks[i].workload in workloads
    requires forall w :: w in workloads ==> Defined(weights, Group(benchmarks, w))
    ensures Total(weights, Names(benchmarks)) == GroupTotals(weights, benchmarks, workloads)
    decreases |benchmarks|
  {
    if benchmarks == [] {
      NoBenchmarks(weights, workloads);
    } else {
      var init, last := benchmarks[..|benchmarks| - 1], benchmarks[|benchmarks| - 1];
      assert benchmarks == init + [last];
      assert Names(benchmarks) == Names(init) + [last.name];
      assert forall i :: 0 <= i < |init| ==> Names(init)[i] == Names(benchmarks)[i];
      forall w | w in workloads ensures Defined(weights, Group(init, w)) {
        GroupDefined(weights, init, w);
      }
      GrandTotal(weights, init, workloads);
      assert Names(benchmarks)[|init|] in weights;
      OneMoreBenchmark(weights, init, last, workloads);
      assert Names(benchmarks)[..|init|] == Names(init);
    }
  }

  // ---- The branch of the program

  function Groups(benchmarks: seq<Benchmark>, workloads: seq<string>): (groups: seq<seq<string>>)
    ensures |groups| == |workloads|
    ensures forall w :: 0 <= w < |workloads| ==> groups[w] == Group(benchmarks, workloads[w])
  {
    seq(|workloads|, w requires 0 <= w < |workloads| => Group(benchmarks, workloads[w]))
  }

  /** All benchmarks of a workload have the same weight, and the total is one. */
  ghost predicate Even(weights: Weights, names: seq<string>) {
    names != [] && Defined(weights, names) && forall i :: 0 <= i < |names| ==> weights[names[i]] == Part(1.0, |names| as real)
  }

  ghost predicate InSome(name: string, groups: seq<seq<string>>) {
    exists g :: 0 <= g < |groups| && name in groups[g]
  }

  lemma InOneMore(name: string, groups: seq<seq<string>>, g: nat)
    requires g < |groups|
    ensures InSome(name, groups[..g + 1]) <==> InSome(name, groups[..g]) || name in groups[g]
  {
    assert groups[..g + 1] == groups[..g] + [groups[g]];
    if name in groups[g] {
      assert groups[..g + 1][g] == groups[g];
    }
    if InSome(name, groups[..g]) {
      var h :| 0 <= h < g && name in groups[..g][h];
      assert groups[..g + 1][h] == groups[h];
    }
  }

  method EvenWeights(groups: seq<seq<string>>) returns (weights: Weights)
    requires DisjointGroups(groups)
    ensures forall name :: name in weights <==> InSome(name, groups)
    ensures forall g :: 0 <= g < |groups| ==> Even(weights, groups[g])
  {
    weights := map[];
    for g := 0 to |groups|
      invariant forall name :: name in weights <==> InSome(name, groups[..g])
      invariant forall h :: 0 <= h < g ==> Even(weights, groups[h])
    {
      ghost var before := weights;
      weights := SetEven(weights, groups[g]);
      forall name ensures name in weights <==> InSome(name, groups[..g + 1]) {
        InOneMore(name, groups, g);
      }
      forall h | 0 <= h < g ensures Even(weights, groups[h]) {
        assert Even(before, groups[h]) && Disjoint(groups[h], groups[g]);
      }
    }
    assert groups[..|groups|] == groups;
  }

  method SetEven(before: Weights, names: seq<string>) returns (weights: Weights)
    requires names != []
    ensures weights.Keys == before.Keys + set name | name in names
    ensures Even(weights, names)
    ensures forall name :: name in before && name !in names ==> weights[name] == before[name]
  {
    weights := before;
    for i := 0 to |names|
      invariant weights.Keys == before.Keys + set name | name in names[..i]
      invariant forall k :: 0 <= k < i ==> weights[names[k]] == Part(1.0, |names| as real)
      invariant forall name :: name in before && name !in names[..i] ==> weights[name] == before[name]
    {
      assert names[..i + 1] == names[..i] + [names[i]];
      weights := weights[names[i] := Part(1.0, |names| as real)];
    }
    assert names[..|names|] == names;
  }

  /** The sum of the products of custom weights in a workload. */
  function FactorTotal(names: seq<string>, customs: seq<Custom>, upper: Upper): real {
    if names == [] then 0.0
    else FactorTotal(names[..|names| - 1], customs, upper) + Factor(names[|names| - 1], customs, upper)
  }

  /** Positive custom weights never make the division fail. */
  lemma {:induction false} FactorTotalIsPositive(names: seq<string>, customs: seq<Custom>, upper: Upper)
    requires AllPositive(customs)
    ensures FactorTotal(names, customs, upper) >= 0.0 && (names != [] ==> FactorTotal(names, customs, upper) > 0.0)
    ensures !Cancels(names, customs, upper)
    decreases |names|
  {
    if names != [] {
      FactorTotalIsPositive(names[..|names| - 1], customs, upper);
      FactorIsPositive(names[|names| - 1], customs, upper);
    }
  }

  lemma {:induction false} CustomTotalOfEven(weights: Weights, names: seq<string>, customs: seq<Custom>, upper: Upper, e: real)
    requires Defined(weights, names) && forall i :: 0 <= i < |names| ==> weights[names[i]] == e
    ensures CustomTotal(weights, names, customs, upper) == Times(e, FactorTotal(names, customs, upper))
    decreases |names|
  {
    if names != [] {
      CustomTotalOfEven(weights, names[..|names| - 1], customs, upper, e);
    }
  }

  /** The weights of a workload: in proportion to the custom weights that apply, with a total of one. */
  ghost predicate Weighted(weights: Weights, names: seq<string>, customs: seq<Custom>, upper: Upper) {
    && names != [] && Defined(weights, names) && Total(weights, names) == 1.0
    && (|names| == 1 ==> weights[names[0]] == 1.0)
    && (|names| > 1 ==> FactorTotal(names, customs, upper) != 0.0)
    && forall i :: 0 <= i < |names| && |names| > 1 ==>
      weights[names[i]] == Part(Factor(names[i], customs, upper), FactorTotal(names, customs, upper))
  }

  lemma Cancel(e: real, factor: real, total: real)
    requires e != 0.0 && total != 0.0
    ensures Times(e, total) != 0.0 && Part(Times(e, factor), Times(e, total)) == Part(factor, total)
  {
    var d := Times(e, total);
    assert factor / total * d == e * factor;
  }

  /** For even weights, the update divides by zero exactly if the products of custom weights cancel. */
  lemma EvenDividesByZero(even: Weights, names: seq<string>, customs: seq<Custom>, upper: Upper)
    requires Even(even, names)
    ensures DividesByZero(even, names, customs, upper) <==> Cancels(names, customs, upper)
  {
    CustomTotalOfEven(even, names, customs, upper, Part(1.0, |names| as real));
  }

  /** In a workload with more than one benchmark, the products of custom weights add up to nothing. */
  predicate Cancels(names: seq<string>, customs: seq<Custom>, upper: Upper) {
    |names| > 1 && FactorTotal(names, customs, upper) == 0.0
  }

  predicate SomeCancels(groups: seq<seq<string>>, customs: seq<Custom>, upper: Upper) {
    exists g :: 0 <= g < |groups| && Cancels(groups[g], customs, upper)
  }

  lemma EvenUpdatedIsWeighted(even: Weights, weights: Weights, names: seq<string>, customs: seq<Custom>, upper: Upper)
    requires Even(even, names) && |names| > 1
    requires Updated(even, weights, names, customs, upper)
    ensures Weighted(weights, names, customs, upper)
  {
    var e := Part(1.0, |names| as real);
    CustomTotalOfEven(even, names, customs, upper, e);
    forall i | 0 <= i < |names|
      ensures weights[names[i]] == Part(Factor(names[i], customs, upper), FactorTotal(names, customs, upper))
    {
      Cancel(e, Factor(names[i], customs, upper), FactorTotal(names, customs, upper));
    }
  }

  lemma SingleIsWeighted(weights: Weights, names: seq<string>, customs: seq<Custom>, upper: Upper)
    requires |names| == 1 && names[0] in weights && weights[names[0]] == 1.0
    ensures Weighted(weights, names, customs, upper)
  {
    assert names[..0] == [];
    assert Total(weights, names) == Total(weights, names[..0]) + 1.0;
  }

  lemma {:induction false} FactorTotalOfNone(names: seq<string>, upper: Upper)
    ensures FactorTotal(names, [], upper) == |names| as real
    decreases |names|
  {
    if names != [] {
      FactorTotalOfNone(names[..|names| - 1], upper);
    }
  }

  lemma {:induction false} TotalOfEqual(weights: Weights, names: seq<string>, e: real)
    requires Defined(weights, names) && forall i :: 0 <= i < |names| ==> weights[names[i]] == e
    ensures Total(weights, names) == Times(e, |names| as real)
    decreases |names|
  {
    if names != [] {
      TotalOfEqual(weights, names[..|names| - 1], e);
    }
  }

  /** Without custom weights the even weights are the right ones already. */
  lemma EvenIsWeighted(weights: Weights, names: seq<string>, upper: Upper)
    requires Even(weights, names)
    ensures Weighted(weights, names, [], upper)
  {
    FactorTotalOfNone(names, upper);
    TotalOfEqual(weights, names, Part(1.0, |names| as real));
  }

  method WeightGroups(groups: seq<seq<string>>, customs: seq<Custom>, upper: Upper) returns (weights: Option<Weights>)
    requires DisjointGroups(groups)
    ensures weights.None? <==> SomeCancels(groups, customs, upper)
    ensures weights.Some? ==> forall name :: name in weights.value <==> InSome(name, groups)
    ensures weights.Some? ==> forall g :: 0 <= g < |groups| ==> Weighted(weights.value, groups[g], customs, upper)
  {
    var even := EvenWeights(groups);
    assert forall g :: 0 <= g < |groups| ==> Even(even, groups[g]);
    if customs == [] {
      forall g | 0 <= g < |groups| ensures Weighted(even, groups[g], customs, upper) && !Cancels(groups[g], customs, upper) {
        EvenIsWeighted(even, groups[g], upper);
      }
      return Some(even);
    }
    forall g | 0 <= g < |groups|
      ensures DividesByZero(even, groups[g], customs, upper) <==> Cancels(groups[g], customs, upper)
    {
      EvenDividesByZero(even, groups[g], customs, upper);
    }
    weights := UpdateWorkloadWeights(even, groups, customs, upper);
    if weights.Some? {
      forall g | 0 <= g < |groups| ensures Weighted(weights.value, groups[g], customs, upper) {
        DoneIsWeighted(even, weights.value, groups[g], customs, upper);
      }
    }
  }

  lemma DoneIsWeighted(even: Weights, weights: Weights, names: seq<string>, customs: seq<Custom>, upper: Upper)
    requires Even(even, names) && GroupDone(even, weights, names, customs, upper)
    ensures Weighted(weights, names, customs, upper)
  {
    if |names| == 1 {
      SingleIsWeighted(weights, names, customs, upper);
    } else {
      EvenUpdatedIsWeighted(even, weights, names, customs, upper);
    }
  }

  /** The weights of all benchmarks. Whatever the custom weights, every workload has a total of one, so the
      grand total is the number of workloads; or there are none, because the products of custom weights cancel in a
      workload with more than one benchmark. `workloads` is the set of workloads in the order of its iteration. */
  method GetBenchmarkWeights(benchmarks: seq<Benchmark>, workloads: seq<string>, customs: seq<Custom>, upper: Upper)
    returns (weights: Option<Weights>)
    requires Distinct(Names(benchmarks)) && AreWorkloads(workloads, benchmarks)
    ensures weights.None? <==> SomeCancels(Groups(benchmarks, workloads), customs, upper)
    ensures weights.Some? ==> Balanced(weights.value, benchmarks, workloads, customs, upper)
  {
    GroupsDisjoint(benchmarks, workloads);
    weights := WeightGroups(Groups(benchmarks, workloads), customs, upper);
    if weights.Some? {
      WeightedIsBalanced(weights.value, benchmarks, workloads, customs, upper);
    }
  }

  /** There is a weight for every benchmark, every workload is weighted, and the grand total is the number of
      workloads. */
  ghost predicate Balanced(weights: Weights, benchmarks: seq<Benchmark>, workloads: seq<string>, customs: seq<Custom>,
                           upper: Upper) {
    && (forall name :: name in weights <==> name in Names(benchmarks))
    && (forall w :: 0 <= w < |workloads| ==> Weighted(weights, Group(benchmarks, workloads[w]), customs, upper))
    && Defined(weights, Names(benchmarks)) && Total(weights, Names(benchmarks)) == |workloads| as real
  }

  lemma WeightedIsBalanced(weights: Weights, benchmarks: seq<Benchmark>, workloads: seq<string>, customs: seq<Custom>,
                           upper: Upper)
    requires Distinct(Names(benchmarks)) && AreWorkloads(workloads, benchmarks)
    requires forall name :: name in weights <==> InSome(name, Groups(benchmarks, workloads))
    requires forall g :: 0 <= g < |workloads| ==> Weighted(weights, Groups(benchmarks, workloads)[g], customs, upper)
    ensures Balanced(weights, benchmarks, workloads, customs, upper)
  {
    forall w | 0 <= w < |workloads| ensures Weighted(weights, Group(benchmarks, workloads[w]), customs, upper) {
      assert Weighted(weights, Groups(benchmarks, workloads)[w], customs, upper);
    }
    KeysAreNames(benchmarks, workloads, weights);
    assert Total(weights, Names(benchmarks)) == |workloads| as real by {
      WeightedTotals(weights, benchmarks, workloads, customs, upper);
      GrandTotalIsCount(weights, benchmarks, workloads);
    }
  }

  lemma GroupsDisjoint(benchmarks: seq<Benchmark>, workloads: seq<string>)
    requires Distinct(Names(benchmarks)) && AreWorkloads(workloads, benchmarks)
    ensures DisjointGroups(Groups(benchmarks, workloads))
  {
    var groups := Groups(benchmarks, workloads);
    forall g | 0 <= g < |groups| ensures groups[g] != [] && Distinct(groups[g]) {
      GroupMembers(benchmarks, workloads[g]);
    }
    forall g, h | 0 <= g < h < |groups| ensures Disjoint(groups[g], groups[h]) {
      GroupsAreDisjoint(benchmarks, workloads[g], workloads[h]);
    }
  }

  lemma KeysAreNames(benchmarks: seq<Benchmark>, workloads: seq<string>, weights: Weights)
    requires Distinct(Names(benchmarks)) && AreWorkloads(workloads, benchmarks)
    requires forall name :: name in weights <==> InSome(name, Groups(benchmarks, workloads))
    ensures forall name :: name in weights <==> name in Names(benchmarks)
  {
    forall name ensures name in weights <==> name in Names(benchmarks) {
      if name in weights {
        var g :| 0 <= g < |workloads| && name in Groups(benchmarks, workloads)[g];
        GroupMembers(benchmarks, workloads[g]);
        var i :| 0 <= i < |benchmarks| && benchmarks[i] == Benchmark(name, workloads[g]);
        assert Names(benchmarks)[i] == name;
      }
      if name in Names(benchmarks) {
        var i :| 0 <= i < |benchmarks| && Names(benchmarks)[i] == name;
        assert benchmarks[i].workload in workloads;
        var g :| 0 <= g < |workloads| && workloads[g] == benchmarks[i].workload;
        GroupMembers(benchmarks, workloads[g]);
        assert benchmarks[i] == Benchmark(name, workloads[g]);
        assert name in Groups(benchmarks, workloads)[g];
      }
    }
  }

  lemma {:induction false} OnesAddUp(weights: Weights, benchmarks: seq<Benchmark>, workloads: seq<string>)
    requires forall w :: w in workloads ==> Defined(weights, Group(benchmarks, w)) && Total(weights, Group(benchmarks, w)) == 1.0
    ensures GroupTotals(weights, benchmarks, workloads) == |workloads| as real
    decreases |workloads|
  {
    if workloads != [] {
      OnesAddUp(weights, benchmarks, workloads[..|workloads| - 1]);
    }
  }

  /** A workload with a total of one. */
  ghost predicate TotalsOne(weights: Weights, names: seq<string>) {
    Defined(weights, names) && Total(weights, names) == 1.0
  }

  lemma WeightedTotals(weights: Weights, benchmarks: seq<Benchmark>, workloads: seq<string>, customs: seq<Custom>, upper: Upper)
    requires forall g :: 0 <= g < |workloads| ==> Weighted(weights, Groups(benchmarks, workloads)[g], customs, upper)
    ensures forall w :: w in workloads ==> TotalsOne(weights, Group(benchmarks, w))
  {
    forall w | w in workloads ensures TotalsOne(weights, Group(benchmarks, w)) {
      var g :| 0 <= g < |workloads| && workloads[g] == w;
      assert Weighted(weights, Groups(benchmarks, workloads)[g], customs, upper);
    }
  }

  lemma GrandTotalIsCount(weights: Weights, benchmarks: seq<Benchmark>, workloads: seq<string>)
    requires AreWorkloads(workloads, benchmarks) && Defined(weights, Names(benchmarks))
    requires forall w :: w in workloads ==> TotalsOne(weights, Group(benchmarks, w))
    ensures Total(weights, Names(benchmarks)) == |workloads| as real
  {
    OnesAddUp(weights, benchmarks, workloads);
    GrandTotal(weights, benchmarks, workloads);
  }
}
