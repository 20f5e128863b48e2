/** IntegerAggregator: grouped MIN, MAX, SUM, AVG and COUNT over an integer field, kept as
    running per-group maps that are updated one tuple at a time. Java's int arithmetic wraps at
    32 bits; the model writes the wrap-around out (Wrap32) and Java's truncating division
    (TruncDiv). Each group's running state is specified by the values merged into it so far. */
module Aggregation {
  import opened Basics

  /** Aggregator.Op. SumCount and ScAvg are accepted by the constructor but allocate no maps,
      so their groups always report 0. */
  datatype Op = Min | Max | Sum | Avg | Count | SumCount | ScAvg

  /** Aggregator.NO_GROUPING. */
  const NoGrouping: int := -1

  /** The group of a tuple: its group-by field, or None (Java's null) without grouping. */
  type Key = Option<Field>

  function Abs(x: int): nat {
    if x < 0 then -x else x
  }

  /** Java's int division: the quotient is truncated toward zero. */
  function TruncDiv(a: int, b: int): int
    requires b != 0
  {
    var q := Abs(a) / Abs(b);
    if (a < 0) == (b < 0) then q else -q
  }

  /** TruncDiv is a division whose remainder is smaller than the divisor and takes the sign of
      the dividend. */
  lemma TruncDivRemainder(a: int, b: int)
    requires b != 0
    ensures var r := a - TruncDiv(a, b) * b;
            && Abs(r) < Abs(b)
            && (r == 0 || (r < 0 <==> a < 0))
  {
    var q, bb := Abs(a) / Abs(b), Abs(b);
    var m := Abs(a) % bb;
    assert Abs(a) == q * bb + m && 0 <= m < bb;
    if (a < 0) == (b < 0) {
      assert TruncDiv(a, b) * b == (if b < 0 then -(q * bb) else q * bb) by {
        if b < 0 { NegMul(q, bb); }
      }
    } else {
      assert TruncDiv(a, b) * b == (if b < 0 then q * bb else -(q * bb)) by {
        if b < 0 { NegNegMul(q, bb); } else { NegMul(q, bb); }
      }
    }
  }

  lemma NegMul(x: int, y: int)
    ensures x * -y == -(x * y) && -x * y == -(x * y)
  {
  }

  lemma NegNegMul(x: int, y: int)
    ensures -x * -y == x * y
  {
  }

  /** On non-negative operands TruncDiv is Dafny's division, and it is odd in the dividend:
      Java rounds toward zero where Dafny's division rounds down. */
  lemma TruncDivAgrees(a: int, b: int)
    requires b != 0
    ensures a >= 0 && b > 0 ==> TruncDiv(a, b) == a / b
    ensures TruncDiv(-a, b) == -TruncDiv(a, b)
  {
    var q := Abs(a) / Abs(b);
    assert Abs(-a) == Abs(a);
    if a == 0 {
      assert q == 0;
    }
  }

  /** The sum of the merged values, exactly. */
  function SumOf(vs: seq<int>): int
    decreases |vs|
  {
    if vs == [] then 0 else SumOf(vs[..|vs| - 1]) + vs[|vs| - 1]
  }

  /** The running minimum: Math.min of each value and the previous one, starting from
      Integer.MAX_VALUE. */
  function MinOf(vs: seq<int>): int
    decreases |vs|
  {
    if vs == [] then IntMax
    else
      var prev := MinOf(vs[..|vs| - 1]);
      var v := vs[|vs| - 1];
      if v <= prev then v else prev
  }

  /** The running maximum, starting from Integer.MIN_VALUE. */
  function MaxOf(vs: seq<int>): int
    decreases |vs|
  {
    if vs == [] then IntMin
    else
      var prev := MaxOf(vs[..|vs| - 1]);
      var v := vs[|vs| - 1];
      if v >= prev then v else prev
  }

  /** Merging one more value into a group: the running sum, minimum and maximum step as
      mergeTupleIntoGroup steps them. */
  lemma Snoc(prev: seq<int>, v: int)
    ensures SumOf(prev + [v]) == SumOf(prev) + v
    ensures MinOf(prev + [v]) == if v <= MinOf(prev) then v else MinOf(prev)
    ensures MaxOf(prev + [v]) == if v >= MaxOf(prev) then v else MaxOf(prev)
  {
    assert (prev + [v])[..|prev|] == prev;
  }

  predicate AllInt32(vs: seq<int>) {
    forall i | 0 <= i < |vs| :: IsInt32(vs[i])
  }

  /** MIN over a group is one of its values and no larger than any of them. */
  lemma {:induction false} MinOfSpec(vs: seq<int>)
    requires vs != [] && AllInt32(vs)
    ensures MinOf(vs) in vs
    ensures forall i | 0 <= i < |vs| :: MinOf(vs) <= vs[i]
    decreases |vs|
  {
    var front := vs[..|vs| - 1];
    if front != [] {
      MinOfSpec(front);
      assert forall i | 0 <= i < |front| :: front[i] == vs[i];
    }
  }

  /** MAX over a group is one of its values and no smaller than any of them. */
  lemma {:induction false} MaxOfSpec(vs: seq<int>)
    requires vs != [] && AllInt32(vs)
    ensures MaxOf(vs) in vs
    ensures forall i | 0 <= i < |vs| :: vs[i] <= MaxOf(vs)
    decreases |vs|
  {
    var front := vs[..|vs| - 1];
    if front != [] {
      MaxOfSpec(front);
      assert forall i | 0 <= i < |front| :: front[i] == vs[i];
    }
  }

  /** The aggregate a group reports after the values vs were merged into it. An AVG group
      divides the wrapped sum by the wrapped count, so its count must not have wrapped to 0. */
  function Aggregate(what: Op, vs: seq<int>): int
    requires what == Avg ==> CountOf(vs) != 0
  {
    match what
    case Min => MinOf(vs)
    case Max => MaxOf(vs)
    case Sum => Wrap32(SumOf(vs))
    case Count => Wrap32(|vs|)
    case Avg => Wrap32(TruncDiv(Wrap32(SumOf(vs)), Wrap32(|vs|)))
    case SumCount => 0
    case ScAvg => 0
  }

  /** Without overflow, SUM and COUNT are the exact sum and count. */
  lemma SumAndCountExact(vs: seq<int>)
    ensures IsInt32(SumOf(vs)) ==> Aggregate(Sum, vs) == SumOf(vs)
    ensures |vs| <= IntMax ==> Aggregate(Count, vs) == |vs|
  {
  }

  /** Without overflow, AVG lies between the group's MIN and MAX. */
  lemma AvgWithinRange(vs: seq<int>)
    requires vs != [] && AllInt32(vs)
    requires IsInt32(SumOf(vs)) && |vs| <= IntMax
    ensures MinOf(vs) <= Aggregate(Avg, vs) <= MaxOf(vs)
  {
    var n, s := |vs|, SumOf(vs);
    var lo, hi := MinOf(vs), MaxOf(vs);
    SumBounds(vs);
    MinOfSpec(vs);
    MaxOfSpec(vs);
    assert IsInt32(lo) && IsInt32(hi);
    var q := TruncDiv(s, n);
    if s >= 0 {
      DivBounds(s, n, lo, hi);
    } else {
      NegMul(n, lo);
      NegMul(n, hi);
      DivBounds(-s, n, -hi, -lo);
    }
    assert lo <= q <= hi;
    assert Aggregate(Avg, vs) == Wrap32(q);
  }

  /** n * MIN <= SUM <= n * MAX over a group of n values. */
  lemma {:induction false} SumBounds(vs: seq<int>)
    requires vs != [] && AllInt32(vs)
    ensures |vs| * MinOf(vs) <= SumOf(vs) <= |vs| * MaxOf(vs)
    decreases |vs|
  {
    var front := vs[..|vs| - 1];
    var v := vs[|vs| - 1];
    assert IsInt32(v);
    if front == [] {
      assert MinOf(vs) == v == MaxOf(vs);
    } else {
      assert AllInt32(front) by {
        assert forall i | 0 <= i < |front| :: front[i] == vs[i];
      }
      SumBounds(front);
      var n := |front|;
      var lo, lo' := MinOf(front), MinOf(vs);
      var hi, hi' := MaxOf(front), MaxOf(vs);
      assert lo' <= lo && lo' <= v && hi <= hi' && v <= hi';
      MulMono(n, lo', lo);
      MulMono(n, hi, hi');
      MulSucc(n, lo');
      MulSucc(n, hi');
    }
  }

  lemma MulSucc(n: nat, x: int)
    ensures (n + 1) * x == n * x + x
  {
  }

  lemma MulMono(n: nat, a: int, b: int)
    requires a <= b
    ensures n * a <= n * b
  {
    assert n * b - n * a == n * (b - a);
  }

  /** lo <= x / n <= hi whenever n * lo <= x <= n * hi. */
  lemma DivBounds(x: int, n: int, lo: int, hi: int)
    requires n > 0 && n * lo <= x <= n * hi
    ensures lo <= x / n <= hi
  {
    var q := x / n;
    assert x == n * q + x % n && 0 <= x % n < n;
    if q < lo {
      MulMono(n, q + 1, lo);
      MulSucc'(n, q);
    } else if q > hi {
      MulMono(n, hi + 1, q);
      MulSucc'(n, hi);
    }
  }

  lemma MulSucc'(n: nat, x: int)
    ensures n * (x + 1) == n * x + n
  {
  }

  /** The output tuple of a group: (group value, aggregate) with grouping, (aggregate) without. */
  function ResultTuple(key: Key, agg: int): (t: Tuple)
    ensures key.Some? ==> |t| == 2 && t[0] == key.value && t[1] == IntField(agg)
    ensures key.None? ==> t == [IntField(agg)]
  {
    match key
    case Some(g) => [g, IntField(agg)]
    case None => [IntField(agg)]
  }

  /** The values merged into a group so far; none for a group not seen yet. */
  function GroupValues(merged: map<Key, seq<int>>, key: Key): seq<int> {
    if key in merged then merged[key] else []
  }

  /** Lines 108 and 113 in int arithmetic: one more than the stored count (init's 0 for a new
      group) is the count of the extended group. */
  lemma CountStep(merged: map<Key, seq<int>>, key: Key, value: int)
    ensures Wrap32(Init(StatMap(merged, Count), key, 0) + 1) == Stat(Count, GroupValues(merged, key) + [value])
  {
    WrapAdd(|GroupValues(merged, key)|, 1);
  }

  /** Lines 109 and 117 in int arithmetic: the stored sum (init's 0 for a new group) plus the
      value is the sum of the extended group. */
  lemma SumStep(merged: map<Key, seq<int>>, key: Key, value: int)
    ensures Wrap32(Init(StatMap(merged, Sum), key, 0) + value) == Stat(Sum, GroupValues(merged, key) + [value])
  {
    var prev := GroupValues(merged, key);
    Snoc(prev, value);
    WrapAdd(SumOf(prev), value);
  }

  /** Line 121: Math.min of the value and the stored minimum (init's Integer.MAX_VALUE for a new
      group) is the minimum of the extended group. */
  lemma MinStep(merged: map<Key, seq<int>>, key: Key, value: int)
    ensures var cur := Init(StatMap(merged, Min), key, IntMax);
            (if value <= cur then value else cur) == Stat(Min, GroupValues(merged, key) + [value])
  {
    Snoc(GroupValues(merged, key), value);
  }

  /** Line 125: Math.max of the value and the stored maximum (init's Integer.MIN_VALUE for a new
      group) is the maximum of the extended group. */
  lemma MaxStep(merged: map<Key, seq<int>>, key: Key, value: int)
    ensures var cur := Init(StatMap(merged, Max), key, IntMin);
            (if value >= cur then value else cur) == Stat(Max, GroupValues(merged, key) + [value])
  {
    Snoc(GroupValues(merged, key), value);
  }

  /** Line 110: the stored sum divided by the stored count is the group's AVG. */
  lemma AvgStep(vs: seq<int>, sum: int, count: int)
    requires sum == WrappedSum(vs) && count == CountOf(vs) && count != 0
    ensures Wrap32(TruncDiv(sum, count)) == Aggregate(Avg, vs)
  {
  }

  /** The value init returns: the stored one, else the default (which init also stores, but
      every caller overwrites that entry straight away). */
  function Init(m: map<Key, int>, key: Key, dflt: int): int {
    if key in m then m[key] else dflt
  }

  /** What a COUNT map holds for a group: the wrapped number of merged values. */
  function CountOf(vs: seq<int>): int {
    Wrap32(|vs|)
  }

  /** What a SUM map holds for a group: the wrapped sum of the merged values. */
  function WrappedSum(vs: seq<int>): int {
    Wrap32(SumOf(vs))
  }

  /** The running statistic a map of the given kind holds for a group with values vs: the
      wrapped count, the wrapped sum, the minimum or the maximum. */
  function Stat(kind: Op, vs: seq<int>): int {
    match kind
    case Count => CountOf(vs)
    case Sum => WrappedSum(vs)
    case Min => MinOf(vs)
    case Max => MaxOf(vs)
    case _ => 0
  }

  /** The running map of the given kind after the values in merged: the statistic of each
      group seen. */
  function StatMap(merged: map<Key, seq<int>>, kind: Op): map<Key, int> {
    map k | k in merged :: Stat(kind, merged[k])
  }

  lemma StatMapStep(merged: map<Key, seq<int>>, kind: Op, key: Key, vs: seq<int>)
    ensures StatMap(merged[key := vs], kind) == StatMap(merged, kind)[key := Stat(kind, vs)]
  {
  }

  /** Under AVG no group's count has wrapped to 0. */
  ghost predicate AvgDefined(what: Op, merged: map<Key, seq<int>>) {
    what == Avg ==> forall k | k in merged :: CountOf(merged[k]) != 0
  }

  /** The result map after the values in merged: each group's output tuple. */
  function ResultMap(what: Op, merged: map<Key, seq<int>>): map<Key, Tuple>
    requires AvgDefined(what, merged)
  {
    map k | k in merged :: ResultTuple(k, Aggregate(what, merged[k]))
  }

  lemma ResultMapUpdate(what: Op, merged: map<Key, seq<int>>, key: Key, vs: seq<int>)
    requires AvgDefined(what, merged) && (what == Avg ==> CountOf(vs) != 0)
    ensures AvgDefined(what, merged[key := vs])
    ensures ResultMap(what, merged[key := vs]) == ResultMap(what, merged)[key := ResultTuple(key, Aggregate(what, vs))]
  {
  }

  /** The state of an aggregator for operator what after the values in merged: each running
      map the operator uses holds its statistic, the others are null, every group seen has a
      value, every value merged is a Java int, and the result map holds each group's output
      tuple. */
  ghost predicate Inv(what: Op, counts: Option<map<Key, int>>, sums: Option<map<Key, int>>,
                      mins: Option<map<Key, int>>, maxs: Option<map<Key, int>>,
                      results: map<Key, Tuple>, merged: map<Key, seq<int>>) {
    && counts == (if what == Count || what == Avg then Some(StatMap(merged, Count)) else None)
    && sums == (if what == Sum || what == Avg then Some(StatMap(merged, Sum)) else None)
    && mins == (if what == Min then Some(StatMap(merged, Min)) else None)
    && maxs == (if what == Max then Some(StatMap(merged, Max)) else None)
    && (forall k | k in merged :: merged[k] != [] && AllInt32(merged[k]))
    && AvgDefined(what, merged)
    && results == ResultMap(what, merged)
  }

  /** A running map after one group's statistic is stored; a null map stays null. */
  function Stepped(m: Option<map<Key, int>>, kind: Op, key: Key, vs: seq<int>): Option<map<Key, int>> {
    if m.Some? then Some(m.value[key := Stat(kind, vs)]) else None
  }

  /** Merging values vs into one group: storing each statistic of vs and the group's new output
      tuple keeps the state consistent. */
  lemma InvStep(what: Op, counts: Option<map<Key, int>>, sums: Option<map<Key, int>>,
                mins: Option<map<Key, int>>, maxs: Option<map<Key, int>>,
                results: map<Key, Tuple>, merged: map<Key, seq<int>>, key: Key, vs: seq<int>,
                counts': Option<map<Key, int>>, sums': Option<map<Key, int>>,
                mins': Option<map<Key, int>>, maxs': Option<map<Key, int>>, agg: int)
    requires Inv(what, counts, sums, mins, maxs, results, merged)
    requires vs != [] && AllInt32(vs) && (what == Avg ==> CountOf(vs) != 0)
    requires counts' == Stepped(counts, Count, key, vs) && sums' == Stepped(sums, Sum, key, vs)
    requires mins' == Stepped(mins, Min, key, vs) && maxs' == Stepped(maxs, Max, key, vs)
    requires agg == Aggregate(what, vs)
    ensures Inv(what, counts', sums', mins', maxs', results[key := ResultTuple(key, agg)], merged[key := vs])
  {
    StatMapStep(merged, Count, key, vs);
    StatMapStep(merged, Sum, key, vs);
    StatMapStep(merged, Min, key, vs);
    StatMapStep(merged, Max, key, vs);
    ResultMapUpdate(what, merged, key, vs);
  }

  /* Each case of mergeTupleIntoGroup's switch, on the running maps: it stores the group's new
     statistics and output tuple, and the state stays consistent with the values merged so far. */

  /** Lines 108-110: bump the count and the sum, report their quotient. */
  method MergeAvg(what: Op, groupCount: Option<map<Key, int>>, groupSum: Option<map<Key, int>>,
                    groupMin: Option<map<Key, int>>, groupMax: Option<map<Key, int>>,
                    groupTuple: map<Key, Tuple>, ghost merged: map<Key, seq<int>>, key: Key, value: int)
    returns (groupCount': Option<map<Key, int>>, groupSum': Option<map<Key, int>>,
             groupTuple': map<Key, Tuple>, ghost merged': map<Key, seq<int>>)
    requires Inv(what, groupCount, groupSum, groupMin, groupMax, groupTuple, merged)
    requires IsInt32(value)
    requires what == Avg && CountOf(GroupValues(merged, key) + [value]) != 0
    ensures merged' == merged[key := GroupValues(merged, key) + [value]]
    ensures groupTuple' == groupTuple[key := ResultTuple(key, Aggregate(what, merged'[key]))]
    ensures Inv(what, groupCount', groupSum', groupMin, groupMax, groupTuple', merged')
  {
    ghost var vs := GroupValues(merged, key) + [value];
    var counts, sums := groupCount.value, groupSum.value;
    CountStep(merged, key, value);
    SumStep(merged, key, value);
    var count := Wrap32(Init(counts, key, 0) + 1);
    var sum := Wrap32(Init(sums, key, 0) + value);
    AvgStep(vs, sum, count);
    var aggregateValue := Wrap32(TruncDiv(sum, count));
    groupCount', groupSum' := Some(counts[key := count]), Some(sums[key := sum]);
    merged', groupTuple' := merged[key := vs], groupTuple[key := ResultTuple(key, aggregateValue)];
    InvStep(what, groupCount, groupSum, groupMin, groupMax, groupTuple, merged, key, vs,
            groupCount', groupSum', groupMin, groupMax, aggregateValue);
  }

  /** Lines 113-114: bump the count and report it. */
  method MergeCount(what: Op, groupCount: Option<map<Key, int>>, groupSum: Option<map<Key, int>>,
                    groupMin: Option<map<Key, int>>, groupMax: Option<map<Key, int>>,
                    groupTuple: map<Key, Tuple>, ghost merged: map<Key, seq<int>>, key: Key, value: int)
    returns (groupCount': Option<map<Key, int>>, groupTuple': map<Key, Tuple>, ghost merged': map<Key, seq<int>>)
    requires Inv(what, groupCount, groupSum, groupMin, groupMax, groupTuple, merged)
    requires IsInt32(value)
    requires what == Count
    ensures merged' == merged[key := GroupValues(merged, key) + [value]]
    ensures groupTuple' == groupTuple[key := ResultTuple(key, Aggregate(what, merged'[key]))]
    ensures Inv(what, groupCount', groupSum, groupMin, groupMax, groupTuple', merged')
  {
    ghost var vs := GroupValues(merged, key) + [value];
    var counts := groupCount.value;
    CountStep(merged, key, value);
    var count := Wrap32(Init(counts, key, 0) + 1);
    var aggregateValue := count;
    groupCount' := Some(counts[key := count]);
    merged', groupTuple' := merged[key := vs], groupTuple[key := ResultTuple(key, aggregateValue)];
    InvStep(what, groupCount, groupSum, groupMin, groupMax, groupTuple, merged, key, vs,
            groupCount', groupSum, groupMin, groupMax, aggregateValue);
  }

  /** Lines 117-118: add to the sum and report it. */
  method MergeSum(what: Op, groupCount: Option<map<Key, int>>, groupSum: Option<map<Key, int>>,
                    groupMin: Option<map<Key, int>>, groupMax: Option<map<Key, int>>,
                    groupTuple: map<Key, Tuple>, ghost merged: map<Key, seq<int>>, key: Key, value: int)
    returns (groupSum': Option<map<Key, int>>, groupTuple': map<Key, Tuple>, ghost merged': map<Key, seq<int>>)
    requires Inv(what, groupCount, groupSum, groupMin, groupMax, groupTuple, merged)
    requires IsInt32(value)
    requires what == Sum
    ensures merged' == merged[key := GroupValues(merged, key) + [value]]
    ensures groupTuple' == groupTuple[key := ResultTuple(key, Aggregate(what, merged'[key]))]
    ensures Inv(what, groupCount, groupSum', groupMin, groupMax, groupTuple', merged')
  {
    ghost var vs := GroupValues(merged, key) + [value];
    var sums := groupSum.value;
    SumStep(merged, key, value);
    var sum := Wrap32(Init(sums, key, 0) + value);
    var aggregateValue := sum;
    groupSum' := Some(sums[key := sum]);
    merged', groupTuple' := merged[key := vs], groupTuple[key := ResultTuple(key, aggregateValue)];
    InvStep(what, groupCount, groupSum, groupMin, groupMax, groupTuple, merged, key, vs,
            groupCount, groupSum', groupMin, groupMax, aggregateValue);
  }

  /** Lines 121-122: lower the minimum (starting from Integer.MAX_VALUE) and report it. */
  method MergeMin(what: Op, groupCount: Option<map<Key, int>>, groupSum: Option<map<Key, int>>,
                    groupMin: Option<map<Key, int>>, groupMax: Option<map<Key, int>>,
                    groupTuple: map<Key, Tuple>, ghost merged: map<Key, seq<int>>, key: Key, value: int)
    returns (groupMin': Option<map<Key, int>>, groupTuple': map<Key, Tuple>, ghost merged': map<Key, seq<int>>)
    requires Inv(what, groupCount, groupSum, groupMin, groupMax, groupTuple, merged)
    requires IsInt32(value)
    requires what == Min
    ensures merged' == merged[key := GroupValues(merged, key) + [value]]
    ensures groupTuple' == groupTuple[key := ResultTuple(key, Aggregate(what, merged'[key]))]
    ensures Inv(what, groupCount, groupSum, groupMin', groupMax, groupTuple', merged')
  {
    ghost var vs := GroupValues(merged, key) + [value];
    var mins := groupMin.value;
    MinStep(merged, key, value);
    var cur := Init(mins, key, IntMax);
    var aggregateValue := if value <= cur then value else cur;
    groupMin' := Some(mins[key := aggregateValue]);
    merged', groupTuple' := merged[key := vs], groupTuple[key := ResultTuple(key, aggregateValue)];
    InvStep(what, groupCount, groupSum, groupMin, groupMax, groupTuple, merged, key, vs,
            groupCount, groupSum, groupMin', groupMax, aggregateValue);
  }

  /** Lines 125-126: raise the maximum (starting from Integer.MIN_VALUE) and report it. */
  method MergeMax(what: Op, groupCount: Option<map<Key, int>>, groupSum: Option<map<Key, int>>,
                    groupMin: Option<map<Key, int>>, groupMax: Option<map<Key, int>>,
                    groupTuple: map<Key, Tuple>, ghost merged: map<Key, seq<int>>, key: Key, value: int)
    returns (groupMax': Option<map<Key, int>>, groupTuple': map<Key, Tuple>, ghost merged': map<Key, seq<int>>)
    requires Inv(what, groupCount, groupSum, groupMin, groupMax, groupTuple, merged)
    requires IsInt32(value)
    requires what == Max
    ensures merged' == merged[key := GroupValues(merged, key) + [value]]
    ensures groupTuple' == groupTuple[key := ResultTuple(key, Aggregate(what, merged'[key]))]
    ensures Inv(what, groupCount, groupSum, groupMin, groupMax', groupTuple', merged')
  {
    ghost var vs := GroupValues(merged, key) + [value];
    var maxs := groupMax.value;
    MaxStep(merged, key, value);
    var cur := Init(maxs, key, IntMin);
    var aggregateValue := if value >= cur then value else cur;
    groupMax' := Some(maxs[key := aggregateValue]);
    merged', groupTuple' := merged[key := vs], groupTuple[key := ResultTuple(key, aggregateValue)];
    InvStep(what, groupCount, groupSum, groupMin, groupMax, groupTuple, merged, key, vs,
            groupCount, groupSum, groupMin, groupMax', aggregateValue);
  }

  /** SUM_COUNT and SC_AVG fall through the switch: no running map changes and the group
      reports 0. */
  method MergeUnmapped(what: Op, groupCount: Option<map<Key, int>>, groupSum: Option<map<Key, int>>,
                    groupMin: Option<map<Key, int>>, groupMax: Option<map<Key, int>>,
                    groupTuple: map<Key, Tuple>, ghost merged: map<Key, seq<int>>, key: Key, value: int)
    returns (groupTuple': map<Key, Tuple>, ghost merged': map<Key, seq<int>>)
    requires Inv(what, groupCount, groupSum, groupMin, groupMax, groupTuple, merged)
    requires IsInt32(value)
    requires what == SumCount || what == ScAvg
    ensures merged' == merged[key := GroupValues(merged, key) + [value]]
    ensures groupTuple' == groupTuple[key := ResultTuple(key, Aggregate(what, merged'[key]))]
    ensures Inv(what, groupCount, groupSum, groupMin, groupMax, groupTuple', merged')
  {
    ghost var vs := GroupValues(merged, key) + [value];
    var aggregateValue := 0;
    merged', groupTuple' := merged[key := vs], groupTuple[key := ResultTuple(key, aggregateValue)];
    InvStep(what, groupCount, groupSum, groupMin, groupMax, groupTuple, merged, key, vs,
            groupCount, groupSum, groupMin, groupMax, aggregateValue);
  }

  /** The switch of mergeTupleIntoGroup on the operator, on the running maps: the maps the
      operator does not use are passed through. */
  method Merge(what: Op, groupCount: Option<map<Key, int>>, groupSum: Option<map<Key, int>>,
               groupMin: Option<map<Key, int>>, groupMax: Option<map<Key, int>>,
               groupTuple: map<Key, Tuple>, ghost merged: map<Key, seq<int>>, key: Key, value: int)
    returns (groupCount': Option<map<Key, int>>, groupSum': Option<map<Key, int>>,
             groupMin': Option<map<Key, int>>, groupMax': Option<map<Key, int>>,
             groupTuple': map<Key, Tuple>, ghost merged': map<Key, seq<int>>)
    requires Inv(what, groupCount, groupSum, groupMin, groupMax, groupTuple, merged)
    requires IsInt32(value)
    requires what == Avg ==> CountOf(GroupValues(merged, key) + [value]) != 0
    ensures merged' == merged[key := GroupValues(merged, key) + [value]]
    ensures groupTuple' == groupTuple[key := ResultTuple(key, Aggregate(what, merged'[key]))]
    ensures Inv(what, groupCount', groupSum', groupMin', groupMax', groupTuple', merged')
  {
    groupCount', groupSum', groupMin', groupMax' := groupCount, groupSum, groupMin, groupMax;
    match what {
      case Avg =>
        groupCount', groupSum', groupTuple', merged' := MergeAvg(what, groupCount, groupSum, groupMin, groupMax, groupTuple, merged, key, value);
      case Count =>
        groupCount', groupTuple', merged' := MergeCount(what, groupCount, groupSum, groupMin, groupMax, groupTuple, merged, key, value);
      case Sum =>
        groupSum', groupTuple', merged' := MergeSum(what, groupCount, groupSum, groupMin, groupMax, groupTuple, merged, key, value);
      case Min =>
        groupMin', groupTuple', merged' := MergeMin(what, groupCount, groupSum, groupMin, groupMax, groupTuple, merged, key, value);
      case Max =>
        groupMax', groupTuple', merged' := MergeMax(what, groupCount, groupSum, groupMin, groupMax, groupTuple, merged, key, value);
      case SumCount =>
        groupTuple', merged' := MergeUnmapped(what, groupCount, groupSum, groupMin, groupMax, groupTuple, merged, key, value);
      case ScAvg =>
        groupTuple', merged' := MergeUnmapped(what, groupCount, groupSum, groupMin, groupMax, groupTuple, merged, key, value);
    }
  }

  class IntegerAggregator {
    const gbfield: int
    const afield: nat
    const what: Op
    /** The running maps; None stands for a map the constructor left null for this operator. */
    var groupCount: Option<map<Key, int>>
    var groupSum: Option<map<Key, int>>
    var groupMin: Option<map<Key, int>>
    var groupMax: Option<map<Key, int>>
    var groupTuple: map<Key, Tuple>
    /** The values merged into each group so far, in order. */
    ghost var merged: map<Key, seq<int>>

    ghost function Merged(key: Key): seq<int>
      reads this
    {
      GroupValues(merged, key)
    }

    ghost predicate Valid()
      reads this
    {
      Inv(what, groupCount, groupSum, groupMin, groupMax, groupTuple, merged)
    }

    constructor (gbfield: int, afield: nat, what: Op)
      ensures Valid()
      ensures this.gbfield == gbfield && this.afield == afield && this.what == what
      ensures merged == map[] && groupTuple == map[]
    {
      this.gbfield := gbfield;
      this.afield := afield;
      this.what := what;
      groupTuple := map[];
      merged := map[];
      match what
      case Count =>
        groupCount, groupSum, groupMin, groupMax := Some(map[]), None, None, None;
      case Avg =>
        groupCount, groupSum, groupMin, groupMax := Some(map[]), Some(map[]), None, None;
      case Sum =>
        groupCount, groupSum, groupMin, groupMax := None, Some(map[]), None, None;
      case Max =>
        groupCount, groupSum, groupMin, groupMax := None, None, None, Some(map[]);
      case Min =>
        groupCount, groupSum, groupMin, groupMax := None, None, Some(map[]), None;
      case _ =>
        groupCount, groupSum, groupMin, groupMax := None, None, None, None;
    }

    /** The group a tuple falls in. */
    function KeyOf(tup: Tuple): Key
      requires gbfield == NoGrouping || 0 <= gbfield < |tup|
    {
      if gbfield == NoGrouping then None else Some(tup[gbfield])
    }

    /** mergeTupleIntoGroup: the aggregate field must be an IntField (the source casts it) holding
        an int; under AVG the division must not be by a count that wrapped to 0. */
    method MergeTupleIntoGroup(tup: Tuple)
      requires Valid()
      requires gbfield == NoGrouping || 0 <= gbfield < |tup|
      requires afield < |tup| && tup[afield].IntField? && IsInt32(tup[afield].value)
      requires what == Avg ==> CountOf(Merged(KeyOf(tup)) + [tup[afield].value]) != 0
      modifies this
      ensures Valid()
      ensures merged == old(merged)[KeyOf(tup) := old(Merged(KeyOf(tup))) + [tup[afield].value]]
      ensures groupTuple == old(groupTuple)[KeyOf(tup) := ResultTuple(KeyOf(tup), Aggregate(what, merged[KeyOf(tup)]))]
    {
      var key := KeyOf(tup);
      var value := tup[afield].value;
      groupCount, groupSum, groupMin, groupMax, groupTuple, merged :=
        Merge(what, groupCount, groupSum, groupMin, groupMax, groupTuple, merged, key, value);
    }

    /** iterator: the tuples of all groups seen so far, one per group, in no particular order. */
    method Iterator() returns (ts: set<Tuple>)
      requires Valid()
      ensures forall k | k in merged :: ResultTuple(k, Aggregate(what, merged[k])) in ts
      ensures forall t | t in ts :: exists k | k in merged :: t == ResultTuple(k, Aggregate(what, merged[k]))
      ensures what == Min ==> forall k | k in merged :: Aggregate(Min, merged[k]) in merged[k]
      ensures what == Min ==> forall k, i | k in merged && 0 <= i < |merged[k]| :: Aggregate(Min, merged[k]) <= merged[k][i]
      ensures what == Max ==> forall k | k in merged :: Aggregate(Max, merged[k]) in merged[k]
      ensures what == Max ==> forall k, i | k in merged && 0 <= i < |merged[k]| :: merged[k][i] <= Aggregate(Max, merged[k])
      ensures what == Avg ==> forall k | k in merged && IsInt32(SumOf(merged[k])) && |merged[k]| <= IntMax ::
                MinOf(merged[k]) <= Aggregate(Avg, merged[k]) <= MaxOf(merged[k])
    {
      forall k | k in merged
        ensures MinOf(merged[k]) in merged[k] && MaxOf(merged[k]) in merged[k]
        ensures forall i | 0 <= i < |merged[k]| :: MinOf(merged[k]) <= merged[k][i] <= MaxOf(merged[k])
        ensures IsInt32(SumOf(merged[k])) && |merged[k]| <= IntMax ==> MinOf(merged[k]) <= Aggregate(Avg, merged[k]) <= MaxOf(merged[k])
      {
        MinOfSpec(merged[k]);
        MaxOfSpec(merged[k]);
        if IsInt32(SumOf(merged[k])) && |merged[k]| <= IntMax {
          AvgWithinRange(merged[k]);
        }
      }
      ts := groupTuple.Values;
      forall k | k in merged
        ensures ResultTuple(k, Aggregate(what, merged[k])) in ts
      {
        assert groupTuple[k] == ResultTuple(k, Aggregate(what, merged[k]));
      }
      forall t | t in ts
        ensures exists k | k in merged :: t == ResultTuple(k, Aggregate(what, merged[k]))
      {
        var k :| k in groupTuple && groupTuple[k] == t;
        assert k in merged;
      }
    }
  }
}
