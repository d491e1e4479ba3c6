/** The analytics page: fetched creation times are grouped by their calendar date and
    counted, one chart bar per date. The date formatting (`toLocaleDateString`, which depends
    on the time zone and locale) is a parameter. */
module Analytics {
  import opened Wrappers
  import opened Schema

  /** One bar of the chart. */
  datatype ChartPoint = ChartPoint(date: string, count: nat)

  /** The `grouped` object: its own keys in property-creation order, and the number stored under each. */
  datatype Counter = Counter(order: seq<string>, counts: map<string, nat>)

  /** The key order lists each own key of the object exactly once. */
  ghost predicate Valid(c: Counter)
  {
    (forall i, j :: 0 <= i < j < |c.order| ==> c.order[i] != c.order[j])
    && (forall k :: k in c.counts <==> k in c.order)
  }

  /** `grouped[k] || 0` */
  function Get(c: Counter, k: string): nat
  {
    if k in c.counts then c.counts[k] else 0
  }

  /** `grouped[k] = (grouped[k] || 0) + 1`. Assigning to an existing property keeps its place
      in the enumeration order; a new property goes last. */
  function Increment(c: Counter, k: string): (r: Counter)
    ensures Valid(c) ==> Valid(r)
    ensures Get(r, k) == Get(c, k) + 1
    ensures forall k' :: k' != k ==> Get(r, k') == Get(c, k')
    ensures k in c.counts ==> r.order == c.order
    ensures k !in c.counts ==> r.order == c.order + [k]
  {
    Counter(if k in c.counts then c.order else c.order + [k], c.counts[k := Get(c, k) + 1])
  }

  /** `Object.entries(grouped).map(([date, count]) => ({ date, count }))` */
  function Entries(c: Counter): (r: seq<ChartPoint>)
    ensures |r| == |c.order|
    ensures forall a :: 0 <= a < |r| ==> r[a].date == c.order[a] && r[a].count == Get(c, c.order[a])
  {
    seq(|c.order|, i requires 0 <= i < |c.order| => ChartPoint(c.order[i], Get(c, c.order[i])))
  }

  /** The sum of the bar heights. */
  function Total(points: seq<ChartPoint>): nat
  {
    if points == [] then 0 else Total(points[..|points| - 1]) + points[|points| - 1].count
  }

  lemma TotalAppend(points: seq<ChartPoint>, p: ChartPoint)
    ensures Total(points + [p]) == Total(points) + p.count
  {
    assert (points + [p])[..|points|] == points;
  }

  /** Raising one bar by one raises the total by one. */
  lemma {:induction false} TotalBump(points: seq<ChartPoint>, j: nat)
    requires j < |points|
    ensures Total(points[j := points[j].(count := points[j].count + 1)]) == Total(points) + 1
  {
    var bumped := points[j := points[j].(count := points[j].count + 1)];
    var n := |points| - 1;
    if j == n {
      assert bumped[..n] == points[..n];
    } else {
      assert bumped[..n] == points[..n][j := points[j].(count := points[j].count + 1)];
      TotalBump(points[..n], j);
    }
  }

  /** The position of the first occurrence of `k` in `ks`. */
  ghost function FirstIndex(ks: seq<string>, k: string): (r: nat)
    requires k in ks
    ensures r < |ks| && ks[r] == k
    ensures forall j :: 0 <= j < r ==> ks[j] != k
  {
    if ks[0] == k then 0 else 1 + FirstIndex(ks[1..], k)
  }

  /** Each key's count in `c` is its number of occurrences in `ks`. */
  ghost predicate Counts(c: Counter, ks: seq<string>)
  {
    && (forall k :: Get(c, k) == multiset(ks)[k])
    && (forall k :: k in c.order <==> k in ks)
  }

  /** The keys of `c` appear in order of their first occurrence in `keys`, all before index `i`. */
  ghost predicate FirstOccurrenceOrder(c: Counter, keys: seq<string>, i: nat)
  {
    && (forall a :: 0 <= a < |c.order| ==> c.order[a] in keys && FirstIndex(keys, c.order[a]) < i)
    && (forall a, b :: 0 <= a < b < |c.order| ==>
          c.order[a] in keys && c.order[b] in keys &&
          FirstIndex(keys, c.order[a]) < FirstIndex(keys, c.order[b]))
  }

  /** Counting one more key `k` adds one occurrence of `k` and makes it a key. */
  lemma CountsSnoc(c: Counter, ks: seq<string>, k: string)
    requires Valid(c) && Counts(c, ks)
    ensures Counts(Increment(c, k), ks + [k])
  {
    var r := Increment(c, k);
    assert multiset(ks + [k]) == multiset(ks) + multiset{k};
    forall x ensures Get(r, x) == multiset(ks + [k])[x] {
      if x != k {
        assert Get(r, x) == Get(c, x);
      }
    }
    forall x ensures x in r.order <==> x in ks + [k] {
      assert x in ks + [k] <==> x in ks || x == k;
    }
  }

  lemma CountsStep(c: Counter, keys: seq<string>, i: nat)
    requires 0 < i <= |keys| && Valid(c) && Counts(c, keys[..i - 1])
    ensures Counts(Increment(c, keys[i - 1]), keys[..i])
  {
    assert keys[..i] == keys[..i - 1] + [keys[i - 1]];
    CountsSnoc(c, keys[..i - 1], keys[i - 1]);
  }

  /** Incrementing a listed key raises its own bar by one. */
  lemma EntriesBump(c: Counter, j: nat)
    requires Valid(c) && j < |c.order|
    ensures Entries(Increment(c, c.order[j]))
      == Entries(c)[j := Entries(c)[j].(count := Entries(c)[j].count + 1)]
  {
    var k := c.order[j];
    var es, es' := Entries(c), Entries(Increment(c, k));
    forall a | 0 <= a < |es| && a != j ensures es'[a] == es[a] {
      assert c.order[a] != k;
    }
  }

  /** Incrementing a new key appends a bar of height one. */
  lemma EntriesAppend(c: Counter, k: string)
    requires Valid(c) && k !in c.counts
    ensures Entries(Increment(c, k)) == Entries(c) + [ChartPoint(k, 1)]
  {
    var es, es' := Entries(c), Entries(Increment(c, k));
    forall a | 0 <= a < |es| ensures es'[a] == es[a] {
      assert c.order[a] != k;
    }
  }

  lemma TotalStepKnown(c: Counter, j: nat)
    requires Valid(c) && j < |c.order|
    ensures Total(Entries(Increment(c, c.order[j]))) == Total(Entries(c)) + 1
  {
    var es := Entries(c);
    var bumped := es[j := es[j].(count := es[j].count + 1)];
    EntriesBump(c, j);
    assert Entries(Increment(c, c.order[j])) == bumped;
    TotalBump(es, j);
    assert Total(bumped) == Total(es) + 1;
  }

  lemma TotalStepNew(c: Counter, k: string)
    requires Valid(c) && k !in c.counts
    ensures Total(Entries(Increment(c, k))) == Total(Entries(c)) + 1
  {
    EntriesAppend(c, k);
    TotalAppend(Entries(c), ChartPoint(k, 1));
  }

  lemma TotalStep(c: Counter, k: string)
    requires Valid(c)
    ensures Total(Entries(Increment(c, k))) == Total(Entries(c)) + 1
  {
    if k in c.counts {
      assert k in c.order;
      var j :| 0 <= j < |c.order| && c.order[j] == k;
      TotalStepKnown(c, j);
    } else {
      TotalStepNew(c, k);
    }
  }

  /** Counting a key seen before keeps the key order, so it stays ordered by first occurrence. */
  lemma OrderStepKnown(c: Counter, keys: seq<string>, i: nat)
    requires 0 < i <= |keys| && keys[i - 1] in c.counts && FirstOccurrenceOrder(c, keys, i - 1)
    ensures FirstOccurrenceOrder(Increment(c, keys[i - 1]), keys, i)
  {
    var r := Increment(c, keys[i - 1]);
    assert r.order == c.order;
    forall a | 0 <= a < |r.order|
      ensures r.order[a] in keys && FirstIndex(keys, r.order[a]) < i
    {
      assert r.order[a] == c.order[a];
    }
  }

  /** Counting a key not seen before appends it, and its first occurrence is the current row. */
  lemma OrderStepNew(c: Counter, keys: seq<string>, i: nat)
    requires 0 < i <= |keys| && keys[i - 1] !in keys[..i - 1] && keys[i - 1] !in c.counts
    requires FirstOccurrenceOrder(c, keys, i - 1)
    ensures FirstOccurrenceOrder(Increment(c, keys[i - 1]), keys, i)
  {
    var k := keys[i - 1];
    var r := Increment(c, k);
    var f := FirstIndex(keys, k);
    assert f == i - 1;
    assert r.order == c.order + [k];
    forall a | 0 <= a < |r.order|
      ensures r.order[a] in keys && FirstIndex(keys, r.order[a]) < i
    {
      if a < |c.order| {
        assert r.order[a] == c.order[a];
      }
    }
    forall a, b | 0 <= a < b < |r.order|
      ensures r.order[a] in keys && r.order[b] in keys
        && FirstIndex(keys, r.order[a]) < FirstIndex(keys, r.order[b])
    {
      assert r.order[a] == c.order[a];
      if b < |c.order| {
        assert r.order[b] == c.order[b];
      }
    }
  }

  lemma OrderStep(c: Counter, keys: seq<string>, i: nat)
    requires 0 < i <= |keys| && Valid(c) && Counts(c, keys[..i - 1])
    requires FirstOccurrenceOrder(c, keys, i - 1)
    ensures FirstOccurrenceOrder(Increment(c, keys[i - 1]), keys, i)
  {
    if keys[i - 1] in c.counts {
      OrderStepKnown(c, keys, i);
    } else {
      assert keys[i - 1] !in c.order;
      OrderStepNew(c, keys, i);
    }
  }

  /** The state of the `forEach` after the first `i` rows. */
  ghost predicate Tallied(c: Counter, keys: seq<string>, i: nat)
    requires i <= |keys|
  {
    Valid(c) && Counts(c, keys[..i]) && Total(Entries(c)) == i && FirstOccurrenceOrder(c, keys, i)
  }

  lemma TallyStep(c: Counter, keys: seq<string>, i: nat)
    requires 0 < i <= |keys| && Tallied(c, keys, i - 1)
    ensures Tallied(Increment(c, keys[i - 1]), keys, i)
  {
    CountsStep(c, keys, i);
    TotalStep(c, keys[i - 1]);
    OrderStep(c, keys, i);
  }

  /** The bars of a counter have distinct dates. */
  lemma ChartDistinct(c: Counter)
    requires Valid(c)
    ensures forall a, b :: 0 <= a < b < |Entries(c)| ==> Entries(c)[a].date != Entries(c)[b].date
  {
  }

  /** Once every key has been counted, each bar's date is a key and its height the number of
      occurrences of that key, so at least one. */
  lemma ChartCounts(c: Counter, keys: seq<string>)
    requires Counts(c, keys)
    ensures forall a :: 0 <= a < |Entries(c)| ==>
      Entries(c)[a].date in keys && Entries(c)[a].count == multiset(keys)[Entries(c)[a].date] >= 1
  {
    var chart := Entries(c);
    forall a | 0 <= a < |chart|
      ensures chart[a].date in keys && chart[a].count == multiset(keys)[chart[a].date] >= 1
    {
      var k := c.order[a];
      assert chart[a].date == k && chart[a].count == Get(c, k);
    }
  }

  /** Once every key has been counted, every key has a bar. */
  lemma ChartCovers(c: Counter, keys: seq<string>)
    requires Counts(c, keys)
    ensures forall k :: k in keys ==> exists a :: 0 <= a < |Entries(c)| && Entries(c)[a].date == k
  {
    var chart := Entries(c);
    forall k | k in keys ensures exists a :: 0 <= a < |chart| && chart[a].date == k {
      var a :| 0 <= a < |c.order| && c.order[a] == k;
      assert chart[a].date == k;
    }
  }

  /** The `grouped` object after the `forEach` has visited `keys`, in order. */
  function Tally(keys: seq<string>): Counter
  {
    if keys == [] then Counter([], map[])
    else Increment(Tally(keys[..|keys| - 1]), keys[|keys| - 1])
  }

  /** Tallying one more row counts that row into the tally of the rows before it. */
  lemma TallySnoc(keys: seq<string>, i: nat)
    requires 0 < i <= |keys|
    ensures Tally(keys[..i]) == Increment(Tally(keys[..i - 1]), keys[i - 1])
  {
    var prefix := keys[..i];
    assert prefix[..i - 1] == keys[..i - 1];
    assert prefix[i - 1] == keys[i - 1];
  }

  /** After the first `i` rows the tally has the counts, total and key order of that prefix. */
  lemma {:induction false} TallyPrefix(keys: seq<string>, i: nat)
    requires i <= |keys|
    ensures Tallied(Tally(keys[..i]), keys, i)
  {
    if i > 0 {
      TallyPrefix(keys, i - 1);
      TallySnoc(keys, i);
      TallyStep(Tally(keys[..i - 1]), keys, i);
    } else {
      assert keys[..0] == [];
    }
  }

  /** The tally of all the rows. */
  lemma TallyComplete(keys: seq<string>)
    ensures Valid(Tally(keys)) && Counts(Tally(keys), keys)
    ensures Total(Entries(Tally(keys))) == |keys|
    ensures FirstOccurrenceOrder(Tally(keys), keys, |keys|)
  {
    TallyPrefix(keys, |keys|);
    assert keys[..|keys|] == keys;
  }

  /** The bars of a counter whose keys are ordered by first occurrence are so ordered too. */
  lemma ChartOrder(c: Counter, keys: seq<string>)
    requires FirstOccurrenceOrder(c, keys, |keys|)
    ensures forall a, b :: 0 <= a < b < |Entries(c)| ==>
      Entries(c)[a].date in keys && Entries(c)[b].date in keys
      && FirstIndex(keys, Entries(c)[a].date) < FirstIndex(keys, Entries(c)[b].date)
  {
    var chart := Entries(c);
    forall a, b | 0 <= a < b < |chart|
      ensures chart[a].date in keys && chart[b].date in keys
        && FirstIndex(keys, chart[a].date) < FirstIndex(keys, chart[b].date)
    {
      assert chart[a].date == c.order[a] && chart[b].date == c.order[b];
    }
  }

  /** The chart of all the rows has pairwise distinct dates. */
  lemma TallyDistinct(keys: seq<string>, chart: seq<ChartPoint>)
    requires chart == Entries(Tally(keys))
    ensures forall a, b :: 0 <= a < b < |chart| ==> chart[a].date != chart[b].date
  {
    TallyComplete(keys);
    ChartDistinct(Tally(keys));
  }

  /** The chart of all the rows counts each date's rows. */
  lemma TallyCounts(keys: seq<string>, chart: seq<ChartPoint>)
    requires chart == Entries(Tally(keys))
    ensures forall a :: 0 <= a < |chart| ==>
      chart[a].date in keys && chart[a].count == multiset(keys)[chart[a].date] >= 1
    ensures forall k :: k in keys ==> exists a :: 0 <= a < |chart| && chart[a].date == k
  {
    TallyComplete(keys);
    ChartCounts(Tally(keys), keys);
    ChartCovers(Tally(keys), keys);
  }

  /** The bars of the chart of all the rows add up to the number of rows. */
  lemma TallyTotal(keys: seq<string>, chart: seq<ChartPoint>)
    requires chart == Entries(Tally(keys))
    ensures Total(chart) == |keys|
  {
    TallyComplete(keys);
  }

  /** The chart of all the rows lists dates by first occurrence. */
  lemma TallyOrder(keys: seq<string>, chart: seq<ChartPoint>)
    requires chart == Entries(Tally(keys))
    ensures forall a, b :: 0 <= a < b < |chart| ==>
      chart[a].date in keys && chart[b].date in keys
      && FirstIndex(keys, chart[a].date) < FirstIndex(keys, chart[b].date)
  {
    TallyComplete(keys);
    ChartOrder(Tally(keys), keys);
  }

  /** The `forEach` over the fetched rows followed by `Object.entries`, given the date key of
      each row: one bar per distinct key, in order of first occurrence, counting its rows. */
  method GroupByDate(keys: seq<string>) returns (chart: seq<ChartPoint>)
    ensures forall a, b :: 0 <= a < b < |chart| ==> chart[a].date != chart[b].date
    ensures forall a :: 0 <= a < |chart| ==> chart[a].date in keys
    ensures forall k :: k in keys ==> exists a :: 0 <= a < |chart| && chart[a].date == k
    ensures forall a :: 0 <= a < |chart| ==> chart[a].count == multiset(keys)[chart[a].date]
    ensures forall a :: 0 <= a < |chart| ==> chart[a].count >= 1
    ensures Total(chart) == |keys|
    ensures forall a, b :: 0 <= a < b < |chart| ==>
      FirstIndex(keys, chart[a].date) < FirstIndex(keys, chart[b].date)
  {
    var c := Counter([], map[]);
    var i := 0;
    while i < |keys|
      invariant i <= |keys|
      invariant c == Tally(keys[..i])
    {
      assert keys[..i + 1][..i] == keys[..i];
      c := Increment(c, keys[i]);
      i := i + 1;
    }
    assert keys[..i] == keys;
    chart := Entries(c);
    TallyDistinct(keys, chart);
    TallyCounts(keys, chart);
    TallyTotal(keys, chart);
    TallyOrder(keys, chart);
  }

  /** The date key of every fetched row, in fetch order. */
  function DateKeys(rows: seq<Timestamp>, dateKey: Timestamp -> string): (keys: seq<string>)
    ensures |keys| == |rows|
    ensures forall i :: 0 <= i < |rows| ==> keys[i] == dateKey(rows[i])
  {
    seq(|rows|, i requires 0 <= i < |rows| => dateKey(rows[i]))
  }

  /** `fetchData`: a null result leaves the chart as it was; otherwise the chart is rebuilt
      from the fetched rows, and its bars add up to the number of rows. */
  method FetchData(current: seq<ChartPoint>, data: Option<seq<Timestamp>>, dateKey: Timestamp -> string)
    returns (chart: seq<ChartPoint>)
    ensures data.None? ==> chart == current
    ensures data.Some? ==> Total(chart) == |data.value|
    ensures data.Some? ==> forall a :: 0 <= a < |chart| ==>
      chart[a].count == multiset(DateKeys(data.value, dateKey))[chart[a].date] && chart[a].count >= 1
    ensures data.Some? ==> forall a, b :: 0 <= a < b < |chart| ==> chart[a].date != chart[b].date
    ensures data.Some? ==> forall a :: 0 <= a < |chart| ==> chart[a].date in DateKeys(data.value, dateKey)
    ensures data.Some? ==> forall k :: k in DateKeys(data.value, dateKey) ==>
      exists a :: 0 <= a < |chart| && chart[a].date == k
    ensures data.Some? ==> forall a, b :: 0 <= a < b < |chart| ==>
      FirstIndex(DateKeys(data.value, dateKey), chart[a].date) < FirstIndex(DateKeys(data.value, dateKey), chart[b].date)
  {
    if data.None? {
      return current;
    }
    chart := GroupByDate(DateKeys(data.value, dateKey));
  }
}
