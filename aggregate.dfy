/*
 * The aggregation passes over the normalised table: group rows by a key,
 * then per group take the mean of the average price, the absolute range of
 * the minimum and of the maximum price, or the spread between the lowest
 * minimum and the highest maximum price, which is ranked per product.
 *
 * Prices are exact reals here; the grouped tables are maps from key to
 * result, so each key present in the rows appears once and no other does.
 */
module Aggregate {
  import opened Survey

  /** A normalised row: prices already converted to numbers. */
  type Record = Row<real>

  /** (ESTADO, MUNICÍPIO, ANO_MES, PRODUTO) */
  datatype CityMonthKey = CityMonthKey(state: string, city: string, yearMonth: string, product: string)

  /** (ESTADO, PRODUTO) or (REGIÃO, PRODUTO) */
  datatype AreaKey = AreaKey(area: string, product: string)

  /** (ESTADO, MUNICÍPIO, PRODUTO) */
  datatype CityKey = CityKey(state: string, city: string, product: string)

  function CityMonthOf(r: Record): CityMonthKey { CityMonthKey(r.state, r.city, r.yearMonth, r.product) }
  function StateOf(r: Record): AreaKey { AreaKey(r.state, r.product) }
  function RegionOf(r: Record): AreaKey { AreaKey(r.region, r.product) }
  function CityOf(r: Record): CityKey { CityKey(r.state, r.city, r.product) }
  function ProductOf(r: Record): string { r.product }

  function AvgPriceOf(r: Record): real { r.avgPrice }
  function MinPriceOf(r: Record): real { r.minPrice }
  function MaxPriceOf(r: Record): real { r.maxPrice }

  // ---------------------------------------------------------------- grouping

  /** The key combinations present in the rows. */
  ghost function KeysOf<K>(rows: seq<Record>, key: Record -> K): set<K> {
    set r | r in rows :: key(r)
  }

  /** The rows whose key is k, in table order. */
  function Select<K(==)>(rows: seq<Record>, key: Record -> K, k: K): (g: seq<Record>)
    ensures forall r :: r in g <==> r in rows && key(r) == k
    ensures forall r :: multiset(g)[r] == if key(r) == k then multiset(rows)[r] else 0
  {
    if rows == [] then []
    else
      var last := rows[|rows| - 1];
      assert rows == rows[..|rows| - 1] + [last];
      Select(rows[..|rows| - 1], key, k) + (if key(last) == k then [last] else [])
  }

  lemma SelectPresentKey<K>(rows: seq<Record>, key: Record -> K, k: K)
    requires k in KeysOf(rows, key)
    ensures |Select(rows, key, k)| > 0
  {
    var r :| r in rows && key(r) == k;
    assert r in Select(rows, key, k);
  }

  /** `unique()`: each key present in the rows, once. */
  function UniqueKeys<K(==,!new)>(rows: seq<Record>, key: Record -> K): (keys: seq<K>)
    ensures forall k :: k in keys <==> k in KeysOf(rows, key)
    ensures forall i, j :: 0 <= i < j < |keys| ==> keys[i] != keys[j]
  {
    if rows == [] then []
    else
      var last := rows[|rows| - 1];
      var keys := UniqueKeys(rows[..|rows| - 1], key);
      assert rows == rows[..|rows| - 1] + [last];
      assert KeysOf(rows, key) == KeysOf(rows[..|rows| - 1], key) + {key(last)};
      if key(last) in keys then keys else keys + [key(last)]
  }

  /** `df.groupby(key)`: each key present in the rows, mapped to its non-empty group. */
  function GroupBy<K(==,!new)>(rows: seq<Record>, key: Record -> K): (groups: map<K, seq<Record>>)
    ensures groups.Keys == KeysOf(rows, key)
    ensures forall k :: k in groups ==> groups[k] == Select(rows, key, k) && groups[k] != []
  {
    var keys := UniqueKeys(rows, key);
    var groups := map k | k in keys :: Select(rows, key, k);
    PresentKeysSelectRows(rows, key);
    groups
  }

  lemma PresentKeysSelectRows<K>(rows: seq<Record>, key: Record -> K)
    ensures forall k :: k in KeysOf(rows, key) ==> Select(rows, key, k) != []
  {
    forall k | k in KeysOf(rows, key) ensures Select(rows, key, k) != [] {
      SelectPresentKey(rows, key, k);
    }
  }

  /** One price column of a group. */
  function Column(g: seq<Record>, price: Record -> real): (c: seq<real>)
    ensures |c| == |g|
  {
    seq(|g|, i requires 0 <= i < |g| => price(g[i]))
  }

  // ------------------------------------------------------------- statistics

  function Min(s: seq<real>): (m: real)
    requires |s| > 0
    ensures m in s && forall i :: 0 <= i < |s| ==> m <= s[i]
  {
    if |s| == 1 then s[0]
    else
      var rest := Min(s[1..]);
      if s[0] <= rest then s[0] else rest
  }

  function Max(s: seq<real>): (m: real)
    requires |s| > 0
    ensures m in s && forall i :: 0 <= i < |s| ==> s[i] <= m
  {
    if |s| == 1 then s[0]
    else
      var rest := Max(s[1..]);
      if s[0] >= rest then s[0] else rest
  }

  function Sum(s: seq<real>): real {
    if s == [] then 0.0 else s[0] + Sum(s[1..])
  }

  lemma {:induction false} SumBounds(s: seq<real>, lo: real, hi: real)
    requires forall i :: 0 <= i < |s| ==> lo <= s[i] <= hi
    ensures |s| as real * lo <= Sum(s) <= |s| as real * hi
  {
    if s != [] {
      SumBounds(s[1..], lo, hi);
    }
  }

  /** The arithmetic mean, which lies between the smallest and the largest value. */
  function Mean(s: seq<real>): (m: real)
    requires |s| > 0
    ensures Min(s) <= m <= Max(s)
  {
    MeanBetween(s, Min(s), Max(s));
    Sum(s) / |s| as real
  }

  /** Values between lo and hi average to something between lo and hi. */
  lemma MeanBetween(s: seq<real>, lo: real, hi: real)
    requires |s| > 0 && forall i :: 0 <= i < |s| ==> lo <= s[i] <= hi
    ensures lo <= Sum(s) / |s| as real <= hi
  {
    var n, x := |s| as real, Sum(s);
    SumBounds(s, lo, hi);
    assert n * lo <= x <= n * hi;
    var q := x / n;
    assert x == n * q;
    Unscale(n, lo, q);
    Unscale(n, q, hi);
  }

  lemma Unscale(n: real, a: real, b: real)
    requires n > 0.0 && n * a <= n * b
    ensures a <= b
  {
    assert n * b - n * a == n * (b - a);
  }

  // ------------------------------------------------- passes A and B: means

  /**
   * `df.groupby(key).agg(f)`: one entry per key present in the rows, holding f
   * of that key's rows. pandas only ever hands f a non-empty group.
   */
  function GroupAgg<K(==,!new), V>(rows: seq<Record>, key: Record -> K, f: seq<Record> --> V): (table: map<K, V>)
    requires forall g: seq<Record> :: g != [] ==> f.requires(g)
    ensures table.Keys == KeysOf(rows, key)
    ensures forall k :: k in table ==> Select(rows, key, k) != [] && table[k] == f(Select(rows, key, k))
  {
    var keys := UniqueKeys(rows, key);
    PresentKeysSelectRows(rows, key);
    var table := map k | k in keys :: f(Select(rows, key, k));
    assert table.Keys == KeysOf(rows, key);
    table
  }

  /** The mean of a group's average prices. */
  function MeanAvgPrice(g: seq<Record>): (m: real)
    requires |g| > 0
    ensures Min(Column(g, AvgPriceOf)) <= m <= Max(Column(g, AvgPriceOf))
  {
    Mean(Column(g, AvgPriceOf))
  }

  /** The mean average price of each group. */
  function MeanBy<K(==,!new)>(rows: seq<Record>, key: Record -> K): (means: map<K, real>)
    ensures means.Keys == KeysOf(rows, key)
    ensures forall k :: k in means ==>
              var prices := Column(Select(rows, key, k), AvgPriceOf);
              |prices| > 0 && Min(prices) <= means[k] <= Max(prices)
  {
    GroupAgg(rows, key, MeanAvgPrice)
  }

  /** Pass A: mean average price per (state, city, month, product). */
  function MonthlyCityMeans(rows: seq<Record>): (means: map<CityMonthKey, real>)
    ensures means.Keys == KeysOf(rows, CityMonthOf)
    ensures forall r :: r in rows ==> CityMonthOf(r) in means
  {
    MeanBy(rows, CityMonthOf)
  }

  /** Pass B: mean average price per (state, product). */
  function StateMeans(rows: seq<Record>): (means: map<AreaKey, real>)
    ensures means.Keys == KeysOf(rows, StateOf)
    ensures forall r :: r in rows ==> StateOf(r) in means
  {
    MeanBy(rows, StateOf)
  }

  /** Pass B: mean average price per (region, product). */
  function RegionMeans(rows: seq<Record>): (means: map<AreaKey, real>)
    ensures means.Keys == KeysOf(rows, RegionOf)
    ensures forall r :: r in rows ==> RegionOf(r) in means
  {
    MeanBy(rows, RegionOf)
  }

  // ------------------------------------------------ pass C: absolute range

  /** Lowest and highest of the minimum price and of the maximum price, and the two ranges. */
  datatype PriceRanges = PriceRanges(
    minPriceLow: real, minPriceHigh: real,
    maxPriceLow: real, maxPriceHigh: real,
    minPriceRange: real, maxPriceRange: real)

  /** The group's ranges: each column's maximum minus its minimum, bounding every row of the group. */
  function RangesOf(g: seq<Record>): (p: PriceRanges)
    requires |g| > 0
    ensures p.minPriceRange == p.minPriceHigh - p.minPriceLow >= 0.0
    ensures p.maxPriceRange == p.maxPriceHigh - p.maxPriceLow >= 0.0
    ensures forall r :: r in g ==>
              p.minPriceLow <= r.minPrice <= p.minPriceHigh && p.maxPriceLow <= r.maxPrice <= p.maxPriceHigh
    ensures (exists r :: r in g && r.minPrice == p.minPriceLow)
            && (exists r :: r in g && r.minPrice == p.minPriceHigh)
            && (exists r :: r in g && r.maxPrice == p.maxPriceLow)
            && (exists r :: r in g && r.maxPrice == p.maxPriceHigh)
  {
    var mins, maxs := Column(g, MinPriceOf), Column(g, MaxPriceOf);
    ColumnFacts(g, MinPriceOf);
    ColumnFacts(g, MaxPriceOf);
    var minLow, minHigh := Min(mins), Max(mins);
    var maxLow, maxHigh := Min(maxs), Max(maxs);
    PriceRanges(minLow, minHigh, maxLow, maxHigh, minHigh - minLow, maxHigh - maxLow)
  }

  /** A column holds exactly the group's values of that price. */
  lemma ColumnFacts(g: seq<Record>, price: Record -> real)
    ensures forall r :: r in g ==> price(r) in Column(g, price)
    ensures forall x :: x in Column(g, price) ==> exists r :: r in g && price(r) == x
  {
    var c := Column(g, price);
    forall r | r in g ensures price(r) in c {
      var i :| 0 <= i < |g| && g[i] == r;
      assert c[i] == price(r);
    }
    forall x | x in c ensures exists r :: r in g && price(r) == x {
      var i :| 0 <= i < |c| && c[i] == x;
      assert g[i] in g;
    }
  }

  /**
   * Pass C: per (state, city, month, product), the absolute range of the
   * minimum price and of the maximum price: group maximum minus group
   * minimum of that column, never negative.
   */
  function AbsoluteRanges(rows: seq<Record>): (table: map<CityMonthKey, PriceRanges>)
    ensures table.Keys == KeysOf(rows, CityMonthOf)
    ensures forall k :: k in table ==>
              && table[k].minPriceRange == table[k].minPriceHigh - table[k].minPriceLow >= 0.0
              && table[k].maxPriceRange == table[k].maxPriceHigh - table[k].maxPriceLow >= 0.0
  {
    GroupAgg(rows, CityMonthOf, RangesOf)
  }

  /** Each row's prices lie within the lows and highs of its (state, city, month, product) entry. */
  lemma AbsoluteRangesBoundRows(rows: seq<Record>)
    ensures var table := AbsoluteRanges(rows);
            forall r :: r in rows ==>
              && CityMonthOf(r) in table
              && table[CityMonthOf(r)].minPriceLow <= r.minPrice <= table[CityMonthOf(r)].minPriceHigh
              && table[CityMonthOf(r)].maxPriceLow <= r.maxPrice <= table[CityMonthOf(r)].maxPriceHigh
  {
    var table := AbsoluteRanges(rows);
    var groups := GroupBy(rows, CityMonthOf);
    forall r | r in rows
      ensures && CityMonthOf(r) in table
              && table[CityMonthOf(r)].minPriceLow <= r.minPrice <= table[CityMonthOf(r)].minPriceHigh
              && table[CityMonthOf(r)].maxPriceLow <= r.maxPrice <= table[CityMonthOf(r)].maxPriceHigh
    {
      var k := CityMonthOf(r);
      assert k in KeysOf(rows, CityMonthOf);
      assert r in groups[k];
      assert table[k] == RangesOf(groups[k]);
    }
  }

  /**
   * Every low and high of an entry is the price of some row of that entry's group:
   * together with the bounds above they are that group's minimum and maximum.
   */
  lemma AbsoluteRangesAttained(rows: seq<Record>)
    ensures var table := AbsoluteRanges(rows);
            forall k :: k in table ==>
              && (exists r :: r in rows && CityMonthOf(r) == k && r.minPrice == table[k].minPriceLow)
              && (exists r :: r in rows && CityMonthOf(r) == k && r.minPrice == table[k].minPriceHigh)
              && (exists r :: r in rows && CityMonthOf(r) == k && r.maxPrice == table[k].maxPriceLow)
              && (exists r :: r in rows && CityMonthOf(r) == k && r.maxPrice == table[k].maxPriceHigh)
  {
    var table := AbsoluteRanges(rows);
    var groups := GroupBy(rows, CityMonthOf);
    forall k | k in table
      ensures && (exists r :: r in rows && CityMonthOf(r) == k && r.minPrice == table[k].minPriceLow)
              && (exists r :: r in rows && CityMonthOf(r) == k && r.minPrice == table[k].minPriceHigh)
              && (exists r :: r in rows && CityMonthOf(r) == k && r.maxPrice == table[k].maxPriceLow)
              && (exists r :: r in rows && CityMonthOf(r) == k && r.maxPrice == table[k].maxPriceHigh)
    {
      assert k in groups;
      var p := RangesOf(groups[k]);
      assert table[k] == p;
      var g := groups[k];
      var a: Record :| a in g && a.minPrice == p.minPriceLow;
      var b: Record :| b in g && b.minPrice == p.minPriceHigh;
      var c: Record :| c in g && c.maxPrice == p.maxPriceLow;
      var d: Record :| d in g && d.maxPrice == p.maxPriceHigh;
      assert a in rows && CityMonthOf(a) == k;
      assert b in rows && CityMonthOf(b) == k;
      assert c in rows && CityMonthOf(c) == k;
      assert d in rows && CityMonthOf(d) == k;
    }
  }

  /**
   * Pass C, variance half: the (state, city, month, product) groups whose
   * price variances are taken; the variance values themselves are not modelled.
   */
  function VarianceGroups(rows: seq<Record>): (groups: map<CityMonthKey, seq<Record>>)
    ensures groups.Keys == KeysOf(rows, CityMonthOf)
    ensures forall k :: k in groups ==>
              groups[k] != [] && forall r :: r in groups[k] <==> r in rows && CityMonthOf(r) == k
  {
    GroupBy(rows, CityMonthOf)
  }

  // --------------------------------------------------- pass D: price spread

  /** One (state, city, product) group: its lowest minimum, highest maximum and their difference. */
  datatype Spread = Spread(key: CityKey, lowestMin: real, highestMax: real, spread: real)

  /** The spread of one group: the highest maximum price less the lowest minimum price, both attained. */
  function SpreadOf(k: CityKey, g: seq<Record>): (e: Spread)
    requires |g| > 0
    ensures e.key == k && e.spread == e.highestMax - e.lowestMin
    ensures forall r :: r in g ==> e.lowestMin <= r.minPrice && r.maxPrice <= e.highestMax
    ensures (exists r :: r in g && r.minPrice == e.lowestMin) && (exists r :: r in g && r.maxPrice == e.highestMax)
  {
    ColumnFacts(g, MinPriceOf);
    ColumnFacts(g, MaxPriceOf);
    var lowest, highest := Min(Column(g, MinPriceOf)), Max(Column(g, MaxPriceOf));
    Spread(k, lowest, highest, highest - lowest)
  }

  /**
   * Pass D, first half: one entry per (state, city, product) group over the
   * whole period, whose spread is the group's highest maximum price minus
   * its lowest minimum price.
   */
  function SpreadTable(rows: seq<Record>): (table: seq<Spread>)
    ensures forall i, j :: 0 <= i < j < |table| ==> table[i].key != table[j].key
    ensures forall k :: k in KeysOf(rows, CityOf) <==> exists i :: 0 <= i < |table| && table[i].key == k
    ensures forall i :: 0 <= i < |table| ==>
              |Select(rows, CityOf, table[i].key)| > 0 && table[i] == SpreadOf(table[i].key, Select(rows, CityOf, table[i].key))
  {
    var keys := UniqueKeys(rows, CityOf);
    PresentKeysSelectRows(rows, CityOf);
    var table := seq(|keys|, i requires 0 <= i < |keys| => SpreadOf(keys[i], Select(rows, CityOf, keys[i])));
    SpreadTableKeys(rows, keys, table);
    table
  }

  lemma SpreadTableKeys(rows: seq<Record>, keys: seq<CityKey>, table: seq<Spread>)
    requires forall k :: k in keys <==> k in KeysOf(rows, CityOf)
    requires forall i, j :: 0 <= i < j < |keys| ==> keys[i] != keys[j]
    requires |table| == |keys| && forall i :: 0 <= i < |keys| ==> table[i].key == keys[i]
    ensures forall i, j :: 0 <= i < j < |table| ==> table[i].key != table[j].key
    ensures forall k :: k in KeysOf(rows, CityOf) <==> exists i :: 0 <= i < |table| && table[i].key == k
  {
    forall k | k in KeysOf(rows, CityOf) ensures exists i :: 0 <= i < |table| && table[i].key == k {
      var i :| 0 <= i < |keys| && keys[i] == k;
      assert table[i].key == k;
    }
  }

  /** Each entry's spread bounds every row of its group, and is attained by rows of the group. */
  lemma SpreadTableBoundsRows(rows: seq<Record>, i: int)
    requires 0 <= i < |SpreadTable(rows)|
    ensures var e := SpreadTable(rows)[i];
            && e.spread == e.highestMax - e.lowestMin
            && (forall r :: r in rows && CityOf(r) == e.key ==> e.lowestMin <= r.minPrice && r.maxPrice <= e.highestMax)
            && (exists r :: r in rows && CityOf(r) == e.key && r.minPrice == e.lowestMin)
            && (exists r :: r in rows && CityOf(r) == e.key && r.maxPrice == e.highestMax)
  {
    var e := SpreadTable(rows)[i];
    var g := Select(rows, CityOf, e.key);
    assert e == SpreadOf(e.key, g);
  }

  // ------------------------------------------------------------- ranking

  predicate SortedBySpread(s: seq<Spread>) {
    forall i, j :: 0 <= i < j < |s| ==> s[i].spread >= s[j].spread
  }

  function InsertBySpread(e: Spread, s: seq<Spread>): (r: seq<Spread>)
    ensures |r| == |s| + 1
    ensures multiset(r) == multiset(s) + multiset{e}
  {
    if s == [] then [e]
    else if e.spread >= s[0].spread then [e] + s
    else
      assert s == [s[0]] + s[1..];
      [s[0]] + InsertBySpread(e, s[1..])
  }

  /** `sort_values(..., ascending=False)` on the spread, by insertion; see SortBySpreadSorts. */
  function SortBySpread(s: seq<Spread>): (r: seq<Spread>)
    ensures |r| == |s|
    ensures multiset(r) == multiset(s)
  {
    if s == [] then []
    else
      assert s == [s[0]] + s[1..];
      InsertBySpread(s[0], SortBySpread(s[1..]))
  }

  /** A sorted sequence stays sorted under a new head no smaller than any of its entries. */
  lemma SortedCons(x: Spread, s: seq<Spread>)
    requires SortedBySpread(s)
    requires forall y :: y in s ==> y.spread <= x.spread
    ensures SortedBySpread([x] + s)
  {
    var t := [x] + s;
    forall i, j | 0 <= i < j < |t| ensures t[i].spread >= t[j].spread {
      if i > 0 {
        assert t[i] == s[i - 1] && t[j] == s[j - 1];
      } else {
        assert t[j] == s[j - 1];
        assert s[j - 1] in s;
      }
    }
  }

  lemma {:induction false} InsertBySpreadSorts(e: Spread, s: seq<Spread>)
    requires SortedBySpread(s)
    ensures SortedBySpread(InsertBySpread(e, s))
    ensures multiset(InsertBySpread(e, s)) == multiset(s) + multiset{e}
  {
    if s == [] {
    } else if e.spread >= s[0].spread {
      HeadIsLargest(s);
      SortedCons(e, s);
    } else {
      SortedTail(s);
      InsertBySpreadSorts(e, s[1..]);
      InsertBehindHead(e, s);
    }
  }

  /** Inserting behind a larger head: the head stays first, in front of the sorted insertion into the tail. */
  lemma InsertBehindHead(e: Spread, s: seq<Spread>)
    requires SortedBySpread(s) && s != [] && e.spread < s[0].spread
    requires SortedBySpread(InsertBySpread(e, s[1..]))
    requires multiset(InsertBySpread(e, s[1..])) == multiset(s[1..]) + multiset{e}
    ensures SortedBySpread(InsertBySpread(e, s))
    ensures multiset(InsertBySpread(e, s)) == multiset(s) + multiset{e}
  {
    var rest := InsertBySpread(e, s[1..]);
    assert InsertBySpread(e, s) == [s[0]] + rest;
    BelowHead(e, s, rest);
    SortedCons(s[0], rest);
  }

  lemma HeadIsLargest(s: seq<Spread>)
    requires SortedBySpread(s) && s != []
    ensures forall y :: y in s ==> y.spread <= s[0].spread
  {
    forall y | y in s ensures y.spread <= s[0].spread {
      var j :| 0 <= j < |s| && s[j] == y;
      assert j == 0 || s[0].spread >= s[j].spread;
    }
  }

  lemma SortedTail(s: seq<Spread>)
    requires SortedBySpread(s) && s != []
    ensures SortedBySpread(s[1..])
  {
    var tail := s[1..];
    forall i, j | 0 <= i < j < |tail| ensures tail[i].spread >= tail[j].spread {
      assert tail[i] == s[i + 1] && tail[j] == s[j + 1];
    }
  }

  /** Entries drawn from the tail of a descending sequence, or smaller than its head, stay below its head. */
  lemma BelowHead(e: Spread, s: seq<Spread>, rest: seq<Spread>)
    requires SortedBySpread(s) && s != [] && e.spread < s[0].spread
    requires multiset(rest) == multiset(s[1..]) + multiset{e}
    ensures forall y :: y in rest ==> y.spread <= s[0].spread
  {
    HeadIsLargest(s);
    forall y | y in rest ensures y.spread <= s[0].spread {
      assert y in multiset(rest);
      if y != e {
        assert y in s[1..];
      }
    }
  }

  /** Sorting yields a descending permutation of the table. */
  lemma {:induction false} SortBySpreadSorts(s: seq<Spread>)
    ensures SortedBySpread(SortBySpread(s))
    ensures multiset(SortBySpread(s)) == multiset(s)
  {
    if s != [] {
      SortBySpreadSorts(s[1..]);
      InsertBySpreadSorts(s[0], SortBySpread(s[1..]));
    }
  }

  /** `df[df['PRODUTO'] == product]`: the entries of one product, in order. */
  function OfProduct(s: seq<Spread>, product: string): (r: seq<Spread>)
    ensures |r| <= |s|
  {
    if s == [] then []
    else if s[0].key.product == product then [s[0]] + OfProduct(s[1..], product)
    else OfProduct(s[1..], product)
  }

  /** Filtering keeps exactly the product's entries, with their multiplicities, and keeps the order. */
  lemma OfProductSelects(s: seq<Spread>, product: string)
    ensures forall e :: multiset(OfProduct(s, product))[e] == if e.key.product == product then multiset(s)[e] else 0
    ensures SortedBySpread(s) ==> SortedBySpread(OfProduct(s, product))
  {
    OfProductCounts(s, product);
    if SortedBySpread(s) {
      OfProductKeepsOrder(s, product);
    }
  }

  lemma {:induction false} OfProductCounts(s: seq<Spread>, product: string)
    ensures forall e :: multiset(OfProduct(s, product))[e] == if e.key.product == product then multiset(s)[e] else 0
  {
    if s != [] {
      assert s == [s[0]] + s[1..];
      OfProductCounts(s[1..], product);
    }
  }

  lemma {:induction false} OfProductKeepsOrder(s: seq<Spread>, product: string)
    requires SortedBySpread(s)
    ensures SortedBySpread(OfProduct(s, product))
  {
    if s != [] {
      SortedTail(s);
      OfProductKeepsOrder(s[1..], product);
      if s[0].key.product == product {
        var rest := OfProduct(s[1..], product);
        OfProductCounts(s[1..], product);
        HeadIsLargest(s);
        forall y | y in rest ensures y.spread <= s[0].spread {
          assert multiset(rest)[y] > 0;
          assert y in s[1..];
          assert y in s;
        }
        SortedCons(s[0], rest);
      }
    }
  }

  /**
   * Pass D, second half: the first five entries of the product once the
   * table is sorted by spread, descending.
   */
  function TopFive(table: seq<Spread>, product: string): (top: seq<Spread>)
    ensures |top| <= 5
  {
    var ranked := OfProduct(SortBySpread(table), product);
    ranked[..if |ranked| < 5 then |ranked| else 5]
  }

  /**
   * The top five are that product's entries, as many as it has up to five,
   * in descending spread, and no entry of the product left out has a larger
   * spread than any listed one.
   */
  lemma TopFiveIsTopRanking(table: seq<Spread>, product: string)
    ensures var top := TopFive(table, product);
            var n := |OfProduct(table, product)|;
            && |top| == (if n < 5 then n else 5)
            && (forall e :: e in top ==> e.key.product == product)
            && multiset(top) <= multiset(table)
            && SortedBySpread(top)
            && (forall e, j :: e in table && e.key.product == product && e !in top && 0 <= j < |top| ==>
                  e.spread <= top[j].spread)
  {
    var ranked := OfProduct(SortBySpread(table), product);
    RankedIsFilteredTable(table, product);
    TopOfRanked(table, product, ranked, if |ranked| < 5 then |ranked| else 5);
  }

  /** The first m of a product's entries in descending spread: the facts above, for any such ranking. */
  lemma TopOfRanked(table: seq<Spread>, product: string, ranked: seq<Spread>, m: int)
    requires SortedBySpread(ranked) && 0 <= m <= |ranked|
    requires forall e :: multiset(ranked)[e] == if e.key.product == product then multiset(table)[e] else 0
    ensures var top := ranked[..m];
            && (forall e :: e in top ==> e.key.product == product)
            && multiset(top) <= multiset(table)
            && SortedBySpread(top)
            && (forall e, j :: e in table && e.key.product == product && e !in top && 0 <= j < |top| ==>
                  e.spread <= top[j].spread)
  {
    var top := ranked[..m];
    PrefixOfSorted(ranked, m);
    forall e | e in top ensures e.key.product == product && multiset(top)[e] <= multiset(table)[e] {
      assert multiset(ranked)[e] > 0;
    }
    assert multiset(top) <= multiset(table) by {
      forall e ensures multiset(top)[e] <= multiset(table)[e] {
        if e in top {
        }
      }
    }
    forall e, j | e in table && e.key.product == product && e !in top && 0 <= j < |top|
      ensures e.spread <= top[j].spread
    {
      assert multiset(ranked)[e] > 0;
    }
  }

  /** The product's entries of the sorted table: the same entries as in the table, now in descending spread. */
  lemma RankedIsFilteredTable(table: seq<Spread>, product: string)
    ensures var ranked := OfProduct(SortBySpread(table), product);
            && SortedBySpread(ranked)
            && |ranked| == |OfProduct(table, product)|
            && (forall e :: multiset(ranked)[e] == if e.key.product == product then multiset(table)[e] else 0)
  {
    var sorted := SortBySpread(table);
    var ranked := OfProduct(sorted, product);
    SortBySpreadSorts(table);
    OfProductSelects(sorted, product);
    OfProductSelects(table, product);
    assert multiset(ranked) == multiset(OfProduct(table, product)) by {
      forall e ensures multiset(ranked)[e] == multiset(OfProduct(table, product))[e] {
      }
    }
    assert |multiset(ranked)| == |ranked|;
    assert |multiset(OfProduct(table, product))| == |OfProduct(table, product)|;
  }

  /** A prefix of a descending sequence is descending, and every entry after it is no larger than any in it. */
  lemma PrefixOfSorted(ranked: seq<Spread>, m: int)
    requires SortedBySpread(ranked) && 0 <= m <= |ranked|
    ensures SortedBySpread(ranked[..m])
    ensures forall e :: multiset(ranked[..m])[e] <= multiset(ranked)[e]
    ensures forall e, j :: e in ranked && e !in ranked[..m] && 0 <= j < m ==> e.spread <= ranked[..m][j].spread
  {
    var top := ranked[..m];
    assert ranked == top + ranked[m..];
    assert multiset(ranked) == multiset(top) + multiset(ranked[m..]);
    forall e, j | e in ranked && e !in top && 0 <= j < m ensures e.spread <= top[j].spread {
      var i :| 0 <= i < |ranked| && ranked[i] == e;
      assert forall k :: 0 <= k < m ==> top[k] == ranked[k];
      assert i >= m;
    }
  }

  /**
   * The loop over `df['PRODUTO'].unique()`: for each product, its top five
   * of the spread table.
   */
  method RankByProduct(rows: seq<Record>) returns (products: seq<string>, rankings: seq<seq<Spread>>)
    ensures products == UniqueKeys(rows, ProductOf)
    ensures |rankings| == |products|
    ensures forall i :: 0 <= i < |products| ==> rankings[i] == TopFive(SpreadTable(rows), products[i])
  {
    products := UniqueKeys(rows, ProductOf);
    rankings := TopFives(SpreadTable(rows), products);
  }

  /** The loop body of RankByProduct, once per product. */
  method TopFives(table: seq<Spread>, products: seq<string>) returns (rankings: seq<seq<Spread>>)
    ensures |rankings| == |products|
    ensures forall i :: 0 <= i < |products| ==> rankings[i] == TopFive(table, products[i])
  {
    rankings := [];
    for i := 0 to |products|
      invariant |rankings| == i
      invariant forall j :: 0 <= j < i ==> rankings[j] == TopFive(table, products[j])
    {
      rankings := rankings + [TopFive(table, products[i])];
    }
  }
}
