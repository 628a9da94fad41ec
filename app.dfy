/**
  The landing redirect and the reporting endpoints of app.py: summary
  statistics, per-category totals for the chart, and the newest records.
  Each endpoint is a function of the rows the query returns; amounts are
  exact, so sums and means are exact too.
*/
module App {
  import opened Common
  import opened Text
  import opened Query
  import opened Store

  /** `index`: a signed-in viewer goes to the dashboard, anyone else to the login page. */
  function IndexTarget(v: Viewer): (p: Page)
    ensures p == Dashboard <==> v.SignedIn?
    ensures p == Dashboard || p == Login
  {
    if v.SignedIn? then Dashboard else Login
  }

  // ---------------------------------------------------------------------
  // GET /api/stats
  // ---------------------------------------------------------------------

  /** The sum of the amounts (`df['amount'].sum()`). */
  function Total(rs: seq<Record>): real
    decreases |rs|
  {
    if rs == [] then 0.0 else rs[0].amount + Total(rs[1..])
  }

  /** The distinct category values. */
  function CategorySet(rs: seq<Record>): set<string> {
    set r | r in rs :: r.category
  }

  /** The JSON object `{total_records, total_value, categories, avg_value}`. */
  datatype Stats = Stats(totalRecords: nat, totalValue: real, categories: nat, avgValue: real)

  /**
    `api_stats`: all zero without records; otherwise the count, the sum of the
    amounts, the number of distinct categories, and the mean, which times the
    count gives back the sum.
  */
  function ApiStats(rs: seq<Record>): (s: Stats)
    ensures rs == [] ==> s == Stats(0, 0.0, 0, 0.0)
    ensures rs != [] ==>
      && s.totalRecords == |rs|
      && s.totalValue == Total(rs)
      && s.categories == |CategorySet(rs)|
      && s.avgValue * (|rs| as real) == s.totalValue
  {
    if rs == [] then Stats(0, 0.0, 0, 0.0)
    else Stats(|rs|, Total(rs), |CategorySet(rs)|, Total(rs) / (|rs| as real))
  }

  /** The total of two runs of records is the sum of their totals. */
  lemma {:induction false} TotalAppend(a: seq<Record>, b: seq<Record>)
    ensures Total(a + b) == Total(a) + Total(b)
    decreases |a|
  {
    if a == [] {
      assert a + b == b;
    } else {
      assert (a + b)[1..] == a[1..] + b;
      TotalAppend(a[1..], b);
    }
  }

  /**
    The statistics do not depend on the order the query returns the rows in:
    the same rows in any order have the same total.
  */
  lemma {:induction false} TotalPermutation(a: seq<Record>, b: seq<Record>)
    requires multiset(a) == multiset(b)
    ensures Total(a) == Total(b)
    decreases |a|
  {
    if a != [] {
      var k := PermutationTail(a, b);
      TotalWithout(b, k);
      TotalPermutation(a[1..], b[..k] + b[k + 1..]);
    }
  }

  /** Taking one record out of a run takes its amount off the total. */
  lemma TotalWithout(b: seq<Record>, k: nat)
    requires k < |b|
    ensures Total(b) == b[k].amount + Total(b[..k] + b[k + 1..])
  {
    assert b == b[..k] + ([b[k]] + b[k + 1..]);
    TotalAppend(b[..k], [b[k]] + b[k + 1..]);
    assert ([b[k]] + b[k + 1..])[1..] == b[k + 1..];
    TotalAppend(b[..k], b[k + 1..]);
  }

  /** Same rows, same statistics, whatever their order. */
  lemma StatsIgnoreOrder(a: seq<Record>, b: seq<Record>)
    requires multiset(a) == multiset(b)
    ensures ApiStats(a) == ApiStats(b)
  {
    TotalPermutation(a, b);
    assert |a| == |multiset(a)| == |multiset(b)| == |b|;
    assert forall r :: r in a <==> r in b by {
      forall r ensures r in a <==> r in b {
        assert r in a <==> r in multiset(a);
        assert r in b <==> r in multiset(b);
      }
    }
    assert CategorySet(a) == CategorySet(b);
  }

  // ---------------------------------------------------------------------
  // GET /api/chart-data
  // ---------------------------------------------------------------------

  /** Every key is below every later key: sorted and free of repeats. */
  predicate StrictlyAscending(ks: seq<string>) {
    forall i, j :: 0 <= i < j < |ks| ==> LexLt(ks[i], ks[j])
  }

  /** `c` added to the group keys `ks`, unless it is one of them already. */
  function InsertKey(c: string, ks: seq<string>): (r: seq<string>)
    ensures forall x :: x in r <==> x == c || x in ks
    decreases |ks|
  {
    if ks == [] then [c]
    else if c == ks[0] then ks
    else if LexLe(c, ks[0]) then [c] + ks
    else [ks[0]] + InsertKey(c, ks[1..])
  }

  /** Adding a key keeps the keys strictly ascending. */
  lemma {:induction false} InsertKeyAscending(c: string, ks: seq<string>)
    requires StrictlyAscending(ks)
    ensures StrictlyAscending(InsertKey(c, ks))
    decreases |ks|
  {
    if ks == [] || c == ks[0] {
    } else if LexLe(c, ks[0]) {
      var r := [c] + ks;
      forall i, j | 0 <= i < j < |r| ensures LexLt(r[i], r[j]) {
        if i == 0 {
          if j > 1 {
            LexLeTransitive(c, ks[0], ks[j - 1]);
            if c == ks[j - 1] { LexLeAntisymmetric(ks[0], ks[j - 1]); }
          }
        } else {
          assert r[i] == ks[i - 1] && r[j] == ks[j - 1];
        }
      }
    } else {
      LexLeTotal(c, ks[0]);
      InsertKeyAscending(c, ks[1..]);
      var tail := InsertKey(c, ks[1..]);
      var r := [ks[0]] + tail;
      forall i, j | 0 <= i < j < |r| ensures LexLt(r[i], r[j]) {
        if i == 0 {
          assert tail[j - 1] in tail;
          if tail[j - 1] != c {
            var k :| 1 <= k < |ks| && ks[k] == tail[j - 1];
          }
        } else {
          assert r[i] == tail[i - 1] && r[j] == tail[j - 1];
        }
      }
    }
  }

  /** The group keys of `groupby('category')`: the distinct categories, ascending. */
  function GroupKeys(rs: seq<Record>): seq<string>
    decreases |rs|
  {
    if rs == [] then [] else InsertKey(rs[0].category, GroupKeys(rs[1..]))
  }

  lemma {:induction false} GroupKeysSpec(rs: seq<Record>)
    ensures StrictlyAscending(GroupKeys(rs))
    ensures forall c :: c in GroupKeys(rs) <==> c in CategorySet(rs)
    decreases |rs|
  {
    if rs != [] {
      GroupKeysSpec(rs[1..]);
      InsertKeyAscending(rs[0].category, GroupKeys(rs[1..]));
      assert rs == [rs[0]] + rs[1..];
      assert CategorySet(rs) == {rs[0].category} + CategorySet(rs[1..]);
    }
  }

  /** The sum of the amounts of the records in category `c`. */
  function CategorySum(rs: seq<Record>, c: string): real
    decreases |rs|
  {
    if rs == [] then 0.0
    else (if rs[0].category == c then rs[0].amount else 0.0) + CategorySum(rs[1..], c)
  }

  /** One sum per key, in key order. */
  function CategorySums(rs: seq<Record>, ks: seq<string>): (r: seq<real>)
    ensures |r| == |ks|
    decreases |ks|
  {
    if ks == [] then [] else [CategorySum(rs, ks[0])] + CategorySums(rs, ks[1..])
  }

  lemma {:induction false} CategorySumsAt(rs: seq<Record>, ks: seq<string>, i: nat)
    requires i < |ks|
    ensures CategorySums(rs, ks)[i] == CategorySum(rs, ks[i])
    decreases |ks|
  {
    if i > 0 { CategorySumsAt(rs, ks[1..], i - 1); }
  }

  /** The sum of a list of amounts. */
  function Sum(xs: seq<real>): real
    decreases |xs|
  {
    if xs == [] then 0.0 else xs[0] + Sum(xs[1..])
  }

  /** The JSON object `{categories: [...], values: [...]}`. */
  datatype ChartData = ChartData(categories: seq<string>, values: seq<real>)

  /**
    `api_chart_data`: two empty lists without records; otherwise the grouped
    categories and, index by index, each category's total.
  */
  function ApiChartData(rs: seq<Record>): (d: ChartData)
    ensures |d.categories| == |d.values|
    ensures rs == [] ==> d == ChartData([], [])
  {
    if rs == [] then ChartData([], [])
    else
      var ks := GroupKeys(rs);
      ChartData(ks, CategorySums(rs, ks))
  }

  /** A record's amount lands in exactly one of a set of distinct keys, if any. */
  lemma {:induction false} SumsSplitOnHead(r: Record, rest: seq<Record>, ks: seq<string>)
    requires forall i, j :: 0 <= i < j < |ks| ==> ks[i] != ks[j]
    ensures Sum(CategorySums([r] + rest, ks)) ==
      (if r.category in ks then r.amount else 0.0) + Sum(CategorySums(rest, ks))
    decreases |ks|
  {
    if ks != [] {
      assert ([r] + rest)[1..] == rest;
      SumsSplitOnHead(r, rest, ks[1..]);
      if r.category == ks[0] {
        assert r.category !in ks[1..] by {
          forall j | 0 <= j < |ks[1..]| ensures ks[1..][j] != r.category {
            assert ks[1..][j] == ks[j + 1];
          }
        }
      }
    }
  }

  /** Without records every category sums to zero. */
  lemma {:induction false} SumsOfNothing(ks: seq<string>)
    ensures Sum(CategorySums([], ks)) == 0.0
    decreases |ks|
  {
    if ks != [] { SumsOfNothing(ks[1..]); }
  }

  /** Summing the per-key totals over distinct keys covering every category gives the grand total. */
  lemma {:induction false} CategorySumsAddUp(rs: seq<Record>, ks: seq<string>)
    requires forall i, j :: 0 <= i < j < |ks| ==> ks[i] != ks[j]
    requires forall r :: r in rs ==> r.category in ks
    ensures Sum(CategorySums(rs, ks)) == Total(rs)
    decreases |rs|
  {
    if rs == [] {
      SumsOfNothing(ks);
    } else {
      assert rs == [rs[0]] + rs[1..];
      CategorySumsAddUp(rs[1..], ks);
      SumsSplitOnHead(rs[0], rs[1..], ks);
    }
  }

  /**
    The chart data: the categories are strictly ascending (so distinct) and are
    exactly the categories of the records; `values[i]` is the total of
    `categories[i]`; and the values add up to the `total_value` of the stats.
  */
  lemma ChartDataSpec(rs: seq<Record>)
    ensures var d := ApiChartData(rs);
      && StrictlyAscending(d.categories)
      && (forall c :: c in d.categories <==> c in CategorySet(rs))
      && (forall i :: 0 <= i < |d.values| ==> d.values[i] == CategorySum(rs, d.categories[i]))
      && Sum(d.values) == ApiStats(rs).totalValue
  {
    var d := ApiChartData(rs);
    GroupKeysSpec(rs);
    if rs != [] {
      var ks := d.categories;
      forall i | 0 <= i < |d.values| ensures d.values[i] == CategorySum(rs, ks[i]) {
        CategorySumsAt(rs, ks, i);
      }
      assert forall i, j :: 0 <= i < j < |ks| ==> ks[i] != ks[j];
      forall r | r in rs ensures r.category in ks {
        assert r.category in CategorySet(rs);
      }
      CategorySumsAddUp(rs, ks);
    }
  }

  // ---------------------------------------------------------------------
  // GET /api/records-list
  // ---------------------------------------------------------------------

  /** How many records the list returns at most (`.limit(50)`). */
  const RecordsListLimit: nat := 50

  /**
    `api_records_list`: at most fifty records, newest first, each one a
    stored record and none returned more often than it is stored.
  */
  function ApiRecordsList(rs: seq<Record>): (r: seq<Record>)
    ensures |r| == Min(|rs|, RecordsListLimit)
    ensures SortedBy(r, NewerOrSame)
    ensures multiset(r) <= multiset(rs)
  {
    var sorted := SortBy(rs, NewerOrSame);
    assert TotalPreorder(NewerOrSame);
    var r := Take(sorted, RecordsListLimit);
    assert sorted == r + sorted[|r|..];
    r
  }

  /** No record left out of the list is newer than a record in it. */
  lemma RecordsListKeepsNewest(rs: seq<Record>)
    ensures forall x, y :: x in multiset(rs) - multiset(ApiRecordsList(rs)) && y in ApiRecordsList(rs) ==>
      x.recordedAt <= y.recordedAt
  {
    var sorted := SortBy(rs, NewerOrSame);
    assert TotalPreorder(NewerOrSame);
    var r := ApiRecordsList(rs);
    assert r == sorted[..|r|];
    PrefixLeavesSuffix(sorted, |r|);
    SortedPrefixComesFirst(sorted, |r|, NewerOrSame);
  }

  // ---------------------------------------------------------------------
  // A worked example
  // ---------------------------------------------------------------------

  /** Two food records and one rent record: totals per category and overall. */
  lemma FoodAndRentExample()
    ensures var rs := [
        Record(1, "food", None, 10.0, None, 1704067200, 1),
        Record(2, "food", None, 5.0, None, 1704153600, 1),
        Record(3, "rent", None, 100.0, None, 1704153600, 1)];
      && ApiStats(rs) == Stats(3, 115.0, 2, 115.0 / 3.0)
      && ApiChartData(rs) == ChartData(["food", "rent"], [15.0, 100.0])
  {
    var rs := [
        Record(1, "food", None, 10.0, None, 1704067200, 1),
        Record(2, "food", None, 5.0, None, 1704153600, 1),
        Record(3, "rent", None, 100.0, None, 1704153600, 1)];
    assert CategorySet(rs) == {"food", "rent"} by {
      assert rs[0].category == "food" && rs[2].category == "rent";
    }
    assert LexLe("food", "rent");
    assert GroupKeys(rs[2..]) == ["rent"];
    assert GroupKeys(rs[1..]) == ["food", "rent"];
    assert GroupKeys(rs) == ["food", "rent"];
  }
}
