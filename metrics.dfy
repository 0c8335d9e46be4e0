/**
 * The figures the dashboard derives from the filtered table: the mean salary, the most
 * demanded skill, the top-five skill chart, and the bounds and defaults of the salary
 * slider and the location list (both derived from the whole loaded table).
 */
module Metrics {
  import opened Wrappers
  import opened Seqs
  import opened Text
  import opened Listings
  import opened Filters

  /** Sum of the salary column. */
  function TotalSalary(rows: seq<Job>): nat
  {
    if rows == [] then 0 else TotalSalary(rows[..|rows| - 1]) + rows[|rows| - 1].avgSalary
  }

  /** The salary column sums to more than 0 exactly when some row has a positive salary. */
  lemma {:induction false} TotalPositiveIffSomePositive(rows: seq<Job>)
    ensures TotalSalary(rows) > 0 <==> exists i :: 0 <= i < |rows| && rows[i].avgSalary > 0
  {
    if rows != [] {
      var n := |rows| - 1;
      TotalPositiveIffSomePositive(rows[..n]);
      assert forall i :: 0 <= i < n ==> rows[..n][i] == rows[i];
    }
  }

  /** The "Average monthly salary" metric: `int(mean)` when the table is non-empty and its
      mean is positive, otherwise N/A (None). The mean runs over every row, zero salaries
      included, and `int()` truncates, so a positive mean below 1 is reported as 0. */
  function MeanSalary(rows: seq<Job>): Option<nat>
  {
    if rows != [] && TotalSalary(rows) > 0 then Some(TotalSalary(rows) / |rows|) else None
  }

  /** The metric is shown exactly when some row has a positive salary, and it is the
      largest whole number whose multiple by the row count does not exceed the sum. */
  lemma MeanSalaryMeaning(rows: seq<Job>)
    ensures MeanSalary(rows).Some? <==> exists i :: 0 <= i < |rows| && rows[i].avgSalary > 0
    ensures MeanSalary(rows).Some? ==>
      MeanSalary(rows).value * |rows| <= TotalSalary(rows) < (MeanSalary(rows).value + 1) * |rows|
  {
    TotalPositiveIffSomePositive(rows);
    if MeanSalary(rows).Some? {
      FloorDivision(TotalSalary(rows), |rows|);
    }
  }

  /** Truncating division of naturals brackets the dividend. */
  lemma FloorDivision(a: nat, b: nat)
    requires b > 0
    ensures (a / b) * b <= a < (a / b + 1) * b
  {
    assert a == (a / b) * b + a % b;
    assert (a / b + 1) * b == (a / b) * b + b;
  }

  /** `astype(str)` of a NULL text cell. */
  const MissingText: string := "None"

  function CellText(cell: Option<string>): string
  {
    match cell
    case None => MissingText
    case Some(text) => text
  }

  /** `skills_tags.astype(str).str.split(", ").explode()`: every piece of every row, row
      by row. */
  function SkillPieces(rows: seq<Job>): (pieces: seq<string>)
    ensures pieces == [] <==> rows == []
  {
    if rows == [] then []
    else SkillPieces(rows[..|rows| - 1]) + Split(CellText(rows[|rows| - 1].skillsTags), ", ")
  }

  /** `unique()`: the distinct values in order of first appearance. */
  function Distinct(s: seq<string>): seq<string>
  {
    DedupBy((x: string) => x, s)
  }

  /** Each distinct value with the number of times it occurs, in order of first appearance. */
  function Tally(s: seq<string>): seq<(string, nat)>
  {
    var d := Distinct(s);
    seq(|d|, i requires 0 <= i < |d| => (d[i], multiset(s)[d[i]]))
  }

  /** `value_counts()`: the tally sorted by descending count. */
  function ValueCounts(s: seq<string>): seq<(string, nat)>
  {
    SortByCount(Tally(s))
  }

  /** The value counts list every value of `s` once, with its number of occurrences, and
      nothing else, most frequent first. */
  lemma ValueCountsMeaning(s: seq<string>)
    ensures forall k :: 0 <= k < |ValueCounts(s)| ==>
      ValueCounts(s)[k].0 in s && ValueCounts(s)[k].1 == multiset(s)[ValueCounts(s)[k].0]
    ensures forall x :: x in s ==> (x, multiset(s)[x]) in ValueCounts(s)
    ensures DistinctLabels(ValueCounts(s))
    ensures NonIncreasing(ValueCounts(s))
  {
    var d := Distinct(s);
    var t := Tally(s);
    var vc := ValueCounts(s);
    var idx := DedupSelects((x: string) => x, s);
    DedupCovers((x: string) => x, s);
    assert multiset(vc) == multiset(t);
    forall k | 0 <= k < |vc|
      ensures vc[k].0 in s && vc[k].1 == multiset(s)[vc[k].0]
    {
      assert vc[k] in multiset(t);
      var j :| 0 <= j < |t| && t[j] == vc[k];
      assert d[j] == s[idx[j]];
    }
    forall x | x in s
      ensures (x, multiset(s)[x]) in vc
    {
      var y :| y in d && y == x;
      var j :| 0 <= j < |d| && d[j] == y;
      assert t[j] == (x, multiset(s)[x]);
      assert t[j] in multiset(vc);
    }
    DedupUnique((x: string) => x, s);
    assert NoDuplicates(t) by {
      forall k, l | 0 <= k < l < |t| ensures t[k] != t[l] {
        assert t[k].0 == d[k] && t[l].0 == d[l];
      }
    }
    PermutationKeepsNoDuplicates(vc, t);
    forall k, l | 0 <= k < l < |vc|
      ensures vc[k].0 != vc[l].0
    {
      assert vc[k] != vc[l];
    }
  }

  /** The "Top demand skills" metric: `value_counts().idxmax()`, the first of the most
      frequent pieces. On an empty table the source's `idxmax` raises; here that is None. */
  function TopSkill(rows: seq<Job>): Option<string>
  {
    var vc := ValueCounts(SkillPieces(rows));
    if vc == [] then None else Some(vc[0].0)
  }

  /** The top skill exists exactly when the table has a row, and no piece occurs more
      often than it. */
  lemma TopSkillIsMostFrequent(rows: seq<Job>)
    ensures TopSkill(rows).Some? <==> rows != []
    ensures TopSkill(rows).Some? ==>
      var pieces := SkillPieces(rows);
      TopSkill(rows).value in pieces &&
      forall x :: x in pieces ==> multiset(pieces)[x] <= multiset(pieces)[TopSkill(rows).value]
  {
    var pieces := SkillPieces(rows);
    var vc := ValueCounts(pieces);
    ValueCountsMeaning(pieces);
    if rows != [] {
      assert pieces[0] in pieces;
      assert vc != [];
      forall x | x in pieces
        ensures multiset(pieces)[x] <= multiset(pieces)[vc[0].0]
      {
        var k :| 0 <= k < |vc| && vc[k] == (x, multiset(pieces)[x]);
        assert vc[0].1 >= vc[k].1;
      }
    }
  }

  /** Tags the chart leaves out: `drop(["NA", "nan", "不拘"], errors="ignore")`. */
  const Placeholders: seq<string> := ["NA", "nan", "不拘"]

  /** `head()`: the first five entries of the value counts. */
  function TopFive(vc: seq<(string, nat)>): seq<(string, nat)>
  {
    vc[..if |vc| < 5 then |vc| else 5]
  }

  /** The chart of given value counts: their first five, placeholders dropped. */
  function ChartOf(vc: seq<(string, nat)>): seq<(string, nat)>
  {
    Filter((e: (string, nat)) => e.0 !in Placeholders, TopFive(vc))
  }

  /** The chart of the given pieces: the five most frequent, placeholders dropped. The
      "Top 10 skills" bar chart of a filtered table `rows` is
      `SkillChart(SkillPieces(rows))`. */
  function SkillChart(pieces: seq<string>): seq<(string, nat)>
  {
    ChartOf(ValueCounts(pieces))
  }

  /** The chart has at most five bars, each a different tag and none of them a placeholder,
      most frequent first, and each bar is a tag that occurs with its true count. */
  lemma SkillChartShape(pieces: seq<string>)
    ensures var chart := SkillChart(pieces);
      && |chart| <= 5
      && NonIncreasing(chart)
      && DistinctLabels(chart)
      && (forall k :: 0 <= k < |chart| ==> chart[k].0 !in Placeholders)
      && (forall k :: 0 <= k < |chart| ==> chart[k].0 in pieces && chart[k].1 == multiset(pieces)[chart[k].0])
  {
    var vc := ValueCounts(pieces);
    var top := TopFive(vc);
    var chart := SkillChart(pieces);
    ValueCountsMeaning(pieces);
    var idx := FilterSelects((e: (string, nat)) => e.0 !in Placeholders, top);
    forall k, l | 0 <= k < l < |chart|
      ensures chart[k].1 >= chart[l].1 && chart[k].0 != chart[l].0
    {
      assert idx[k] < idx[l];
      assert chart[k] == vc[idx[k]] && chart[l] == vc[idx[l]];
    }
    forall k | 0 <= k < |chart|
      ensures chart[k].0 in pieces && chart[k].1 == multiset(pieces)[chart[k].0]
    {
      assert chart[k] == vc[idx[k]];
    }
  }

  /** A tag more frequent than a charted one is charted too, or is a placeholder: the chart
      is the top five with placeholders removed, so it can have fewer than five bars while
      other tags exist. */
  lemma SkillChartIsTopFive(pieces: seq<string>)
    ensures var chart := SkillChart(pieces);
      forall k, x :: 0 <= k < |chart| && x in pieces && multiset(pieces)[x] > chart[k].1 ==>
        x in Placeholders || (x, multiset(pieces)[x]) in chart
  {
    var vc := ValueCounts(pieces);
    var top := TopFive(vc);
    var keep := (e: (string, nat)) => e.0 !in Placeholders;
    var chart := SkillChart(pieces);
    ValueCountsMeaning(pieces);
    var idx := FilterSelects(keep, top);
    forall k, x | 0 <= k < |chart| && x in pieces && multiset(pieces)[x] > chart[k].1
      ensures x in Placeholders || (x, multiset(pieces)[x]) in chart
    {
      var j :| 0 <= j < |vc| && vc[j] == (x, multiset(pieces)[x]);
      assert chart[k] == top[idx[k]] == vc[idx[k]];
      assert j < |top|;
      assert top[j] == vc[j];
      if x !in Placeholders {
        assert keep(top[j]);
      }
    }
  }

  /** Placeholders are dropped only after the first five are taken: a charted tag has at
      most four tags, placeholders included, that are strictly more frequent, so dropping
      placeholders can leave fewer than five bars even when other tags exist. */
  lemma SkillChartWithinTopFive(pieces: seq<string>)
    ensures var chart := SkillChart(pieces);
      forall k :: 0 <= k < |chart| ==>
        |set y | y in pieces && y != chart[k].0 && multiset(pieces)[y] > chart[k].1| <= 4
  {
    var vc := ValueCounts(pieces);
    var top := TopFive(vc);
    var keep := (e: (string, nat)) => e.0 !in Placeholders;
    var chart := SkillChart(pieces);
    ValueCountsMeaning(pieces);
    var idx := FilterSelects(keep, top);
    forall k | 0 <= k < |chart|
      ensures |set y | y in pieces && y != chart[k].0 && multiset(pieces)[y] > chart[k].1| <= 4
    {
      var j := idx[k];
      assert chart[k] == top[j] == vc[j];
      MoreFrequentAreAhead(pieces, vc, j);
    }
  }

  /** The tags strictly more frequent than the one at position `j` of the value counts
      are among the `j` tags listed before it. */
  lemma MoreFrequentAreAhead(pieces: seq<string>, vc: seq<(string, nat)>, j: int)
    requires vc == ValueCounts(pieces) && 0 <= j < |vc|
    ensures |set y | y in pieces && y != vc[j].0 && multiset(pieces)[y] > vc[j].1| <= j
  {
    ValueCountsMeaning(pieces);
    var ahead := vc[..j];
    var above := set y | y in pieces && y != vc[j].0 && multiset(pieces)[y] > vc[j].1;
    assert DistinctLabels(ahead) by {
      forall p, q | 0 <= p < q < |ahead| ensures ahead[p].0 != ahead[q].0 {
        assert ahead[p] == vc[p] && ahead[q] == vc[q];
      }
    }
    DistinctLabelsCount(ahead);
    forall y | y in above
      ensures y in set p | 0 <= p < |ahead| :: ahead[p].0
    {
      var p :| 0 <= p < |vc| && vc[p] == (y, multiset(pieces)[y]);
      MoreFrequentComesFirst(vc, j, p);
      assert ahead[p] == vc[p];
    }
    SubsetNoLarger(above, set p | 0 <= p < |ahead| :: ahead[p].0);
  }

  /** In a list of non-increasing counts an entry with a larger count comes earlier. */
  lemma MoreFrequentComesFirst(s: seq<(string, nat)>, j: int, p: int)
    requires NonIncreasing(s) && 0 <= j < |s| && 0 <= p < |s| && s[p].1 > s[j].1
    ensures p < j
  {
  }

  /** The converse: a tag that is not a placeholder and that at most four other tags match
      or beat in frequency is charted, with its count, whatever order ties take. */
  lemma SkillChartHoldsTopTags(pieces: seq<string>)
    ensures forall x ::
      (&& x in pieces
       && x !in Placeholders
       && |set y | y in pieces && y != x && multiset(pieces)[y] >= multiset(pieces)[x]| <= 4)
      ==> (x, multiset(pieces)[x]) in SkillChart(pieces)
  {
    var vc := ValueCounts(pieces);
    var top := TopFive(vc);
    var keep := (e: (string, nat)) => e.0 !in Placeholders;
    ValueCountsMeaning(pieces);
    var idx := FilterSelects(keep, top);
    forall x | x in pieces && x !in Placeholders &&
      |set y | y in pieces && y != x && multiset(pieces)[y] >= multiset(pieces)[x]| <= 4
      ensures (x, multiset(pieces)[x]) in SkillChart(pieces)
    {
      var rivals := set y | y in pieces && y != x && multiset(pieces)[y] >= multiset(pieces)[x];
      var j :| 0 <= j < |vc| && vc[j] == (x, multiset(pieces)[x]);
      AheadAreRivals(pieces, vc, j);
      var ahead := vc[..j];
      assert DistinctLabels(ahead) by {
        forall k, l | 0 <= k < l < |ahead| ensures ahead[k].0 != ahead[l].0 {
          assert ahead[k] == vc[k] && ahead[l] == vc[l];
        }
      }
      DistinctLabelsCount(ahead);
      assert (set k | 0 <= k < |ahead| :: ahead[k].0) <= rivals by {
        forall k | 0 <= k < |ahead| ensures ahead[k].0 in rivals {
          assert ahead[k] == vc[k];
        }
      }
      SubsetNoLarger(set k | 0 <= k < |ahead| :: ahead[k].0, rivals);
      assert j < |top|;
      assert top[j] == vc[j];
      assert keep(top[j]);
      var p :| 0 <= p < |idx| && idx[p] == j;
      assert SkillChart(pieces)[p] == top[j];
    }
  }

  /** Every tag listed ahead of position `j` of the value counts is another tag, at least
      as frequent as the one at `j`. */
  lemma AheadAreRivals(pieces: seq<string>, vc: seq<(string, nat)>, j: int)
    requires vc == ValueCounts(pieces) && 0 <= j < |vc|
    ensures forall k :: 0 <= k < j ==>
      vc[k].0 in pieces && vc[k].0 != vc[j].0 && multiset(pieces)[vc[k].0] >= multiset(pieces)[vc[j].0]
  {
    ValueCountsMeaning(pieces);
  }

  /** The chart of the value counts `{"NA": 10, "不拘": 7, "Python": 5, "SQL": 3, "Go": 1}`
      is Python, SQL and Go with their counts. */
  lemma PlaceholderChartExample()
    ensures ChartOf([("NA", 10), ("不拘", 7), ("Python", 5), ("SQL", 3), ("Go", 1)])
      == [("Python", 5), ("SQL", 3), ("Go", 1)]
  {
    var vc: seq<(string, nat)> := [("NA", 10), ("不拘", 7), ("Python", 5), ("SQL", 3), ("Go", 1)];
    var keep := (e: (string, nat)) => e.0 !in Placeholders;
    assert TopFive(vc) == vc;
    assert vc[..1][..0] == [];
    assert Filter(keep, vc[..1]) == [];
    assert vc[..2][..1] == vc[..1];
    assert Filter(keep, vc[..2]) == [];
    assert vc[..3][..2] == vc[..2];
    assert Filter(keep, vc[..3]) == [("Python", 5)];
    assert vc[..4][..3] == vc[..3];
    assert Filter(keep, vc[..4]) == [("Python", 5), ("SQL", 3)];
    assert vc[..4] == vc[..|vc| - 1];
  }

  /** Placeholders ranked above the fifth tag push later tags out of the chart: the value
      counts NA 6, nan 5, A 4, B 3, C 2, D 1 chart as A, B and C only. */
  lemma HeadBeforeDropExample()
    ensures ChartOf([("NA", 6), ("nan", 5), ("A", 4), ("B", 3), ("C", 2), ("D", 1)])
      == [("A", 4), ("B", 3), ("C", 2)]
  {
    var vc: seq<(string, nat)> := [("NA", 6), ("nan", 5), ("A", 4), ("B", 3), ("C", 2), ("D", 1)];
    var top: seq<(string, nat)> := vc[..5];
    var keep := (e: (string, nat)) => e.0 !in Placeholders;
    assert TopFive(vc) == top;
    assert top[..1][..0] == [];
    assert Filter(keep, top[..1]) == [];
    assert top[..2][..1] == top[..1];
    assert Filter(keep, top[..2]) == [];
    assert top[..3][..2] == top[..2];
    assert Filter(keep, top[..3]) == [("A", 4)];
    assert top[..4][..3] == top[..3];
    assert Filter(keep, top[..4]) == [("A", 4), ("B", 3)];
    assert top[..4] == top[..|top| - 1];
  }

  /** The salary slider's range `(min, max)` of the positive salaries of the loaded table;
      None when there is none, and the threshold is then 0. */
  function SalaryRange(rows: seq<Job>): (r: Option<(nat, nat)>)
    ensures r.None? <==> forall i :: 0 <= i < |rows| ==> rows[i].avgSalary == 0
    ensures r.Some? ==> 0 < r.value.0 <= r.value.1
    ensures r.Some? ==> forall i :: 0 <= i < |rows| && rows[i].avgSalary > 0 ==>
      r.value.0 <= rows[i].avgSalary <= r.value.1
    ensures r.Some? ==> exists i :: 0 <= i < |rows| && rows[i].avgSalary == r.value.0
    ensures r.Some? ==> exists i :: 0 <= i < |rows| && rows[i].avgSalary == r.value.1
  {
    if rows == [] then None
    else
      var n := |rows| - 1;
      var rest := SalaryRange(rows[..n]);
      var x := rows[n].avgSalary;
      assert forall i :: 0 <= i < n ==> rows[..n][i] == rows[i];
      if x == 0 then rest
      else match rest
        case None => Some((x, x))
        case Some((lo, hi)) => Some((if x < lo then x else lo, if x > hi then x else hi))
  }

  /** The slider's starting value: the smallest positive salary, or 0 without one. */
  function DefaultThreshold(rows: seq<Job>): nat
  {
    match SalaryRange(rows)
    case None => 0
    case Some((lo, _)) => lo
  }

  /** The slider's starting value comes from the whole loaded table `df`, and the salary
      step applies it to the location-filtered table: on any table of rows of `df` it drops
      exactly the rows whose salary is 0, unless every salary of `df` is 0, when the step is
      inactive and keeps them all. */
  lemma DefaultThresholdDropsZeroSalaries(df: seq<Job>, rows: seq<Job>) returns (idx: seq<int>)
    requires forall k :: 0 <= k < |rows| ==> rows[k] in df
    ensures IsSelection(rows, SalaryStep(DefaultThreshold(df), rows), idx)
    ensures forall i :: 0 <= i < |rows| ==>
      (i in idx <==> rows[i].avgSalary > 0 || SalaryRange(df).None?)
  {
    idx := SalaryStepSelects(DefaultThreshold(df), rows);
    forall i | 0 <= i < |rows|
      ensures rows[i].avgSalary > 0 ==> SalaryRange(df).Some? && rows[i].avgSalary >= DefaultThreshold(df)
      ensures SalaryRange(df).None? ==> rows[i].avgSalary == 0
    {
      var j :| 0 <= j < |df| && df[j] == rows[i];
    }
  }

  /** The non-missing addresses, row by row: `address.dropna()`. */
  function Addresses(rows: seq<Job>): (r: seq<string>)
    ensures forall i :: 0 <= i < |rows| && rows[i].address.Some? ==> rows[i].address.value in r
    ensures r == [] <==> forall i :: 0 <= i < |rows| ==> rows[i].address.None?
  {
    if rows == [] then []
    else
      var n := |rows| - 1;
      var rest := Addresses(rows[..n]);
      assert forall i :: 0 <= i < n ==> rows[..n][i] == rows[i];
      match rows[n].address
      case None => rest
      case Some(a) => rest + [a]
  }

  predicate HasAddress(row: Job)
  {
    row.address.Some?
  }

  /** The non-missing addresses are the addresses of the rows that have one, in order. */
  lemma {:induction false} AddressesOfPresentRows(rows: seq<Job>)
    ensures |Addresses(rows)| == |Filter(HasAddress, rows)|
    ensures forall k :: 0 <= k < |Addresses(rows)| ==>
      Filter(HasAddress, rows)[k].address == Some(Addresses(rows)[k])
  {
    if rows != [] {
      var n := |rows| - 1;
      AddressesOfPresentRows(rows[..n]);
    }
  }

  /** `dropna()` keeps exactly the present addresses, in row order: entry `k` of the result
      is the address of row `idx[k]`, and the rows listed are exactly those with an address. */
  lemma AddressesSelect(rows: seq<Job>) returns (idx: seq<int>)
    ensures |idx| == |Addresses(rows)|
    ensures forall k :: 0 <= k < |idx| ==>
      0 <= idx[k] < |rows| && rows[idx[k]].address == Some(Addresses(rows)[k])
    ensures forall k, l :: 0 <= k < l < |idx| ==> idx[k] < idx[l]
    ensures forall i :: 0 <= i < |rows| ==> (i in idx <==> rows[i].address.Some?)
  {
    idx := FilterSelects(HasAddress, rows);
    AddressesOfPresentRows(rows);
  }

  /** The options of the location list, `address.dropna().unique()`, which are also its
      default selection. */
  function LocationOptions(rows: seq<Job>): seq<string>
  {
    Distinct(Addresses(rows))
  }

  /** With the default selection the location step drops exactly the rows without an
      address, unless no row has one, when the step is inactive and keeps them all. */
  lemma DefaultLocationsDropMissingAddresses(rows: seq<Job>) returns (idx: seq<int>)
    ensures IsSelection(rows, LocationStep(LocationOptions(rows), rows), idx)
    ensures forall i :: 0 <= i < |rows| ==>
      (i in idx <==> rows[i].address.Some? || forall j :: 0 <= j < |rows| ==> rows[j].address.None?)
  {
    var addrs := Addresses(rows);
    var opts := LocationOptions(rows);
    DedupCovers((x: string) => x, addrs);
    assert opts == [] <==> addrs == [] by {
      if addrs != [] {
        assert addrs[0] in addrs;
      }
    }
    idx := LocationStepSelects(opts, rows);
    forall i | 0 <= i < |rows| && rows[i].address.Some?
      ensures rows[i].address.value in opts
    {
      var y :| y in opts && y == rows[i].address.value;
    }
  }
}
