/**
 * The filter pipeline: the loaded table narrowed, one step after another, by the
 * selected locations, the salary floor and a case-insensitive title search.
 * Each step is inactive (passes the table through) when its control is empty or 0.
 */
module Filters {
  import opened Wrappers
  import opened Seqs
  import opened Text
  import opened Listings

  /** The control values of one render pass. */
  datatype Criteria = Criteria(locations: seq<string>, salaryThreshold: nat, keyword: string)

  /** `address.isin(selected)`: a missing address is never in the list. */
  predicate AtLocation(locations: seq<string>, row: Job)
  {
    row.address.Some? && row.address.value in locations
  }

  /** `(avg_salary >= threshold) | avg_salary.isna()` on one cell of the numeric column,
      None standing for NaN. */
  predicate SalaryPasses(threshold: nat, cell: Option<nat>)
  {
    (cell.Some? && cell.value >= threshold) || cell.None?
  }

  /** `title.str.contains(keyword, case=False, na=False)`, read as a literal substring. */
  predicate TitleMatches(keyword: string, title: Option<string>)
  {
    title.Some? && Contains(Lower(title.value), Lower(keyword))
  }

  function LocationStep(locations: seq<string>, rows: seq<Job>): seq<Job>
  {
    if locations != [] then Filter((row: Job) => AtLocation(locations, row), rows) else rows
  }

  /** The loaded salary column holds numbers only, so the cell tested is never NaN. */
  function SalaryStep(threshold: nat, rows: seq<Job>): seq<Job>
  {
    if threshold > 0 then Filter((row: Job) => SalaryPasses(threshold, Some(row.avgSalary)), rows) else rows
  }

  function TitleStep(keyword: string, rows: seq<Job>): seq<Job>
  {
    if keyword != [] then Filter((row: Job) => TitleMatches(keyword, row.title), rows) else rows
  }

  /** `filtered_df` after the three rebindings, in the order the script makes them. */
  function Pipeline(c: Criteria, rows: seq<Job>): seq<Job>
  {
    TitleStep(c.keyword, SalaryStep(c.salaryThreshold, LocationStep(c.locations, rows)))
  }

  /** A row passes the pipeline: every active step accepts it. */
  predicate Matches(c: Criteria, row: Job)
  {
    && (c.locations == [] || AtLocation(c.locations, row))
    && (c.salaryThreshold == 0 || row.avgSalary >= c.salaryThreshold)
    && (c.keyword == [] || TitleMatches(c.keyword, row.title))
  }

  /** The whole table, as a selection of itself. */
  lemma KeepAllSelects<T>(s: seq<T>) returns (idx: seq<int>)
    ensures IsSelection(s, s, idx)
    ensures forall i :: 0 <= i < |s| ==> i in idx
  {
    idx := seq(|s|, i requires 0 <= i < |s| => i);
    forall i | 0 <= i < |s| ensures i in idx {
      assert idx[i] == i;
    }
  }

  /** With a non-empty selection the location step keeps exactly the rows whose address is
      one of the selected locations, in order (a row without an address is dropped); with
      an empty selection it keeps every row. */
  lemma LocationStepSelects(locations: seq<string>, rows: seq<Job>) returns (idx: seq<int>)
    ensures IsSelection(rows, LocationStep(locations, rows), idx)
    ensures forall i :: 0 <= i < |rows| ==>
      (i in idx <==> locations == [] || (rows[i].address.Some? && rows[i].address.value in locations))
  {
    if locations != [] {
      idx := FilterSelects((row: Job) => AtLocation(locations, row), rows);
    } else {
      idx := KeepAllSelects(rows);
    }
  }

  /** With a positive floor the salary step keeps exactly the rows whose salary reaches it,
      in order, so a row whose salary was missing (now 0) is dropped and the `isna()` arm
      never keeps anything; with floor 0 it keeps every row. */
  lemma SalaryStepSelects(threshold: nat, rows: seq<Job>) returns (idx: seq<int>)
    ensures IsSelection(rows, SalaryStep(threshold, rows), idx)
    ensures forall i :: 0 <= i < |rows| ==> (i in idx <==> threshold == 0 || rows[i].avgSalary >= threshold)
  {
    if threshold > 0 {
      idx := FilterSelects((row: Job) => SalaryPasses(threshold, Some(row.avgSalary)), rows);
    } else {
      idx := KeepAllSelects(rows);
    }
  }

  /** With a non-empty keyword the title step keeps exactly the rows whose title contains
      it, ignoring ASCII case, in order (a missing title never matches); with an empty
      keyword it keeps every row. */
  lemma TitleStepSelects(keyword: string, rows: seq<Job>) returns (idx: seq<int>)
    ensures IsSelection(rows, TitleStep(keyword, rows), idx)
    ensures forall i :: 0 <= i < |rows| ==>
      (i in idx <==>
        keyword == [] || (rows[i].title.Some? && Contains(Lower(rows[i].title.value), Lower(keyword))))
  {
    if keyword != [] {
      idx := FilterSelects((row: Job) => TitleMatches(keyword, row.title), rows);
    } else {
      idx := KeepAllSelects(rows);
    }
  }

  /** Each step is the mask of its own test, with an inactive control accepting every row. */
  lemma StepsAreFilters(c: Criteria, rows: seq<Job>)
    ensures LocationStep(c.locations, rows)
      == Filter((row: Job) => c.locations == [] || AtLocation(c.locations, row), rows)
    ensures SalaryStep(c.salaryThreshold, rows)
      == Filter((row: Job) => c.salaryThreshold == 0 || row.avgSalary >= c.salaryThreshold, rows)
    ensures TitleStep(c.keyword, rows)
      == Filter((row: Job) => c.keyword == [] || TitleMatches(c.keyword, row.title), rows)
  {
    var p1 := (row: Job) => AtLocation(c.locations, row);
    var q1 := (row: Job) => c.locations == [] || AtLocation(c.locations, row);
    if c.locations == [] { FilterKeepsAll(q1, rows); } else { FilterExt(p1, q1, rows); }
    var p2 := (row: Job) => SalaryPasses(c.salaryThreshold, Some(row.avgSalary));
    var q2 := (row: Job) => c.salaryThreshold == 0 || row.avgSalary >= c.salaryThreshold;
    if c.salaryThreshold == 0 { FilterKeepsAll(q2, rows); } else { FilterExt(p2, q2, rows); }
    var p3 := (row: Job) => TitleMatches(c.keyword, row.title);
    var q3 := (row: Job) => c.keyword == [] || TitleMatches(c.keyword, row.title);
    if c.keyword == [] { FilterKeepsAll(q3, rows); } else { FilterExt(p3, q3, rows); }
  }

  /** The three rebindings together are one mask: the conjunction of the active tests. */
  lemma PipelineIsOneFilter(c: Criteria, rows: seq<Job>)
    ensures Pipeline(c, rows) == Filter((row: Job) => Matches(c, row), rows)
  {
    var q1 := (row: Job) => c.locations == [] || AtLocation(c.locations, row);
    var q2 := (row: Job) => c.salaryThreshold == 0 || row.avgSalary >= c.salaryThreshold;
    var q3 := (row: Job) => c.keyword == [] || TitleMatches(c.keyword, row.title);
    var q12 := (row: Job) => q1(row) && q2(row);
    var after1 := LocationStep(c.locations, rows);
    var after2 := SalaryStep(c.salaryThreshold, after1);
    StepsAreFilters(c, rows);
    StepsAreFilters(c, after1);
    StepsAreFilters(c, after2);
    FilterFuse(q1, q2, q12, rows);
    FilterFuse(q12, q3, (row: Job) => Matches(c, row), rows);
  }

  /** The pipeline keeps exactly the rows every active step accepts, in their order. */
  lemma PipelineSelects(c: Criteria, rows: seq<Job>) returns (idx: seq<int>)
    ensures IsSelection(rows, Pipeline(c, rows), idx)
    ensures forall i :: 0 <= i < |rows| ==> (i in idx <==> Matches(c, rows[i]))
  {
    PipelineIsOneFilter(c, rows);
    idx := FilterSelects((row: Job) => Matches(c, row), rows);
  }

  /** An inactive step passes the table through; with no location selected, floor 0 and an
      empty keyword the whole pipeline returns the table it was given. */
  lemma InactivePipelineIsIdentity(rows: seq<Job>)
    ensures LocationStep([], rows) == rows
    ensures SalaryStep(0, rows) == rows
    ensures TitleStep([], rows) == rows
    ensures Pipeline(Criteria([], 0, []), rows) == rows
  {
  }

  /** A filtered table of loaded rows still has no two rows with one (title, company) pair. */
  lemma PipelineKeepsUniqueKeys(c: Criteria, rows: seq<Job>)
    requires UniqueKeys((row: Job) => Key(row), rows)
    ensures UniqueKeys((row: Job) => Key(row), Pipeline(c, rows))
  {
    var idx := PipelineSelects(c, rows);
    SelectionKeepsUniqueKeys((row: Job) => Key(row), rows, Pipeline(c, rows), idx);
  }
}
