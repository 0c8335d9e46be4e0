/**
 * One job listing and the load-time normalisation of the listing table: duplicate
 * (title, company) rows are dropped, keeping the first, and the average salary is
 * coerced to a number, with anything missing or unparsable becoming 0.
 */
module Listings {
  import opened Wrappers
  import opened Seqs

  /** One row of the job-listings table. The salary column's type changes during the
      load: raw cell text, then a number or a missing value, then a number. */
  datatype Listing<S> = Listing(
    title: Option<string>,
    company: Option<string>,
    address: Option<string>,
    avgSalary: S,
    skillsTags: Option<string>,
    description: Option<string>)

  /** A row as read from the store: the salary cell is text, or NULL. */
  type RawListing = Listing<Option<string>>

  /** A row after `to_numeric(errors='coerce')`: None stands for NaN. */
  type NumericListing = Listing<Option<nat>>

  /** A row of the loaded table: the salary is a number. */
  type Job = Listing<nat>

  /** The de-duplication key. */
  function Key<S>(row: Listing<S>): (Option<string>, Option<string>)
  {
    (row.title, row.company)
  }

  function WithSalary<S, U>(row: Listing<S>, salary: U): Listing<U>
  {
    Listing(row.title, row.company, row.address, salary, row.skillsTags, row.description)
  }

  /** `drop_duplicates(subset=['title', 'company'])` */
  function DropDuplicates(rows: seq<RawListing>): seq<RawListing>
  {
    DedupBy((row: RawListing) => Key(row), rows)
  }

  /** `pd.to_numeric(..., errors='coerce')` on one cell: `parse` is the library's number
      parser; a NULL cell or a parse failure gives NaN. */
  function CoerceCell(parse: string -> Option<nat>, cell: Option<string>): Option<nat>
  {
    match cell
    case None => None
    case Some(text) => parse(text)
  }

  function ToNumeric(parse: string -> Option<nat>, rows: seq<RawListing>): seq<NumericListing>
  {
    seq(|rows|, i requires 0 <= i < |rows| => WithSalary(rows[i], CoerceCell(parse, rows[i].avgSalary)))
  }

  /** `fillna(0)` on the salary column. */
  function FillNa(rows: seq<NumericListing>): seq<Job>
  {
    seq(|rows|, i requires 0 <= i < |rows| =>
      WithSalary(rows[i], match rows[i].avgSalary case None => 0 case Some(v) => v))
  }

  /** `load_data()` after the query: the three column operations in order. */
  function LoadData(parse: string -> Option<nat>, raw: seq<RawListing>): seq<Job>
  {
    FillNa(ToNumeric(parse, DropDuplicates(raw)))
  }

  /** The loaded table is the raw table with later duplicates of a (title, company) pair
      removed, order kept, every other column unchanged, and each salary the parsed cell
      when it parses and 0 when it is NULL or does not parse. */
  lemma LoadDataSelects(parse: string -> Option<nat>, raw: seq<RawListing>) returns (idx: seq<int>)
    ensures var jobs := LoadData(parse, raw);
      && |idx| == |jobs|
      && (forall k, l :: 0 <= k < l < |idx| ==> idx[k] < idx[l])
      && (forall k :: 0 <= k < |idx| ==> 0 <= idx[k] < |raw| && WithSalary(jobs[k], raw[idx[k]].avgSalary) == raw[idx[k]])
      && (forall i :: 0 <= i < |raw| ==> (i in idx <==> FirstOfKey((row: RawListing) => Key(row), raw, i)))
    ensures var jobs := LoadData(parse, raw);
      forall k :: 0 <= k < |idx| ==>
        match raw[idx[k]].avgSalary
        case None => jobs[k].avgSalary == 0
        case Some(text) => jobs[k].avgSalary == (match parse(text) case None => 0 case Some(v) => v)
  {
    idx := DedupSelects((row: RawListing) => Key(row), raw);
  }

  /** After the load no two rows share a (title, company) pair. */
  lemma LoadDataUnique(parse: string -> Option<nat>, raw: seq<RawListing>)
    ensures UniqueKeys((row: Job) => Key(row), LoadData(parse, raw))
  {
    var dedup := DropDuplicates(raw);
    DedupUnique((row: RawListing) => Key(row), raw);
    var jobs := LoadData(parse, raw);
    forall k, l | 0 <= k < l < |jobs|
      ensures Key(jobs[k]) != Key(jobs[l])
    {
      assert Key(jobs[k]) == Key(dedup[k]) && Key(jobs[l]) == Key(dedup[l]);
    }
  }

  /** Every (title, company) pair of the raw table is still present after the load. */
  lemma LoadDataCovers(parse: string -> Option<nat>, raw: seq<RawListing>)
    ensures forall i :: 0 <= i < |raw| ==>
      exists k :: 0 <= k < |LoadData(parse, raw)| && Key(LoadData(parse, raw)[k]) == Key(raw[i])
  {
    var key := (row: RawListing) => Key(row);
    var dedup := DropDuplicates(raw);
    var jobs := LoadData(parse, raw);
    DedupCovers(key, raw);
    forall i | 0 <= i < |raw|
      ensures exists k :: 0 <= k < |jobs| && Key(jobs[k]) == Key(raw[i])
    {
      assert raw[i] in raw;
      var y :| y in dedup && key(y) == key(raw[i]);
      var k :| 0 <= k < |dedup| && dedup[k] == y;
      assert Key(jobs[k]) == Key(dedup[k]);
    }
  }

  /** De-duplicating an already de-duplicated table changes nothing. */
  lemma DropDuplicatesIdempotent(raw: seq<RawListing>)
    ensures DropDuplicates(DropDuplicates(raw)) == DropDuplicates(raw)
  {
    DedupIdempotent((row: RawListing) => Key(row), raw);
  }
}
