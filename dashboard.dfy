/**
 * One render pass of the page, from the KPI row to the "no jobs" warning, reduced to what
 * it shows: the job count, the two metrics and whether the warning appears. An exception
 * raised by the script stops the pass, and nothing after it is shown.
 */
module Dashboard {
  import opened Wrappers
  import opened Listings
  import opened Metrics

  datatype Render =
    | Halted
    | Page(jobCount: nat, meanSalary: Option<nat>, topSkill: Option<string>, noJobsWarning: bool)

  /** The script as written: `value_counts().idxmax()` runs unguarded and raises on an empty
      filtered table, before the "No jobs found" warning is reached. */
  function RenderAsWritten(rows: seq<Job>): Render
  {
    match TopSkill(rows)
    case None => Halted
    case Some(skill) => Page(|rows|, MeanSalary(rows), Some(skill), rows == [])
  }

  /** The script with the top-skill metric guarded like the mean: N/A on an empty table. */
  function RenderGuarded(rows: seq<Job>): Render
  {
    Page(|rows|, MeanSalary(rows), TopSkill(rows), rows == [])
  }

  /** As written, the pass halts exactly on an empty filtered table, so a page that is shown
      never carries the warning. */
  lemma AsWrittenNeverWarns(rows: seq<Job>)
    ensures RenderAsWritten(rows).Halted? <==> rows == []
    ensures RenderAsWritten(rows).Page? ==> !RenderAsWritten(rows).noJobsWarning
  {
    TopSkillIsMostFrequent(rows);
  }

  /** Filters that match no listing halt the page as written. */
  lemma NoMatchHalts()
    ensures RenderAsWritten([]).Halted?
  {
    AsWrittenNeverWarns([]);
  }

  /** Guarded, the page is always shown; it warns exactly when no listing matches, with both
      metrics N/A, and otherwise it is the page the script shows as written. */
  lemma GuardedWarnsExactlyWhenEmpty(rows: seq<Job>)
    ensures RenderGuarded(rows).Page?
    ensures RenderGuarded(rows).noJobsWarning <==> rows == []
    ensures rows == [] ==> RenderGuarded(rows).meanSalary.None? && RenderGuarded(rows).topSkill.None?
    ensures rows != [] ==> RenderGuarded(rows) == RenderAsWritten(rows)
  {
    TopSkillIsMostFrequent(rows);
  }
}
