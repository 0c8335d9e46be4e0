# Job-market dashboard: data pipeline model

A Dafny model of the data pipeline inside the Streamlit job-analysis dashboard
(`app.py`), lifted out of the widget code into functions over a sequence of job
listings. A listing has a title, company, address, average salary, skills tags and
description; every column except the salary may be missing (`Option`).

- `Listings` — the load-time normalisation in `load_data`: duplicate (title, company)
  rows are dropped keeping the first, the salary cell is coerced to a number (`parse`
  stands for the library's number parser) and a missing or unparsable salary becomes 0.
  The row type is generic in the salary column, which goes from cell text to
  "number or NaN" to number.
- `Filters` — the three rebindings of `filtered_df`: location membership, salary floor
  and case-insensitive title search, each inactive when its control is empty or 0.
- `Metrics` — the mean-salary and top-skill metrics, the top-five skill chart, and the
  defaults the sidebar derives from the loaded table (salary slider bounds and starting
  value, location options).
- `TechStack` — the keyword taxonomy and the nested loops that count, per category, the
  non-overlapping occurrences of each lower-cased keyword in the lower-cased rendering of
  the filtered table, keeping non-zero counts; a method with loop invariants, proved
  equal to a fold over the taxonomy.
- `Dashboard` — one render pass reduced to what it shows (job count, the two metrics,
  the "No jobs found" warning), to record that an empty filtered table stops the script
  (see Findings); `Metrics.TopSkill` returns None where the source raises.
- `Seqs`, `Text`, `Wrappers` — the table operations (boolean-mask selection,
  first-occurrence de-duplication, descending sort of value counts) and the string
  operations the script calls (`lower`, `split`, `count`, and `str.contains` read as a
  literal substring test), with the leftmost-match search (`find`) they are built on.

"Order-preserving subsequence" is stated through `Seqs.IsSelection`: the result lists
`s[idx[0]], s[idx[1]], …` for strictly increasing positions `idx`, and the lemmas say
exactly which positions are in `idx`.

Where the code does less than, or other than, its surface suggests:

- The mean salary averages over every filtered row, zero salaries included (a missing
  salary has become 0 at load time); it is shown when the float mean is positive, i.e.
  when the salary sum is positive, and `int()` truncates, so a positive mean below 1 shows
  as 0.
- The salary step's `isna()` arm never keeps a row: `fillna(0)` has already replaced
  every missing salary, so a row with a missing salary is dropped at any positive floor.
- The tech-stack section is captioned "keywords in descriptions" (app.py:153), and a
  description-only text is built (app.py:155, app.py:189) but never used; the counts
  scan `filtered_df.to_string().lower()` (app.py:200), the rendering of every column of
  the filtered table, while the description-only variant is commented out (app.py:199).
## Model

| member | source | states |
|---|---|---|
| Seqs.Filter | app.py:66-78 | a mask selection is never longer than the table it selects from |
| Seqs.FilterSelects | app.py:66-78 | a mask selection keeps exactly the positions whose row passes, in their original order |
| Seqs.FilterKeepsAll | app.py:66-78 | a mask every row passes leaves the table unchanged |
| Seqs.FilterExt | app.py:66-78 | masks that agree on every row select the same rows |
| Seqs.FilterFuse | app.py:66-78 | two masks applied in sequence select what their conjunction selects |
| Seqs.DedupSelects | app.py:14 | `drop_duplicates` keeps exactly the first row of each key, in order |
| Seqs.DedupUnique | app.py:14 | after de-duplication no two rows share a key |
| Seqs.DedupCovers | app.py:14 | every key of the input is still present after de-duplication |
| Seqs.DedupOfUnique | app.py:14 | a table with unique keys is left as it is |
| Seqs.DedupIdempotent | app.py:14 | de-duplicating twice equals de-duplicating once |
| Seqs.SelectionKeepsUniqueKeys | app.py:66-78 | a selection of a table with unique keys has unique keys |
| Seqs.InsertByCount | app.py:108 | inserting into the count-sorted list adds exactly the one entry |
| Seqs.InsertKeepsOrder | app.py:108 | inserting into a list of non-increasing counts keeps the counts non-increasing |
| Seqs.SortByCount | app.py:108 | the `value_counts` order is a permutation of the tally with non-increasing counts |
| Text.IndexFromFirst | app.py:108 | the search returns the first match at or after the start position, or None when there is none |
| Text.IndexOfFirst | app.py:207 | the search returns the leftmost occurrence, or None when the pattern occurs nowhere |
| Text.FoundIffContains | app.py:207 | the search succeeds exactly when the pattern is a substring |
| Text.CountPositiveIffContains | app.py:207 | `str.count` (`Text.Count`) is positive exactly when the pattern occurs in the text (the empty pattern always does) |
| Text.CountMatchesFit | app.py:207 | the matches `str.count` (`Text.Count`) counts do not overlap: count times pattern length is at most the text length |
| Text.Split | app.py:108 | `split` always yields at least one piece |
| Text.SplitJoin | app.py:108 | joining the pieces of a split with the separator gives the string back |
| Text.SplitPiecesLackSeparator | app.py:108 | no piece of a split contains the separator |
| Text.CountIsSplitPieces | app.py:207 | a string has one split piece more than `count` finds matches of the separator |
| Text.AbsentCharNotContained | app.py:207 | a pattern with a character the text lacks does not occur in it |
| Listings.LoadDataSelects | app.py:14-16 | the loaded table is the raw table's first row per (title, company), in order, other columns unchanged, salary the parsed cell or 0 when it is NULL or does not parse |
| Listings.LoadDataUnique | app.py:14 | no two loaded rows share (title, company) |
| Listings.LoadDataCovers | app.py:14 | every (title, company) pair of the raw table is in the loaded table |
| Listings.DropDuplicatesIdempotent | app.py:14 | dropping duplicates twice equals dropping them once |
| Filters.LocationStepSelects | app.py:68-69 | with a non-empty selection exactly the rows whose address is selected are kept, in order, rows without an address dropped; an empty selection keeps all |
| Filters.SalaryStepSelects | app.py:71-75 | with a positive floor exactly the rows with salary at least the floor are kept, in order, so zero-salary rows go and the `isna()` arm keeps nothing; floor 0 keeps all |
| Filters.TitleStepSelects | app.py:77-78 | with a non-empty keyword exactly the rows whose title, lower-cased by `Text.Lower`, contains the lower-cased keyword are kept, in order, a missing title never matching; an empty keyword keeps all |
| Filters.StepsAreFilters | app.py:66-78 | each step is the mask of its own test, an inactive control accepting every row |
| Filters.PipelineIsOneFilter | app.py:66-78 | the three rebindings together are one mask, the conjunction of the active tests |
| Filters.PipelineSelects | app.py:66-78 | the filtered table keeps exactly the rows every active step accepts, in order |
| Filters.InactivePipelineIsIdentity | app.py:66-78 | each inactive step, and the pipeline with every control inactive, returns its input table |
| Filters.PipelineKeepsUniqueKeys | app.py:14 | the filtered table of a de-duplicated table has no two rows with one (title, company) |
| Metrics.TotalPositiveIffSomePositive | app.py:95 | the salary sum is positive exactly when some row has a positive salary |
| Metrics.MeanSalaryMeaning | app.py:95-104 | the metric (`Metrics.MeanSalary`) is reported exactly when some row has a positive salary (so the table is non-empty), and it is the floor of the salary sum over the number of rows |
| Metrics.SkillPieces | app.py:108 | the exploded skill pieces are empty exactly when the table is |
| Metrics.ValueCountsMeaning | app.py:108 | `value_counts` (`Metrics.ValueCounts`) lists every piece exactly once, with its number of occurrences, and nothing else, most frequent first |
| Metrics.TopSkillIsMostFrequent | app.py:107-108 | the top skill (`Metrics.TopSkill`) exists exactly when the table is non-empty (None standing for `idxmax` raising), and no piece occurs more often than it |
| Metrics.SkillChartShape | app.py:137-139 | the chart (`Metrics.SkillChart`) has at most five bars, each a different tag, no placeholder, non-increasing counts, each the true count of its tag |
| Metrics.SkillChartIsTopFive | app.py:137-139 | any tag more frequent than a charted one is charted or is a placeholder |
| Metrics.SkillChartWithinTopFive | app.py:137-139 | `head()` comes before `drop()`: a charted tag has at most four tags, placeholders included, strictly more frequent than it, so the chart can have fewer than five bars while other tags exist |
| Metrics.SkillChartHoldsTopTags | app.py:137-139 | conversely, a non-placeholder tag that at most four other tags match or beat in frequency is charted with its count, whatever the tie order |
| Metrics.PlaceholderChartExample | app.py:137-139 | the value counts NA 10, 不拘 7, Python 5, SQL 3, Go 1 chart as Python 5, SQL 3, Go 1 |
| Metrics.HeadBeforeDropExample | app.py:137-139 | the value counts NA 6, nan 5, A 4, B 3, C 2, D 1 chart as A 4, B 3, C 2 only: D is cut by `head()` before placeholders are dropped |
| Metrics.SalaryRange | app.py:47-52 | the slider bounds are the least and greatest positive salaries, both attained; None exactly when no salary is positive |
| Metrics.DefaultThresholdDropsZeroSalaries | app.py:47-75 | with the starting value taken from the loaded table, the salary step on any table of its rows (such as the location-filtered one) drops exactly the zero-salary rows, unless every loaded salary is 0 |
| Metrics.Addresses | app.py:35 | the non-missing addresses include every row's address and are empty exactly when no row has one |
| Metrics.AddressesOfPresentRows | app.py:35 | the non-missing addresses are, in order, the addresses of the rows selected by "has an address" |
| Metrics.AddressesSelect | app.py:35 | `dropna()` keeps exactly the present addresses, one per row that has one, in row order |
| Metrics.DefaultLocationsDropMissingAddresses | app.py:34-40 | with the default location selection exactly the rows without an address are dropped, unless no row has one |
| TechStack.KeywordCountsMeaning | app.py:205-209 | a category's counts (`TechStack.KeywordCounts`) hold exactly its keywords, original spelling, whose lower-cased form occurs in the text, each with its positive `str.count` |
| TechStack.CategoryCountsMeaning | app.py:204-211 | every category gets an entry and nothing else does; with distinct names each entry is the counts of its own keywords |
| TechStack.TechKeywordsHaveDistinctNames | app.py:156-177 | the taxonomy's category names are distinct |
| TechStack.CloudCountsForDockerTwice | app.py:204-211 | a text with "docker" twice and no other Cloud & DevOps keyword gets exactly {"Docker": 2} for that category |
| TechStack.DockerOccursTwice | app.py:200 | "Docker docker" lower-cases to a text with two matches of "docker" |
| TechStack.OtherCloudKeywordsAbsent | app.py:157-160 | no other Cloud & DevOps keyword occurs in "docker docker" |
| TechStack.DockerTwiceExample | app.py:200-211 | the Cloud & DevOps counts of "Docker docker" are {"Docker": 2} |
| TechStack.CountCategories | app.py:200-211 | the nested loops over the lower-cased text build exactly the fold of per-category keyword counts |
| Dashboard.AsWrittenNeverWarns | app.py:106-132 | as written the render halts exactly on an empty filtered table, at `idxmax`, so a shown page never carries the "No jobs found" warning |
| Dashboard.NoMatchHalts | app.py:108 | filters that match no listing halt the render as written |
| Dashboard.GuardedWarnsExactlyWhenEmpty | app.py:95-132 | with the top-skill metric guarded, the page always renders, warns exactly when no listing matches with both metrics N/A, and otherwise equals the as-written page |

## Left out

- Metrics.TopSkill: on an empty filtered table `idxmax` (app.py:108) raises ValueError and the rest of the render is lost; the model's None stands for that exception, and `Dashboard` records the halt (see Findings).
- The SQLite connection and query, `@st.cache_data` memoisation, and a load failure when the store or table is missing: I/O and framework caching. The model starts from the rows the query returned.
- Streamlit widgets, metrics, tabs and charts, the row-count displays and the descending re-sort of each category's bar chart: presentation only. The values the user picks (locations, salary threshold, keyword) are parameters.
- `DataFrame.to_string()`: its formatting is not visible here; the rendering is the `rendered` parameter of `TechStack.CountCategories`.
- `pd.to_numeric` parsing rules and floating-point salaries: parsing is the parameter `parse: string -> Option<nat>`, salaries are naturals, and negative or fractional salaries are not modelled.
- Metrics.MeanSalaryMeaning: the mean is exact integer arithmetic, not the source's floating-point mean, so rounding of very large sums is not modelled.
- Filters.TitleStepSelects: `str.contains` compiles the keyword as a regular expression; the model matches it literally. A keyword with regex metacharacters matches differently, and one that is not a valid pattern, such as "C++" or "(", makes the source raise and halt the render, which the model does not capture.
- Text.Lower: only ASCII capitals are lowered; Python's `lower()` also lowers other scripts' capitals (CJK text, which dominates the data, is unaffected either way).
- Metrics.ValueCountsMeaning: ties in `value_counts` are ordered by first appearance; the library's order among equal counts is not specified, so which of several equally frequent tags `idxmax` and the chart report may differ.
- `astype(str)` of a missing skills cell is taken to be the text "None" (an SQL NULL in a text column); a column read as floats would render "nan" instead.
- Absent columns (`'address' in df.columns`, `'skills_tags' in filtered_df.columns`): the record type always has every column, so the "column absent" branches are not modelled; an empty location selection stands for the absent address column.
- The dead `text`, `stopwords` and `text_parts` values, the commented-out blocks, and the salary series that only feeds the line chart (app.py:147-149): they feed nothing the model covers.
- The slider's 1000-step granularity: the threshold is any natural the caller supplies.

## Findings

| source | as written | input that shows it | evidently intended | confidence | as-written member | corrected member |
|---|---|---|---|---|---|---|
| app.py:108 | `value_counts().idxmax()` runs unguarded; on an empty filtered table it raises, halting the script before the "No jobs found" warning (app.py:131-132), the chart and the keyword counts | filters that match no listing (an empty filtered table) | the top-skill metric shows N/A on an empty table, as the mean does (app.py:95-104), and the warning is shown | not executed; medium | Dashboard.AsWrittenNeverWarns | Dashboard.GuardedWarnsExactlyWhenEmpty |
