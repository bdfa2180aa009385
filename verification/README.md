# Somatic mutation summary, modelled in Dafny

This project models the data-processing core of an ICGC somatic-mutation
summary (`2_Data_Processing/describe_somatic_mutation.py`). The core has three steps.

1. **Composite id.** `get_unique_icgc_mutations` writes a new column,
   `unique_icgc_mutation_id`, into the caller's data frame. The column holds
   `icgc_mutation_id + "_" + transcript_affected`. The step then returns the
   four columns `unique_icgc_mutation_id`, `icgc_sample_id`,
   `mutated_from_allele` and `mutated_to_allele`, in that order.
2. **Allele patterns.** `get_unique_icgc_mutations_count_from_mutated_allele_patterns`
   groups rows by their (from-allele, to-allele) pair. It counts the distinct
   composite ids per pair and lists the pairs in ascending order.
3. **Sample extremes.** `get_unique_icgc_mutations_count_from_icgc_sample_id`
   counts the distinct composite ids per sample. It returns a two-row table:
   the row labelled `Highest` holds the sample at `idxmax` of the counts, and
   the row labelled `Lowest` the sample at `idxmin`.

The project has five modules:

- `Ordering` (`ordering.dfy`): Python's `<` on strings and on tuples of
  strings, which pandas uses to sort group keys. It is proved to be a strict
  total order.
- `Grouping` (`grouping.dfy`): `groupby(...)[col].nunique().reset_index()`
  with the default `sort=True`. There is one output row per distinct key, in
  strictly ascending key order, and each row holds the number of distinct
  values in that group.
- `Frames` (`frames.dfy`): the data frame as a class whose column
  assignment changes the frame in place.
- `DescribeSomaticMutation` (`describe.dfy`): the three functions above, the
  failures they raise, and their properties.
- `Scenarios` (`scenarios.dfy`): the unit tests' inputs. Their outcomes are
  proved for every row of the result, where the tests only check the shape.

Failures are values. A `KeyError` lists the missing column names, and
`EmptySequence` stands for the `ValueError` that `idxmax` raises on an empty
column.

An id is counted once under every allele pattern it occurs with, so the
per-pattern counts can add up to more than the number of distinct composite
ids; `Scenarios.SharedIdScenario` shows one id under two patterns giving two
counts of 1.

## Model

| member | source | states |
|---|---|---|
| Ordering.StrLess | 2_Data_Processing/describe_somatic_mutation.py:53-54 | the order pandas sorts sample ids by: only different strings are ordered, and a proper prefix sorts first; StrLessIrreflexive, StrLessTransitive, StrLessTotal and StrLessAsymmetric prove it a strict total order |
| Ordering.StrLessIrreflexive | 2_Data_Processing/describe_somatic_mutation.py:53-54 | no sample id sorts before itself |
| Ordering.StrLessTransitive | 2_Data_Processing/describe_somatic_mutation.py:53-54 | the string order used to sort sample ids is transitive |
| Ordering.StrLessTotal | 2_Data_Processing/describe_somatic_mutation.py:53-54 | any two different sample ids are ordered one way or the other |
| Ordering.StrLessAsymmetric | 2_Data_Processing/describe_somatic_mutation.py:53-54 | two sample ids never sort before each other |
| Ordering.KeyLess | 2_Data_Processing/describe_somatic_mutation.py:39-41 | the order pandas sorts multi-column group keys by: only different keys are ordered, and a proper prefix sorts first; KeyLessIrreflexive, KeyLessTransitive, KeyLessTotal and KeyLessAsymmetric prove it a strict total order |
| Ordering.KeyLessIrreflexive | 2_Data_Processing/describe_somatic_mutation.py:39-41 | no group key sorts before itself |
| Ordering.KeyLessTransitive | 2_Data_Processing/describe_somatic_mutation.py:39-41 | the tuple order on group keys is transitive |
| Ordering.KeyLessTotal | 2_Data_Processing/describe_somatic_mutation.py:39-41 | any two different group keys are ordered one way or the other |
| Ordering.KeyLessAsymmetric | 2_Data_Processing/describe_somatic_mutation.py:39-41 | two group keys never sort before each other |
| Ordering.KeyLessSingleton | 2_Data_Processing/describe_somatic_mutation.py:53-54 | a one-column key (the sample) orders exactly as its string does |
| Ordering.KeyLessPair | 2_Data_Processing/describe_somatic_mutation.py:39-41 | a (from, to) key orders by from-allele first, then by to-allele when the from-alleles are equal |
| Grouping.Insert | 2_Data_Processing/describe_somatic_mutation.py:39-41 | adding a key to a strictly ascending key list keeps it strictly ascending; the result holds exactly the old keys plus the new one |
| Grouping.GroupKeys | 2_Data_Processing/describe_somatic_mutation.py:39-41 | the grouped index is strictly ascending and holds exactly the keys that occur in the input |
| Grouping.GroupRowsSnoc | 2_Data_Processing/describe_somatic_mutation.py:39-41 | an appended row joins its own group's rows and no other group's |
| Grouping.GroupValuesSnoc | 2_Data_Processing/describe_somatic_mutation.py:39-41 | an appended row adds its value to its own group's distinct values and to no other group's |
| Grouping.ValuesBound | 2_Data_Processing/describe_somatic_mutation.py:41 | nunique of a group is at most the group's number of rows |
| Grouping.NuniqueBounds | 2_Data_Processing/describe_somatic_mutation.py:41 | a key that occurs has nunique between 1 and its number of rows |
| Grouping.GroupNunique | 2_Data_Processing/describe_somatic_mutation.py:39-41 | `groupby(...)[col].nunique().reset_index()`: no more groups than rows, and none exactly when there are no rows; GroupNuniqueSorted, GroupNuniqueCovers and GroupNuniqueCounts state its order, its keys and its counts |
| Grouping.GroupNuniqueSorted | 2_Data_Processing/describe_somatic_mutation.py:39-41 | the grouped table's keys are strictly ascending, so no key appears twice |
| Grouping.GroupSource | 2_Data_Processing/describe_somatic_mutation.py:39-41 | every key of the grouped table comes from some input row |
| Grouping.GroupIndex | 2_Data_Processing/describe_somatic_mutation.py:39-41 | every input row's key appears in the grouped table |
| Grouping.GroupNuniqueCovers | 2_Data_Processing/describe_somatic_mutation.py:39-41 | the grouped table has a row for every key in the input and for no other key |
| Grouping.GroupNuniqueCounts | 2_Data_Processing/describe_somatic_mutation.py:39-41 | each grouped row's count is the number of distinct values among its rows, at least 1 and at most its number of rows |
| Grouping.GroupNuniqueWidth | 2_Data_Processing/describe_somatic_mutation.py:39-41 | grouping by w columns gives keys of w components |
| Frames.DataFrame.constructor | 2_Data_Processing/test_describe_somatic_mutation.py:37-43 | a frame built from distinct column names, with one equally long column each, is well formed and holds exactly those columns |
| Frames.DataFrame.Assign | 2_Data_Processing/describe_somatic_mutation.py:25 | `df[name] = values`: a new name is appended after the existing columns, an existing one keeps its place; that column takes the values, every other column and the height are unchanged |
| DescribeSomaticMutation.UniqueId | 2_Data_Processing/describe_somatic_mutation.py:25-26 | the composite id is the mutation id, one underscore, then the transcript (length and separator position); SplitUniqueIdInverts and UniqueIdInjective state when the pair can be recovered from it |
| DescribeSomaticMutation.SplitUniqueId | 2_Data_Processing/describe_somatic_mutation.py:25-26 | a composite id splits at its first underscore; it has no split exactly when it holds no underscore, and joining the two parts again gives back the id |
| DescribeSomaticMutation.SplitUniqueIdInverts | 2_Data_Processing/describe_somatic_mutation.py:25-26 | a mutation id without an underscore and its transcript are recovered from their composite id |
| DescribeSomaticMutation.UniqueIdInjective | 2_Data_Processing/describe_somatic_mutation.py:25-26 | different (mutation, transcript) pairs give different composite ids when the mutation ids hold no underscore |
| DescribeSomaticMutation.UniqueIdCollision | 2_Data_Processing/describe_somatic_mutation.py:25-26 | without that condition two different pairs can share a composite id |
| DescribeSomaticMutation.UniqueIds | 2_Data_Processing/describe_somatic_mutation.py:25-26 | the new column has one entry per row of the frame |
| DescribeSomaticMutation.UniqueIdsRecover | 2_Data_Processing/describe_somatic_mutation.py:25-26 | when row i's mutation id holds no underscore, its mutation id and transcript can be read back from row i of the new column |
| DescribeSomaticMutation.MissingColumns | 2_Data_Processing/describe_somatic_mutation.py:28-31 | lists exactly the requested columns that the frame lacks; it is empty exactly when all are present |
| DescribeSomaticMutation.Select | 2_Data_Processing/describe_somatic_mutation.py:28-31 | the projection keeps the row count and order, and cell j of row i is row i of the j-th requested column |
| DescribeSomaticMutation.GetUniqueIcgcMutations | 2_Data_Processing/describe_somatic_mutation.py:19-31 | a missing mutation-id or transcript column gives a KeyError and leaves the frame untouched; otherwise the frame gains (or overwrites) only `unique_icgc_mutation_id`, holding each row's composite id, keeps its height, and the result is the four-column projection or a KeyError naming the missing projected columns |
| DescribeSomaticMutation.PatternGroup | 2_Data_Processing/describe_somatic_mutation.py:39-41 | the group of key (f, t) holds exactly the rows with that allele pattern and their composite ids |
| DescribeSomaticMutation.AllelePatternCounts | 2_Data_Processing/describe_somatic_mutation.py:34-47 | the allele-pattern summary has no more rows than the input and is empty exactly when the input is; AllelePatternCountsSorted, AllelePatternCountsCover and AllelePatternCountsNunique state its order, its pairs and its counts |
| DescribeSomaticMutation.AllelePatternCountAt | 2_Data_Processing/describe_somatic_mutation.py:39-46 | summary row i is grouped row i, its key split into from-allele and to-allele |
| DescribeSomaticMutation.AllelePatternCountsSorted | 2_Data_Processing/describe_somatic_mutation.py:39-46 | the summary's (from, to) pairs are strictly ascending, so there is one row per distinct pair |
| DescribeSomaticMutation.AllelePatternCountsCover | 2_Data_Processing/describe_somatic_mutation.py:39-46 | every pattern in the input has a summary row, and every summary row is a pattern of the input |
| DescribeSomaticMutation.AllelePatternCountsNunique | 2_Data_Processing/describe_somatic_mutation.py:39-46 | each count is the number of distinct composite ids with that pattern, between 1 and the pattern's number of rows |
| DescribeSomaticMutation.SampleGroup | 2_Data_Processing/describe_somatic_mutation.py:53-54 | the group of sample s holds exactly that sample's rows and their composite ids |
| DescribeSomaticMutation.SampleCounts | 2_Data_Processing/describe_somatic_mutation.py:53-56 | the per-sample counts have no more rows than the input and are empty exactly when the input is (hence idxmax raises exactly on empty input); SampleCountsSorted, SampleCountsCover and SampleCountsNunique state its order, its samples and its counts |
| DescribeSomaticMutation.SampleCountAtGroup | 2_Data_Processing/describe_somatic_mutation.py:53-56 | row i of the per-sample counts is grouped row i |
| DescribeSomaticMutation.SampleCountsSorted | 2_Data_Processing/describe_somatic_mutation.py:53-56 | samples are listed in strictly ascending order, one row each |
| DescribeSomaticMutation.SampleCountsCover | 2_Data_Processing/describe_somatic_mutation.py:53-56 | every sample in the input has a row, and every row is a sample of the input |
| DescribeSomaticMutation.SampleCountsNunique | 2_Data_Processing/describe_somatic_mutation.py:53-56 | each count is the number of distinct composite ids of that sample, between 1 and its number of rows |
| DescribeSomaticMutation.IdxMax | 2_Data_Processing/describe_somatic_mutation.py:59 | the position holds the maximum, and every earlier position holds less: the first occurrence of the maximum |
| DescribeSomaticMutation.IdxMin | 2_Data_Processing/describe_somatic_mutation.py:60 | the position holds the minimum, and every earlier position holds more: the first occurrence of the minimum |
| DescribeSomaticMutation.SampleExtremes | 2_Data_Processing/describe_somatic_mutation.py:50-64 | the result is an error (EmptySequence) exactly when the input has no rows; otherwise it has two rows labelled Highest then Lowest |
| DescribeSomaticMutation.SampleCountAt | 2_Data_Processing/describe_somatic_mutation.py:53-56 | each per-sample row names a sample of the input with its distinct-id count |
| DescribeSomaticMutation.SampleCountIndex | 2_Data_Processing/describe_somatic_mutation.py:53-56 | the sample of every input row has a per-sample row carrying that sample's count |
| DescribeSomaticMutation.SortedBySampleOrder | 2_Data_Processing/describe_somatic_mutation.py:53-54 | in the sorted per-sample list, a sample that sorts earlier sits at an earlier position |
| DescribeSomaticMutation.SampleExtremesHighest | 2_Data_Processing/describe_somatic_mutation.py:59 | Highest is a sample of the input with its true count; no sample has more, and every sample sorting before it has fewer (ties go to the first sample) |
| DescribeSomaticMutation.SampleExtremesLowest | 2_Data_Processing/describe_somatic_mutation.py:60 | Lowest is a sample of the input with its true count; no sample has fewer, and every sample sorting before it has more (ties go to the first sample) |
| Scenarios.DerivedIds | 2_Data_Processing/test_describe_somatic_mutation.py:36-45 | the test rows' composite ids are `id1_trans1` and `id2_trans2` |
| Scenarios.DerivedValues | 2_Data_Processing/test_describe_somatic_mutation.py:36-47 | on the test frame no projected column is missing, and the projection is the two expected rows |
| Scenarios.DerivationScenario | 2_Data_Processing/test_describe_somatic_mutation.py:36-47 | on the test frame the derivation succeeds, the frame's columns end with `unique_icgc_mutation_id`, and the two returned rows are the expected ones |
| Scenarios.AllelePatternScenario | 2_Data_Processing/test_describe_somatic_mutation.py:50-59 | the three test rows give exactly (A, C, 1) then (T, G, 1): the duplicated id counts once |
| Scenarios.SharedIdScenario | 2_Data_Processing/describe_somatic_mutation.py:39-41 | one id under two patterns is counted once in each, so the counts sum to more than the number of distinct ids |
| Scenarios.SampleScenarioKeys | 2_Data_Processing/test_describe_somatic_mutation.py:62-66 | the test rows group into the samples sample1 then sample2 |
| Scenarios.SampleScenarioValues | 2_Data_Processing/test_describe_somatic_mutation.py:62-66 | sample1 has the ids id1_trans1 and id1_trans2; sample2 has id2_trans1 |
| Scenarios.SampleScenarioGroups | 2_Data_Processing/test_describe_somatic_mutation.py:62-66 | the grouped table is (sample1, 2), (sample2, 1) |
| Scenarios.SampleScenarioCounts | 2_Data_Processing/test_describe_somatic_mutation.py:62-66 | the per-sample counts are (sample1, 2), (sample2, 1) |
| Scenarios.SampleExtremesScenario | 2_Data_Processing/test_describe_somatic_mutation.py:62-71 | the test rows give exactly Highest = (sample1, 2) and Lowest = (sample2, 1) |

## Left out

- `get_df_from_tsv`: reading the gzip file, parsing the TSV and re-raising `FileNotFoundError` after printing a message are I/O and are left out.
- `main`: it chains the steps on a fixed file path and prints the tables. This is I/O and is left out.
- `1_Bash/pyapp.py` is not part of this model.
- GetUniqueIcgcMutations: every cell is already a string, so `astype(str)` is the identity here. How non-string values and NaN are rendered as text is not modelled.
- AllelePatternCounts and SampleCounts: every cell is a string, so pandas' default of dropping NaN group keys and NaN values is not modelled.
- AllelePatternCounts, SampleCounts and SampleExtremes take rows with named fields. The KeyError these functions raise when a grouped column is missing is therefore not modelled; the projection's KeyError is modelled in GetUniqueIcgcMutations.
- The tables' column renaming (`grouped_df.columns = ...`) appears only as the field names of `PatternCount`, `SampleCount` and `Extreme`.
- Pandas index and dtype mechanics are not modelled. After `reset_index` the index is the row position, so `idxmax` and `idxmin` are modelled as positions.
- GetUniqueIcgcMutations returns its projection as a sequence of values, so the new frame's independence from the caller's frame (pandas copies it) is not modelled.
- Scenarios: the tests at lines 13-33 of `test_describe_somatic_mutation.py` exercise only the file loader, which is left out.
