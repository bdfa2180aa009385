/**
 The summary of ICGC simple somatic mutations: a composite mutation id per
 row (`icgc_mutation_id` and `transcript_affected` joined by an underscore),
 the number of distinct composite ids per allele pattern
 (`mutated_from_allele`, `mutated_to_allele`), and the samples with the most
 and the fewest distinct composite ids.
 */
module DescribeSomaticMutation {
  import opened Ordering
  import opened Grouping
  import opened Frames

  const MutationIdColumn := "icgc_mutation_id"
  const TranscriptColumn := "transcript_affected"
  const SampleColumn := "icgc_sample_id"
  const FromAlleleColumn := "mutated_from_allele"
  const ToAlleleColumn := "mutated_to_allele"
  const UniqueIdColumn := "unique_icgc_mutation_id"

  /** The columns of the table the derivation returns, in their order. */
  const KeyedColumns := [UniqueIdColumn, SampleColumn, FromAlleleColumn, ToAlleleColumn]

  /** The conditions pandas raises on the paths modelled here. */
  datatype Failure =
    | KeyError(missing: seq<string>)  // selected columns that the frame lacks
    | EmptySequence                   // idxmax / idxmin of an empty column

  datatype Result<T> = Ok(value: T) | Err(failure: Failure)

  datatype Option<T> = None | Some(value: T)

  /** A row of the derived table: its cells in the order of `KeyedColumns`. */
  datatype KeyedRow = KeyedRow(uniqueId: string, sampleId: string, fromAllele: string, toAllele: string)
  {
    function Cells(): (r: seq<string>)
      ensures |r| == |KeyedColumns|
    {
      [uniqueId, sampleId, fromAllele, toAllele]
    }
  }

  // ---------------------------------------------------------------------------
  // Composite mutation id

  /** The composite id of one row: the mutation id, an underscore, then the transcript. */
  function UniqueId(mutationId: string, transcript: string): (r: string)
    ensures |r| == |mutationId| + 1 + |transcript|
    ensures r[|mutationId|] == '_'
  {
    mutationId + "_" + transcript
  }

  /** Splits a composite id at its first underscore; `None` when it has none. */
  function SplitUniqueId(id: string): (r: Option<(string, string)>)
    ensures r.None? <==> '_' !in id
    ensures r.Some? ==> '_' !in r.value.0 && UniqueId(r.value.0, r.value.1) == id
  {
    if id == [] then None
    else if id[0] == '_' then Some(("", id[1..]))
    else
      match SplitUniqueId(id[1..])
      case None => None
      case Some((m, t)) =>
        assert id == [id[0]] + id[1..];
        Some(([id[0]] + m, t))
  }

  /** A mutation id without an underscore is recovered, with its transcript, from the composite id. */
  lemma {:induction false} SplitUniqueIdInverts(mutationId: string, transcript: string)
    requires '_' !in mutationId
    ensures SplitUniqueId(UniqueId(mutationId, transcript)) == Some((mutationId, transcript))
  {
    if mutationId != [] {
      SplitUniqueIdInverts(mutationId[1..], transcript);
      assert UniqueId(mutationId, transcript)[1..] == UniqueId(mutationId[1..], transcript);
      assert [mutationId[0]] + mutationId[1..] == mutationId;
    }
  }

  /** Hence distinct (mutation, transcript) pairs give distinct composite ids when no mutation id holds an underscore. */
  lemma UniqueIdInjective(m1: string, t1: string, m2: string, t2: string)
    requires '_' !in m1 && '_' !in m2
    requires UniqueId(m1, t1) == UniqueId(m2, t2)
    ensures m1 == m2 && t1 == t2
  {
    SplitUniqueIdInverts(m1, t1);
    SplitUniqueIdInverts(m2, t2);
  }

  /** Without that condition two different pairs can share a composite id. */
  lemma UniqueIdCollision()
    ensures UniqueId("a_b", "c") == UniqueId("a", "b_c")
  {
  }

  // ---------------------------------------------------------------------------
  // get_unique_icgc_mutations

  /** The names among `names` that are not columns of `cells`, in the order asked for. */
  function MissingColumns(cells: map<string, seq<string>>, names: seq<string>): (r: seq<string>)
    ensures forall c :: c in r <==> c in names && c !in cells
    ensures r == [] <==> forall c :: c in names ==> c in cells
  {
    if names == [] then []
    else (if names[0] in cells then [] else [names[0]]) + MissingColumns(cells, names[1..])
  }

  /** The `unique_icgc_mutation_id` column: row by row, the composite id of that row's mutation and transcript. */
  function UniqueIds(mutationIds: seq<string>, transcripts: seq<string>): (r: seq<string>)
    requires |mutationIds| == |transcripts|
    ensures |r| == |mutationIds|
  {
    seq(|mutationIds|, i requires 0 <= i < |mutationIds| => UniqueId(mutationIds[i], transcripts[i]))
  }

  /** Each row's mutation id and transcript can be read back from its composite id when the mutation id holds no underscore. */
  lemma UniqueIdsRecover(mutationIds: seq<string>, transcripts: seq<string>, i: nat)
    requires |mutationIds| == |transcripts| && i < |mutationIds|
    requires '_' !in mutationIds[i]
    ensures SplitUniqueId(UniqueIds(mutationIds, transcripts)[i]) == Some((mutationIds[i], transcripts[i]))
  {
    SplitUniqueIdInverts(mutationIds[i], transcripts[i]);
  }

  /** `frame[KeyedColumns]`: the four selected columns, row by row, in the order of `KeyedColumns`. */
  function Select(cells: map<string, seq<string>>, n: nat): (r: seq<KeyedRow>)
    requires forall c :: c in KeyedColumns ==> c in cells && |cells[c]| == n
    ensures |r| == n
    ensures forall i, j :: 0 <= i < n && 0 <= j < |KeyedColumns| ==> r[i].Cells()[j] == cells[KeyedColumns[j]][i]
  {
    var uid, sample, from, to := cells[UniqueIdColumn], cells[SampleColumn], cells[FromAlleleColumn], cells[ToAlleleColumn];
    seq(n, i requires 0 <= i < n => KeyedRow(uid[i], sample[i], from[i], to[i]))
  }

  /**
   Adds the `unique_icgc_mutation_id` column to the caller's frame and returns
   the four-column projection (`KeyedColumns`). A missing key column raises
   before the frame is touched; a missing projected column raises after the
   new column has been written.
   */
  method GetUniqueIcgcMutations(df: DataFrame) returns (r: Result<seq<KeyedRow>>)
    requires df.Valid()
    modifies df
    ensures df.Valid() && df.height == old(df.height)
    ensures MutationIdColumn !in old(df.cells) ==>
              r == Err(KeyError([MutationIdColumn])) && unchanged(df)
    ensures MutationIdColumn in old(df.cells) && TranscriptColumn !in old(df.cells) ==>
              r == Err(KeyError([TranscriptColumn])) && unchanged(df)
    ensures MutationIdColumn in old(df.cells) && TranscriptColumn in old(df.cells) ==>
              && df.columns == (if UniqueIdColumn in old(df.columns) then old(df.columns) else old(df.columns) + [UniqueIdColumn])
              && df.cells == old(df.cells)[UniqueIdColumn := UniqueIds(old(df.cells)[MutationIdColumn], old(df.cells)[TranscriptColumn])]
              && r == if MissingColumns(df.cells, KeyedColumns) == [] then Ok(Select(df.cells, df.height))
                      else Err(KeyError(MissingColumns(df.cells, KeyedColumns)))
  {
    if MutationIdColumn !in df.cells {
      return Err(KeyError([MutationIdColumn]));
    }
    if TranscriptColumn !in df.cells {
      return Err(KeyError([TranscriptColumn]));
    }
    var n, ids, transcripts := df.height, df.cells[MutationIdColumn], df.cells[TranscriptColumn];
    df.Assign(UniqueIdColumn, UniqueIds(ids, transcripts));
    var missing := MissingColumns(df.cells, KeyedColumns);
    if missing != [] {
      return Err(KeyError(missing));
    }
    r := Ok(Select(df.cells, n));
  }

  // ---------------------------------------------------------------------------
  // get_unique_icgc_mutations_count_from_mutated_allele_patterns

  /** One row of the allele-pattern summary. */
  datatype PatternCount = PatternCount(fromAllele: string, toAllele: string, nunique: nat)

  /** Python's `<` on (from, to) pairs. */
  predicate PatternLess(f1: string, t1: string, f2: string, t2: string)
  {
    StrLess(f1, f2) || (f1 == f2 && StrLess(t1, t2))
  }

  /** `row` has allele pattern (f, t). */
  predicate HasPattern(row: KeyedRow, f: string, t: string)
  {
    row.fromAllele == f && row.toAllele == t
  }

  /** The distinct composite ids among the rows with allele pattern (f, t). */
  function PatternIds(rows: seq<KeyedRow>, f: string, t: string): set<string>
  {
    set i | 0 <= i < |rows| && HasPattern(rows[i], f, t) :: rows[i].uniqueId
  }

  /** The indices of the rows with allele pattern (f, t). */
  function PatternRows(rows: seq<KeyedRow>, f: string, t: string): set<int>
  {
    set i | 0 <= i < |rows| && HasPattern(rows[i], f, t)
  }

  /** The rows as the pattern grouping sees them: key (from, to), value the composite id. */
  function PatternEntries(rows: seq<KeyedRow>): (es: seq<Entry>)
    ensures |es| == |rows|
    ensures forall i :: 0 <= i < |rows| ==> es[i] == Entry([rows[i].fromAllele, rows[i].toAllele], rows[i].uniqueId)
  {
    seq(|rows|, i requires 0 <= i < |rows| => Entry([rows[i].fromAllele, rows[i].toAllele], rows[i].uniqueId))
  }

  lemma PatternGroup(rows: seq<KeyedRow>, f: string, t: string)
    ensures GroupValues(PatternEntries(rows), [f, t]) == PatternIds(rows, f, t)
    ensures GroupRows(PatternEntries(rows), [f, t]) == PatternRows(rows, f, t)
  {
    var es := PatternEntries(rows);
    assert forall i :: 0 <= i < |rows| ==> (es[i].key == [f, t] <==> HasPattern(rows[i], f, t));
  }

  /** The allele-pattern summary: the pattern grouping, one `PatternCount` per group. */
  function AllelePatternCounts(rows: seq<KeyedRow>): (r: seq<PatternCount>)
    ensures |r| <= |rows|
    ensures r == [] <==> rows == []
  {
    var gs := GroupNunique(PatternEntries(rows));
    GroupNuniqueWidth(PatternEntries(rows), 2);
    seq(|gs|, i requires 0 <= i < |gs| => PatternCount(gs[i].key[0], gs[i].key[1], gs[i].nunique))
  }

  /** Row `i` of the summary is group `i` of the pattern grouping, its key split into (from, to). */
  lemma AllelePatternCountAt(rows: seq<KeyedRow>, i: nat)
    requires i < |AllelePatternCounts(rows)|
    ensures |AllelePatternCounts(rows)| == |GroupNunique(PatternEntries(rows))|
    ensures var (p, g) := (AllelePatternCounts(rows)[i], GroupNunique(PatternEntries(rows))[i]);
            g.key == [p.fromAllele, p.toAllele] && g.nunique == p.nunique
  {
    GroupNuniqueWidth(PatternEntries(rows), 2);
  }

  /** The summary lists its (from, to) pairs in strictly ascending order, so each pair once. */
  lemma AllelePatternCountsSorted(rows: seq<KeyedRow>)
    ensures var r := AllelePatternCounts(rows);
            forall i, j :: 0 <= i < j < |r| ==> PatternLess(r[i].fromAllele, r[i].toAllele, r[j].fromAllele, r[j].toAllele)
  {
    var r := AllelePatternCounts(rows);
    GroupNuniqueSorted(PatternEntries(rows));
    forall i, j | 0 <= i < j < |r| ensures PatternLess(r[i].fromAllele, r[i].toAllele, r[j].fromAllele, r[j].toAllele) {
      AllelePatternCountAt(rows, i);
      AllelePatternCountAt(rows, j);
      KeyLessPair(r[i].fromAllele, r[i].toAllele, r[j].fromAllele, r[j].toAllele);
    }
  }

  /** The summary has a row for the pattern of every input row, and for no pattern absent from the input. */
  lemma AllelePatternCountsCover(rows: seq<KeyedRow>)
    ensures var r := AllelePatternCounts(rows);
            forall i :: 0 <= i < |r| ==> exists j :: 0 <= j < |rows| && HasPattern(rows[j], r[i].fromAllele, r[i].toAllele)
    ensures var r := AllelePatternCounts(rows);
            forall j :: 0 <= j < |rows| ==> exists i :: 0 <= i < |r| && HasPattern(rows[j], r[i].fromAllele, r[i].toAllele)
  {
    var r, es := AllelePatternCounts(rows), PatternEntries(rows);
    forall i | 0 <= i < |r| ensures exists j :: 0 <= j < |rows| && HasPattern(rows[j], r[i].fromAllele, r[i].toAllele) {
      AllelePatternCountAt(rows, i);
      var j := GroupSource(es, i);
      assert HasPattern(rows[j], r[i].fromAllele, r[i].toAllele);
    }
    forall j | 0 <= j < |rows| ensures exists i :: 0 <= i < |r| && HasPattern(rows[j], r[i].fromAllele, r[i].toAllele) {
      var i := GroupIndex(es, j);
      AllelePatternCountAt(rows, i);
      assert HasPattern(rows[j], r[i].fromAllele, r[i].toAllele);
    }
  }

  /**
   Each summary row counts the distinct composite ids among its pattern's
   rows: duplicates collapse, so the count is at least one and at most the
   number of rows with that pattern.
   */
  lemma AllelePatternCountsNunique(rows: seq<KeyedRow>)
    ensures var r := AllelePatternCounts(rows);
            forall i :: 0 <= i < |r| ==>
              && r[i].nunique == |PatternIds(rows, r[i].fromAllele, r[i].toAllele)|
              && 1 <= r[i].nunique <= |PatternRows(rows, r[i].fromAllele, r[i].toAllele)|
  {
    var r := AllelePatternCounts(rows);
    GroupNuniqueCounts(PatternEntries(rows));
    forall i | 0 <= i < |r|
      ensures && r[i].nunique == |PatternIds(rows, r[i].fromAllele, r[i].toAllele)|
              && 1 <= r[i].nunique <= |PatternRows(rows, r[i].fromAllele, r[i].toAllele)|
    {
      AllelePatternCountAt(rows, i);
      PatternGroup(rows, r[i].fromAllele, r[i].toAllele);
    }
  }

  // ---------------------------------------------------------------------------
  // get_unique_icgc_mutations_count_from_icgc_sample_id

  /** One row of the per-sample grouping. */
  datatype SampleCount = SampleCount(sampleId: string, nunique: nat)

  /** One row of the extremes table: its row label, a sample and its count. */
  datatype Extreme = Extreme(rowLabel: string, sampleId: string, nunique: nat)

  /** The distinct composite ids among the rows of sample `s`. */
  function SampleIds(rows: seq<KeyedRow>, s: string): set<string>
  {
    set i | 0 <= i < |rows| && rows[i].sampleId == s :: rows[i].uniqueId
  }

  /** The indices of the rows of sample `s`. */
  function SampleRows(rows: seq<KeyedRow>, s: string): set<int>
  {
    set i | 0 <= i < |rows| && rows[i].sampleId == s
  }

  /** The rows as the sample grouping sees them: key (sample), value the composite id. */
  function SampleEntries(rows: seq<KeyedRow>): (es: seq<Entry>)
    ensures |es| == |rows|
    ensures forall i :: 0 <= i < |rows| ==> es[i] == Entry([rows[i].sampleId], rows[i].uniqueId)
  {
    seq(|rows|, i requires 0 <= i < |rows| => Entry([rows[i].sampleId], rows[i].uniqueId))
  }

  lemma SampleGroup(rows: seq<KeyedRow>, s: string)
    ensures GroupValues(SampleEntries(rows), [s]) == SampleIds(rows, s)
    ensures GroupRows(SampleEntries(rows), [s]) == SampleRows(rows, s)
  {
    var es := SampleEntries(rows);
    assert forall i :: 0 <= i < |rows| ==> (es[i].key == [s] <==> rows[i].sampleId == s);
  }

  /** The per-sample grouping: one `SampleCount` per group of the sample grouping. */
  function SampleCounts(rows: seq<KeyedRow>): (r: seq<SampleCount>)
    ensures |r| <= |rows|
    ensures r == [] <==> rows == []
  {
    var gs := GroupNunique(SampleEntries(rows));
    GroupNuniqueWidth(SampleEntries(rows), 1);
    seq(|gs|, i requires 0 <= i < |gs| => SampleCount(gs[i].key[0], gs[i].nunique))
  }

  /** Row `i` of the per-sample grouping is group `i` of the sample grouping. */
  lemma SampleCountAtGroup(rows: seq<KeyedRow>, i: nat)
    requires i < |SampleCounts(rows)|
    ensures |SampleCounts(rows)| == |GroupNunique(SampleEntries(rows))|
    ensures var (c, g) := (SampleCounts(rows)[i], GroupNunique(SampleEntries(rows))[i]);
            g.key == [c.sampleId] && g.nunique == c.nunique
  {
    GroupNuniqueWidth(SampleEntries(rows), 1);
  }

  /** The per-sample grouping lists its samples in strictly ascending order, so each sample once. */
  lemma SampleCountsSorted(rows: seq<KeyedRow>)
    ensures var r := SampleCounts(rows);
            forall i, j :: 0 <= i < j < |r| ==> StrLess(r[i].sampleId, r[j].sampleId)
  {
    var r := SampleCounts(rows);
    GroupNuniqueSorted(SampleEntries(rows));
    forall i, j | 0 <= i < j < |r| ensures StrLess(r[i].sampleId, r[j].sampleId) {
      SampleCountAtGroup(rows, i);
      SampleCountAtGroup(rows, j);
      KeyLessSingleton(r[i].sampleId, r[j].sampleId);
    }
  }

  /** The per-sample grouping has a row for every sample of the input, and for no other sample. */
  lemma SampleCountsCover(rows: seq<KeyedRow>)
    ensures var r := SampleCounts(rows);
            forall i :: 0 <= i < |r| ==> exists j :: 0 <= j < |rows| && rows[j].sampleId == r[i].sampleId
    ensures var r := SampleCounts(rows);
            forall j :: 0 <= j < |rows| ==> exists i :: 0 <= i < |r| && r[i].sampleId == rows[j].sampleId
  {
    var r, es := SampleCounts(rows), SampleEntries(rows);
    forall i | 0 <= i < |r| ensures exists j :: 0 <= j < |rows| && rows[j].sampleId == r[i].sampleId {
      SampleCountAtGroup(rows, i);
      var j := GroupSource(es, i);
      assert rows[j].sampleId == r[i].sampleId;
    }
    forall j | 0 <= j < |rows| ensures exists i :: 0 <= i < |r| && r[i].sampleId == rows[j].sampleId {
      var i := GroupIndex(es, j);
      SampleCountAtGroup(rows, i);
      assert r[i].sampleId == rows[j].sampleId;
    }
  }

  /**
   Each row of the per-sample grouping counts the distinct composite ids among
   that sample's rows: at least one, at most the sample's number of rows.
   */
  lemma SampleCountsNunique(rows: seq<KeyedRow>)
    ensures var r := SampleCounts(rows);
            forall i :: 0 <= i < |r| ==>
              && r[i].nunique == |SampleIds(rows, r[i].sampleId)|
              && 1 <= r[i].nunique <= |SampleRows(rows, r[i].sampleId)|
  {
    var r := SampleCounts(rows);
    GroupNuniqueCounts(SampleEntries(rows));
    forall i | 0 <= i < |r|
      ensures && r[i].nunique == |SampleIds(rows, r[i].sampleId)|
              && 1 <= r[i].nunique <= |SampleRows(rows, r[i].sampleId)|
    {
      SampleCountAtGroup(rows, i);
      SampleGroup(rows, r[i].sampleId);
    }
  }

  /** The count column of the per-sample grouping. */
  function Nuniques(cs: seq<SampleCount>): (r: seq<nat>)
    ensures |r| == |cs| && forall i :: 0 <= i < |cs| ==> r[i] == cs[i].nunique
  {
    seq(|cs|, i requires 0 <= i < |cs| => cs[i].nunique)
  }

  /** `Series.idxmax` on a default index: the first position holding the maximum. */
  function IdxMax(s: seq<nat>): (r: nat)
    requires |s| > 0
    ensures r < |s|
    ensures forall j :: 0 <= j < |s| ==> s[j] <= s[r]
    ensures forall j :: 0 <= j < r ==> s[j] < s[r]
  {
    if |s| == 1 then 0
    else
      var m := IdxMax(s[..|s| - 1]);
      if s[m] < s[|s| - 1] then |s| - 1 else m
  }

  /** `Series.idxmin` on a default index: the first position holding the minimum. */
  function IdxMin(s: seq<nat>): (r: nat)
    requires |s| > 0
    ensures r < |s|
    ensures forall j :: 0 <= j < |s| ==> s[r] <= s[j]
    ensures forall j :: 0 <= j < r ==> s[r] < s[j]
  {
    if |s| == 1 then 0
    else
      var m := IdxMin(s[..|s| - 1]);
      if s[|s| - 1] < s[m] then |s| - 1 else m
  }

  /** Sample `s` occurs in the input and `n` is its number of distinct composite ids. */
  ghost predicate IsSampleCount(rows: seq<KeyedRow>, s: string, n: nat)
  {
    (exists j :: 0 <= j < |rows| && rows[j].sampleId == s) && n == |SampleIds(rows, s)|
  }

  /**
   The extremes table: a "Highest" row holding the sample at `idxmax` of the
   per-sample counts, then a "Lowest" row holding the sample at `idxmin`. An
   input without rows has no samples, and `idxmax` raises.
   */
  function SampleExtremes(rows: seq<KeyedRow>): (r: Result<seq<Extreme>>)
    ensures r.Err? <==> rows == []
    ensures r.Err? ==> r.failure == EmptySequence
    ensures r.Ok? ==> |r.value| == 2 && r.value[0].rowLabel == "Highest" && r.value[1].rowLabel == "Lowest"
  {
    var counts := SampleCounts(rows);
    if |counts| == 0 then
      Err(EmptySequence)
    else
      var ns := Nuniques(counts);
      var hi, lo := counts[IdxMax(ns)], counts[IdxMin(ns)];
      Ok([Extreme("Highest", hi.sampleId, hi.nunique), Extreme("Lowest", lo.sampleId, lo.nunique)])
  }

  /** Position `i` of the per-sample grouping holds a sample of the input and its count. */
  lemma SampleCountAt(rows: seq<KeyedRow>, i: nat)
    requires i < |SampleCounts(rows)|
    ensures IsSampleCount(rows, SampleCounts(rows)[i].sampleId, SampleCounts(rows)[i].nunique)
  {
    SampleCountAtGroup(rows, i);
    var j := GroupSource(SampleEntries(rows), i);
    assert rows[j].sampleId == SampleCounts(rows)[i].sampleId;
    SampleCountsNunique(rows);
  }

  /** The position of row `j`'s sample in the per-sample grouping. */
  lemma SampleCountIndex(rows: seq<KeyedRow>, j: nat) returns (i: nat)
    requires j < |rows|
    ensures i < |SampleCounts(rows)|
    ensures SampleCounts(rows)[i].sampleId == rows[j].sampleId
    ensures SampleCounts(rows)[i].nunique == |SampleIds(rows, rows[j].sampleId)|
  {
    i := GroupIndex(SampleEntries(rows), j);
    SampleCountAtGroup(rows, i);
    SampleCountsNunique(rows);
  }

  /** In a list sorted by sample, a sample that sorts before another sits before it. */
  lemma SortedBySampleOrder(counts: seq<SampleCount>, i: nat, k: nat)
    requires forall a, b :: 0 <= a < b < |counts| ==> StrLess(counts[a].sampleId, counts[b].sampleId)
    requires i < |counts| && k < |counts|
    requires StrLess(counts[i].sampleId, counts[k].sampleId)
    ensures i < k
  {
    if k < i {
      StrLessAsymmetric(counts[k].sampleId, counts[i].sampleId);
    }
  }

  /**
   The "Highest" row holds a sample of the input with its count; no sample has
   a larger count, and every sample that sorts before it has a smaller one.
   */
  lemma SampleExtremesHighest(rows: seq<KeyedRow>)
    requires rows != []
    ensures var hi := SampleExtremes(rows).value[0];
            && IsSampleCount(rows, hi.sampleId, hi.nunique)
            && (forall j :: 0 <= j < |rows| ==> |SampleIds(rows, rows[j].sampleId)| <= hi.nunique)
            && (forall j :: 0 <= j < |rows| && StrLess(rows[j].sampleId, hi.sampleId) ==>
                  |SampleIds(rows, rows[j].sampleId)| < hi.nunique)
  {
    var counts := SampleCounts(rows);
    var ns := Nuniques(counts);
    var k := IdxMax(ns);
    var hi := SampleExtremes(rows).value[0];
    assert hi.sampleId == counts[k].sampleId && hi.nunique == counts[k].nunique;
    SampleCountAt(rows, k);
    forall j | 0 <= j < |rows|
      ensures |SampleIds(rows, rows[j].sampleId)| <= hi.nunique
      ensures StrLess(rows[j].sampleId, hi.sampleId) ==> |SampleIds(rows, rows[j].sampleId)| < hi.nunique
    {
      var i := SampleCountIndex(rows, j);
      assert ns[i] == counts[i].nunique;
      if StrLess(rows[j].sampleId, hi.sampleId) {
        SampleCountsSorted(rows);
        SortedBySampleOrder(counts, i, k);
      }
    }
  }

  /**
   The "Lowest" row holds a sample of the input with its count; no sample has
   a smaller count, and every sample that sorts before it has a larger one.
   */
  lemma SampleExtremesLowest(rows: seq<KeyedRow>)
    requires rows != []
    ensures var lo := SampleExtremes(rows).value[1];
            && IsSampleCount(rows, lo.sampleId, lo.nunique)
            && (forall j :: 0 <= j < |rows| ==> lo.nunique <= |SampleIds(rows, rows[j].sampleId)|)
            && (forall j :: 0 <= j < |rows| && StrLess(rows[j].sampleId, lo.sampleId) ==>
                  lo.nunique < |SampleIds(rows, rows[j].sampleId)|)
  {
    var counts := SampleCounts(rows);
    var ns := Nuniques(counts);
    var k := IdxMin(ns);
    var lo := SampleExtremes(rows).value[1];
    assert lo.sampleId == counts[k].sampleId && lo.nunique == counts[k].nunique;
    SampleCountAt(rows, k);
    forall j | 0 <= j < |rows|
      ensures lo.nunique <= |SampleIds(rows, rows[j].sampleId)|
      ensures StrLess(rows[j].sampleId, lo.sampleId) ==> lo.nunique < |SampleIds(rows, rows[j].sampleId)|
    {
      var i := SampleCountIndex(rows, j);
      assert ns[i] == counts[i].nunique;
      if StrLess(rows[j].sampleId, lo.sampleId) {
        SampleCountsSorted(rows);
        SortedBySampleOrder(counts, i, k);
      }
    }
  }
}
