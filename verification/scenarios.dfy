/**
 The scenarios of the repository's unit tests, with their outcomes proved
 rather than sampled.
 */
module Scenarios {
  import opened Ordering
  import opened Grouping
  import opened Frames
  import opened DescribeSomaticMutation

  /** The five loaded columns of a two-row input. */
  function LoadedCells(): map<string, seq<string>>
  {
    map[MutationIdColumn := ["id1", "id2"], TranscriptColumn := ["trans1", "trans2"],
        SampleColumn := ["sample1", "sample2"], FromAlleleColumn := ["A", "T"], ToAlleleColumn := ["C", "G"]]
  }

  /** The composite ids of the two loaded rows. */
  lemma DerivedIds()
    ensures UniqueIds(["id1", "id2"], ["trans1", "trans2"]) == ["id1_trans1", "id2_trans2"]
  {
    var ids := UniqueIds(["id1", "id2"], ["trans1", "trans2"]);
    assert ids[0] == UniqueId("id1", "trans1") == "id1_trans1";
    assert ids[1] == UniqueId("id2", "trans2") == "id2_trans2";
  }

  /** The values the derivation computes on `LoadedCells()`. */
  lemma DerivedValues()
    ensures var cells := LoadedCells()[UniqueIdColumn := UniqueIds(["id1", "id2"], ["trans1", "trans2"])];
            && MissingColumns(cells, KeyedColumns) == []
            && Select(cells, 2) == [KeyedRow("id1_trans1", "sample1", "A", "C"), KeyedRow("id2_trans2", "sample2", "T", "G")]
  {
    DerivedIds();
    var cells := LoadedCells()[UniqueIdColumn := ["id1_trans1", "id2_trans2"]];
    assert forall c :: c in KeyedColumns ==> c in cells;
    var rows := Select(cells, 2);
    assert rows[0].Cells() == ["id1_trans1", "sample1", "A", "C"];
    assert rows[1].Cells() == ["id2_trans2", "sample2", "T", "G"];
  }

  /**
   A two-row frame with the five loaded columns: the derivation succeeds,
   appends `unique_icgc_mutation_id` to the frame's columns, and returns two
   rows whose composite ids join mutation and transcript.
   */
  method DerivationScenario() returns (columns: seq<string>, r: Result<seq<KeyedRow>>)
    ensures columns == [MutationIdColumn, TranscriptColumn, SampleColumn, FromAlleleColumn, ToAlleleColumn, UniqueIdColumn]
    ensures r == Ok([KeyedRow("id1_trans1", "sample1", "A", "C"), KeyedRow("id2_trans2", "sample2", "T", "G")])
  {
    var df := new DataFrame([MutationIdColumn, TranscriptColumn, SampleColumn, FromAlleleColumn, ToAlleleColumn], LoadedCells(), 2);
    r := GetUniqueIcgcMutations(df);
    columns := df.columns;
    DerivedValues();
  }

  /**
   Three rows over two allele patterns, two of them sharing a composite id:
   the summary has two rows, (A, C) then (T, G), each counting one distinct id.
   */
  lemma AllelePatternScenario()
    ensures AllelePatternCounts([
              KeyedRow("id1_trans1", "sample1", "A", "C"),
              KeyedRow("id1_trans1", "sample1", "A", "C"),
              KeyedRow("id2_trans2", "sample2", "T", "G")])
            == [PatternCount("A", "C", 1), PatternCount("T", "G", 1)]
  {
    var rows := [
      KeyedRow("id1_trans1", "sample1", "A", "C"),
      KeyedRow("id1_trans1", "sample1", "A", "C"),
      KeyedRow("id2_trans2", "sample2", "T", "G")];
    var ac, tg := ["A", "C"], ["T", "G"];
    var es := PatternEntries(rows);
    assert es == [Entry(ac, "id1_trans1"), Entry(ac, "id1_trans1"), Entry(tg, "id2_trans2")];
    assert es[..2][..1][..0] == [];
    assert GroupKeys(es[..2][..1]) == [ac];
    assert GroupKeys(es[..2]) == [ac];
    assert !KeyLess(tg, ac) && tg != ac;
    assert Insert([ac], tg) == [ac, tg];
    assert es[..|es| - 1] == es[..2];
    assert GroupKeys(es) == [ac, tg];
    assert GroupValues(es, ac) == {"id1_trans1"};
    assert GroupValues(es, tg) == {"id2_trans2"};
    assert GroupNunique(es) == [Group(ac, 1), Group(tg, 1)];
  }

  /**
   One composite id under two allele patterns is counted once in each: the
   counts add up to two while the input holds a single distinct id.
   */
  lemma SharedIdScenario()
    ensures AllelePatternCounts([
              KeyedRow("id1_trans1", "sample1", "A", "C"),
              KeyedRow("id1_trans1", "sample1", "T", "G")])
            == [PatternCount("A", "C", 1), PatternCount("T", "G", 1)]
  {
    var rows := [
      KeyedRow("id1_trans1", "sample1", "A", "C"),
      KeyedRow("id1_trans1", "sample1", "T", "G")];
    var ac, tg := ["A", "C"], ["T", "G"];
    var es := PatternEntries(rows);
    assert es == [Entry(ac, "id1_trans1"), Entry(tg, "id1_trans1")];
    assert es[..1][..0] == [];
    assert GroupKeys(es[..1]) == [ac];
    assert !KeyLess(tg, ac) && tg != ac;
    assert Insert([ac], tg) == [ac, tg];
    assert es[..|es| - 1] == es[..1];
    assert GroupKeys(es) == [ac, tg];
    assert GroupValues(es, ac) == {"id1_trans1"};
    assert GroupValues(es, tg) == {"id1_trans1"};
    assert GroupNunique(es) == [Group(ac, 1), Group(tg, 1)];
  }

  /** The rows of the sample scenario: two samples, the allele columns left empty. */
  function SampleTestRows(): seq<KeyedRow>
  {
    [KeyedRow("id1_trans1", "sample1", "", ""),
     KeyedRow("id1_trans2", "sample1", "", ""),
     KeyedRow("id2_trans1", "sample2", "", "")]
  }

  /** The two sample keys of the scenario, in ascending order. */
  lemma SampleScenarioKeys()
    ensures GroupKeys(SampleEntries(SampleTestRows())) == [["sample1"], ["sample2"]]
  {
    var s1, s2 := ["sample1"], ["sample2"];
    var es := SampleEntries(SampleTestRows());
    assert es == [Entry(s1, "id1_trans1"), Entry(s1, "id1_trans2"), Entry(s2, "id2_trans1")];
    assert es[..2][..1][..0] == [];
    assert GroupKeys(es[..2][..1]) == [s1];
    assert GroupKeys(es[..2]) == [s1];
    assert !StrLess("sample2", "sample1") by {
      assert "sample2"[1..] == "ample2" && "sample1"[1..] == "ample1";
    }
    assert !KeyLess(s2, s1) && s2 != s1;
    assert Insert([s1], s2) == [s1, s2];
    assert es[..|es| - 1] == es[..2];
  }

  /** The composite ids of each sample of the scenario. */
  lemma SampleScenarioValues()
    ensures GroupValues(SampleEntries(SampleTestRows()), ["sample1"]) == {"id1_trans1", "id1_trans2"}
    ensures GroupValues(SampleEntries(SampleTestRows()), ["sample2"]) == {"id2_trans1"}
  {
    var s1, s2 := ["sample1"], ["sample2"];
    var es := SampleEntries(SampleTestRows());
    assert es == [Entry(s1, "id1_trans1"), Entry(s1, "id1_trans2"), Entry(s2, "id2_trans1")];
    assert s1 != s2 by { assert s1[0][6] != s2[0][6]; }
    assert es[0].value in GroupValues(es, s1) && es[1].value in GroupValues(es, s1);
    assert es[2].value in GroupValues(es, s2);
  }

  /** The grouped table of the scenario: sample1 with two distinct ids, sample2 with one. */
  lemma SampleScenarioGroups()
    ensures GroupNunique(SampleEntries(SampleTestRows())) == [Group(["sample1"], 2), Group(["sample2"], 1)]
  {
    SampleScenarioKeys();
    SampleScenarioValues();
    var gs := GroupNunique(SampleEntries(SampleTestRows()));
    assert |gs| == 2;
    assert gs[0] == Group(["sample1"], 2);
    assert gs[1] == Group(["sample2"], 1);
  }

  /** The first sample has two distinct composite ids, the second one. */
  lemma SampleScenarioCounts()
    ensures SampleCounts(SampleTestRows()) == [SampleCount("sample1", 2), SampleCount("sample2", 1)]
  {
    SampleScenarioGroups();
    var cs := SampleCounts(SampleTestRows());
    assert |cs| == 2;
    assert cs[0] == SampleCount("sample1", 2);
    assert cs[1] == SampleCount("sample2", 1);
  }

  /**
   Two samples, the first with two distinct composite ids and the second with
   one: "Highest" is the first, "Lowest" the second. The allele columns play no
   part here and are left empty.
   */
  lemma SampleExtremesScenario()
    ensures SampleExtremes(SampleTestRows()) == Ok([Extreme("Highest", "sample1", 2), Extreme("Lowest", "sample2", 1)])
  {
    SampleScenarioCounts();
    assert Nuniques(SampleCounts(SampleTestRows())) == [2, 1];
  }
}
