/**
 `frame.groupby(by)[col].nunique().reset_index()` with pandas' defaults: one
 output row per distinct group key, the keys in ascending order (`sort=True`),
 and for each key the number of distinct values of `col` among that key's rows.
 A group key is the tuple of the `by` columns' values.
 */
module Grouping {
  import opened Ordering

  type Key = seq<string>

  /** One input row as the aggregation sees it: its group key and the counted value. */
  datatype Entry = Entry(key: Key, value: string)

  /** One output row: a group key and its number of distinct values. */
  datatype Group = Group(key: Key, nunique: nat)

  /** Some row of `es` belongs to group `k`. */
  ghost predicate HasKey(es: seq<Entry>, k: Key)
  {
    exists i :: 0 <= i < |es| && es[i].key == k
  }

  /** The indices of the rows of group `k`. */
  function GroupRows(es: seq<Entry>, k: Key): set<int>
  {
    set i | 0 <= i < |es| && es[i].key == k
  }

  /** The distinct values among the rows of group `k`. */
  function GroupValues(es: seq<Entry>, k: Key): set<string>
  {
    set i | 0 <= i < |es| && es[i].key == k :: es[i].value
  }

  /** Adds `k` to a strictly ascending key list, keeping it strictly ascending. */
  function Insert(ks: seq<Key>, k: Key): (r: seq<Key>)
    requires StrictlyAscending(ks)
    ensures StrictlyAscending(r)
    ensures forall x :: x in r <==> x in ks || x == k
    ensures |r| <= |ks| + 1
  {
    if ks == [] then [k]
    else if k == ks[0] then ks
    else if KeyLess(k, ks[0]) then
      forall j | 0 <= j < |ks| ensures KeyLess(k, ks[j]) {
        if j > 0 { KeyLessTransitive(k, ks[0], ks[j]); }
      }
      [k] + ks
    else
      KeyLessTotal(k, ks[0]);
      var rest := Insert(ks[1..], k);
      assert forall x :: x in rest ==> KeyLess(ks[0], x);
      [ks[0]] + rest
  }

  /** The distinct group keys of `es`, ascending: the index of the grouped result. */
  function GroupKeys(es: seq<Entry>): (r: seq<Key>)
    ensures StrictlyAscending(r)
    ensures forall k :: k in r <==> HasKey(es, k)
    ensures |r| <= |es|
  {
    if es == [] then []
    else
      var init := es[..|es| - 1];
      assert forall k :: HasKey(init, k) ==> HasKey(es, k) by {
        forall k | HasKey(init, k) ensures HasKey(es, k) {
          var i :| 0 <= i < |init| && init[i].key == k;
          assert es[i].key == k;
        }
      }
      assert forall k :: HasKey(es, k) ==> HasKey(init, k) || k == es[|es| - 1].key by {
        forall k | HasKey(es, k) ensures HasKey(init, k) || k == es[|es| - 1].key {
          var i :| 0 <= i < |es| && es[i].key == k;
          if i < |es| - 1 { assert init[i].key == k; }
        }
      }
      Insert(GroupKeys(init), es[|es| - 1].key)
  }

  /**
   The grouped, counted table: one `Group` per key of `GroupKeys(es)`, in that
   order. There are no more groups than rows, and none exactly when there are no rows.
   */
  function GroupNunique(es: seq<Entry>): (r: seq<Group>)
    ensures |r| <= |es|
    ensures r == [] <==> es == []
  {
    var ks := GroupKeys(es);
    assert es != [] ==> es[0].key in ks by {
      if es != [] { assert HasKey(es, es[0].key); }
    }
    seq(|ks|, i requires 0 <= i < |ks| => Group(ks[i], |GroupValues(es, ks[i])|))
  }

  /** Appending a row adds its index to its own group and to no other. */
  lemma GroupRowsSnoc(es: seq<Entry>, e: Entry, k: Key)
    ensures GroupRows(es + [e], k) == GroupRows(es, k) + (if e.key == k then {|es|} else {})
  {
    var es' := es + [e];
    forall i | i in GroupRows(es', k) ensures i in GroupRows(es, k) + (if e.key == k then {|es|} else {}) {
      if i < |es| { assert es'[i] == es[i]; }
    }
    forall i | i in GroupRows(es, k) ensures i in GroupRows(es', k) {
      assert es'[i] == es[i];
    }
  }

  /** Appending a row adds its value to its own group and to no other. */
  lemma GroupValuesSnoc(es: seq<Entry>, e: Entry, k: Key)
    ensures GroupValues(es + [e], k) == GroupValues(es, k) + (if e.key == k then {e.value} else {})
  {
    var es' := es + [e];
    forall v | v in GroupValues(es', k) ensures v in GroupValues(es, k) + (if e.key == k then {e.value} else {}) {
      var i :| 0 <= i < |es'| && es'[i].key == k && es'[i].value == v;
      if i < |es| { assert es'[i] == es[i]; }
    }
    forall v | v in GroupValues(es, k) ensures v in GroupValues(es', k) {
      var i :| 0 <= i < |es| && es[i].key == k && es[i].value == v;
      assert es'[i] == es[i];
    }
    if e.key == k {
      assert es'[|es|] == e;
    }
  }

  /** A group never has more distinct values than rows. */
  lemma {:induction false} ValuesBound(es: seq<Entry>, k: Key)
    ensures |GroupValues(es, k)| <= |GroupRows(es, k)|
  {
    if es == [] {
      assert GroupValues(es, k) == {};
      assert GroupRows(es, k) == {};
    } else {
      var n := |es| - 1;
      var init, e := es[..n], es[n];
      assert es == init + [e];
      ValuesBound(init, k);
      GroupRowsSnoc(init, e, k);
      GroupValuesSnoc(init, e, k);
      assert n !in GroupRows(init, k);
    }
  }

  /** A group that occurs has at least one distinct value and at most as many as it has rows. */
  lemma NuniqueBounds(es: seq<Entry>, k: Key)
    requires HasKey(es, k)
    ensures 1 <= |GroupValues(es, k)| <= |GroupRows(es, k)|
  {
    var i :| 0 <= i < |es| && es[i].key == k;
    assert es[i].value in GroupValues(es, k);
    ValuesBound(es, k);
  }

  /** Position `i` of the grouped table holds the `i`-th key of `GroupKeys`. */
  lemma GroupNuniqueKeys(es: seq<Entry>)
    ensures |GroupNunique(es)| == |GroupKeys(es)|
    ensures forall i :: 0 <= i < |GroupKeys(es)| ==>
              GroupNunique(es)[i] == Group(GroupKeys(es)[i], |GroupValues(es, GroupKeys(es)[i])|)
  {
  }

  /** The grouped table lists its keys in strictly ascending order, so each key once. */
  lemma GroupNuniqueSorted(es: seq<Entry>)
    ensures forall i, j :: 0 <= i < j < |GroupNunique(es)| ==> KeyLess(GroupNunique(es)[i].key, GroupNunique(es)[j].key)
  {
    GroupNuniqueKeys(es);
  }

  /** A row of the input that carries the key of row `i` of the grouped table. */
  lemma GroupSource(es: seq<Entry>, i: nat) returns (j: nat)
    requires i < |GroupNunique(es)|
    ensures j < |es| && es[j].key == GroupNunique(es)[i].key
  {
    var ks := GroupKeys(es);
    GroupNuniqueKeys(es);
    assert ks[i] in ks;
    j :| 0 <= j < |es| && es[j].key == ks[i];
  }

  /** The row of the grouped table that carries the key of input row `j`. */
  lemma GroupIndex(es: seq<Entry>, j: nat) returns (i: nat)
    requires j < |es|
    ensures i < |GroupNunique(es)| && GroupNunique(es)[i].key == es[j].key
  {
    var ks := GroupKeys(es);
    GroupNuniqueKeys(es);
    assert HasKey(es, es[j].key);
    i :| 0 <= i < |ks| && ks[i] == es[j].key;
  }

  /** The grouped table has a row for the key of every input row, and for no other key. */
  lemma GroupNuniqueCovers(es: seq<Entry>)
    ensures forall i :: 0 <= i < |GroupNunique(es)| ==> HasKey(es, GroupNunique(es)[i].key)
    ensures forall j :: 0 <= j < |es| ==> exists i :: 0 <= i < |GroupNunique(es)| && GroupNunique(es)[i].key == es[j].key
  {
    var r := GroupNunique(es);
    forall i | 0 <= i < |r| ensures HasKey(es, r[i].key) {
      var j := GroupSource(es, i);
    }
    forall j | 0 <= j < |es| ensures exists i :: 0 <= i < |r| && r[i].key == es[j].key {
      var i := GroupIndex(es, j);
    }
  }

  /** Each row of the grouped table counts the distinct values of its group: at least one, at most its rows. */
  lemma GroupNuniqueCounts(es: seq<Entry>)
    ensures forall i :: 0 <= i < |GroupNunique(es)| ==>
              && GroupNunique(es)[i].nunique == |GroupValues(es, GroupNunique(es)[i].key)|
              && 1 <= GroupNunique(es)[i].nunique <= |GroupRows(es, GroupNunique(es)[i].key)|
  {
    var r := GroupNunique(es);
    GroupNuniqueKeys(es);
    forall i | 0 <= i < |r| ensures 1 <= r[i].nunique <= |GroupRows(es, r[i].key)| {
      var j := GroupSource(es, i);
      NuniqueBounds(es, r[i].key);
    }
  }

  /** When every input key has `w` components, so does every key of the grouped table. */
  lemma GroupNuniqueWidth(es: seq<Entry>, w: nat)
    requires forall i :: 0 <= i < |es| ==> |es[i].key| == w
    ensures forall i :: 0 <= i < |GroupNunique(es)| ==> |GroupNunique(es)[i].key| == w
  {
    forall i | 0 <= i < |GroupNunique(es)| ensures |GroupNunique(es)[i].key| == w {
      var j := GroupSource(es, i);
    }
  }
}
