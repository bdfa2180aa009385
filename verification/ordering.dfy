/**
 The orderings pandas uses when it sorts group keys: Python's `<` on `str`
 (code points compared left to right, a proper prefix first) and Python's
 `<` on tuples of `str` (the first differing component decides, a proper
 prefix first). Both are strict total orders; the lemmas below prove it.
 */
module Ordering {

  /** Python's `a < b` on strings: only different strings are ordered, and a proper prefix sorts first. */
  predicate StrLess(a: string, b: string)
    ensures StrLess(a, b) ==> a != b
    ensures |a| < |b| && a == b[..|a|] ==> StrLess(a, b)
  {
    if a == [] then b != []
    else if b == [] then false
    else if a[0] != b[0] then a[0] < b[0]
    else StrLess(a[1..], b[1..])
  }

  lemma {:induction false} StrLessIrreflexive(a: string)
    ensures !StrLess(a, a)
  {
    if a != [] {
      StrLessIrreflexive(a[1..]);
    }
  }

  lemma {:induction false} StrLessTransitive(a: string, b: string, c: string)
    requires StrLess(a, b) && StrLess(b, c)
    ensures StrLess(a, c)
  {
    if a != [] && a[0] == b[0] && b[0] == c[0] {
      StrLessTransitive(a[1..], b[1..], c[1..]);
    }
  }

  lemma {:induction false} StrLessTotal(a: string, b: string)
    ensures a == b || StrLess(a, b) || StrLess(b, a)
  {
    if a != [] && b != [] && a[0] == b[0] {
      StrLessTotal(a[1..], b[1..]);
      if a[1..] == b[1..] {
        assert a == [a[0]] + a[1..] && b == [b[0]] + b[1..];
      }
    }
  }

  lemma StrLessAsymmetric(a: string, b: string)
    requires StrLess(a, b)
    ensures !StrLess(b, a)
  {
    if StrLess(b, a) {
      StrLessTransitive(a, b, a);
      StrLessIrreflexive(a);
    }
  }

  /**
   Python's `a < b` on tuples of strings, the order of a multi-column group key:
   only different keys are ordered, and a proper prefix sorts first.
   */
  predicate KeyLess(a: seq<string>, b: seq<string>)
    ensures KeyLess(a, b) ==> a != b
    ensures |a| < |b| && a == b[..|a|] ==> KeyLess(a, b)
  {
    if a == [] then b != []
    else if b == [] then false
    else if a[0] != b[0] then StrLess(a[0], b[0])
    else KeyLess(a[1..], b[1..])
  }

  lemma {:induction false} KeyLessIrreflexive(a: seq<string>)
    ensures !KeyLess(a, a)
  {
    if a != [] {
      KeyLessIrreflexive(a[1..]);
    }
  }

  lemma {:induction false} KeyLessTransitive(a: seq<string>, b: seq<string>, c: seq<string>)
    requires KeyLess(a, b) && KeyLess(b, c)
    ensures KeyLess(a, c)
  {
    if a != [] && b != [] && c != [] {
      if a[0] == b[0] && b[0] == c[0] {
        KeyLessTransitive(a[1..], b[1..], c[1..]);
      } else if a[0] != b[0] && b[0] != c[0] {
        StrLessTransitive(a[0], b[0], c[0]);
      }
    }
  }

  lemma {:induction false} KeyLessTotal(a: seq<string>, b: seq<string>)
    ensures a == b || KeyLess(a, b) || KeyLess(b, a)
  {
    if a != [] && b != [] {
      if a[0] == b[0] {
        KeyLessTotal(a[1..], b[1..]);
        if a[1..] == b[1..] {
          assert a == [a[0]] + a[1..] && b == [b[0]] + b[1..];
        }
      } else {
        StrLessTotal(a[0], b[0]);
      }
    }
  }

  lemma KeyLessAsymmetric(a: seq<string>, b: seq<string>)
    requires KeyLess(a, b)
    ensures !KeyLess(b, a)
  {
    if KeyLess(b, a) {
      KeyLessTransitive(a, b, a);
      KeyLessIrreflexive(a);
    }
  }

  /** A one-column key orders as its only component does. */
  lemma KeyLessSingleton(a: string, b: string)
    ensures KeyLess([a], [b]) <==> StrLess(a, b)
  {
    if a == b {
      StrLessIrreflexive(a);
      assert [a][1..] == [];
    }
  }

  /** A two-column key orders lexicographically on its components. */
  lemma KeyLessPair(a0: string, a1: string, b0: string, b1: string)
    ensures KeyLess([a0, a1], [b0, b1]) <==> StrLess(a0, b0) || (a0 == b0 && StrLess(a1, b1))
  {
    assert [a0, a1][1..] == [a1] && [b0, b1][1..] == [b1];
    KeyLessSingleton(a1, b1);
    if a0 == b0 {
      StrLessIrreflexive(a0);
    }
  }

  /** Keys in strictly ascending order: sorted and free of duplicates. */
  ghost predicate StrictlyAscending(ks: seq<seq<string>>)
  {
    forall i, j :: 0 <= i < j < |ks| ==> KeyLess(ks[i], ks[j])
  }
}
