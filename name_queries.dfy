/** The name-based queries every repository declares: findByNome,
    findByNomeContainingIgnoreCase and findAllByOrderByNomeAsc, over a table
    seen as a map from id to name. */
module NameQueries {
  import opened Rows
  import opened Text

  /** No two rows share a name (the uniqueness rule of CURSO and DISCIPLINA). */
  predicate UniqueNames(names: map<Id, string>) {
    forall a, b :: a in names && b in names && names[a] == names[b] ==> a == b
  }

  /** findByNome: the ids whose name is exactly n. */
  function Named(names: map<Id, string>, n: string): (r: set<Id>)
    ensures forall id :: id in r <==> id in names && names[id] == n
  {
    set id | id in names && names[id] == n
  }

  /** findByNome finds something exactly when some row carries that name. */
  lemma NamedNonEmptyIff(names: map<Id, string>, n: string)
    ensures Named(names, n) != {} <==> n in names.Values
  {
    if n in names.Values {
      var id :| id in names && names[id] == n;
      assert id in Named(names, n);
    }
  }

  /** With unique names findByNome yields at most one row, so an Optional result is well defined. */
  lemma NamedAtMostOne(names: map<Id, string>, n: string)
    requires UniqueNames(names)
    ensures |Named(names, n)| <= 1
  {
    var r := Named(names, n);
    if r != {} {
      var x :| x in r;
      assert r == {x};
    }
  }

  /** findByNomeContainingIgnoreCase: the ids whose name contains q, case-folded. */
  function MatchingIgnoreCase(names: map<Id, string>, q: string): (r: set<Id>)
    ensures r <= names.Keys
    ensures forall id :: id in r <==> id in names && ContainsIgnoreCase(names[id], q)
  {
    set id | id in names && ContainsIgnoreCase(names[id], q)
  }

  /** An exact-name match is also found by the substring search. */
  lemma NamedIsMatching(names: map<Id, string>, n: string)
    ensures Named(names, n) <= MatchingIgnoreCase(names, n)
  {
    forall id | id in Named(names, n) ensures id in MatchingIgnoreCase(names, n) {
      ContainsSelf(Lower(n));
    }
  }

  /** The empty search string matches every row. */
  lemma MatchingEmpty(names: map<Id, string>)
    ensures MatchingIgnoreCase(names, []) == names.Keys
  {
    forall id | id in names ensures id in MatchingIgnoreCase(names, []) {
      ContainsEmpty(Lower(names[id]));
    }
  }

  /** Row a is listed before row b: ascending by name; equal names, whose relative
      order the store leaves open, are taken in ascending id order. */
  predicate Before(names: map<Id, string>, a: Id, b: Id)
    requires a in names && b in names
  {
    Less(names[a], names[b]) || (names[a] == names[b] && a < b)
  }

  lemma BeforeAsymmetric(names: map<Id, string>)
    ensures forall a, b :: a in names && b in names && Before(names, a, b) ==> !Before(names, b, a)
  {
    forall a, b | a in names && b in names && Before(names, a, b) ensures !Before(names, b, a) {
      LessAsymmetric(names[a], names[b]);
      LessIrreflexive(names[a]);
    }
  }

  lemma BeforeTransitive(names: map<Id, string>, a: Id, b: Id, c: Id)
    requires a in names && b in names && c in names
    requires Before(names, a, b) && Before(names, b, c)
    ensures Before(names, a, c)
  {
    LessTransitive(names[a], names[b], names[c]);
  }

  lemma BeforeTotal(names: map<Id, string>, a: Id, b: Id)
    requires a in names && b in names
    ensures a == b || Before(names, a, b) || Before(names, b, a)
  {
    LessTotal(names[a], names[b]);
  }

  /** Removing rows does not change the order of the rows that remain. */
  lemma BeforeOnRestriction(names: map<Id, string>, m: Id)
    ensures forall a, b :: a in names - {m} && b in names - {m} ==>
      (Before(names - {m}, a, b) <==> Before(names, a, b))
  {
  }

  /** m comes first among all rows of names. */
  predicate IsFirst(names: map<Id, string>, m: Id) {
    m in names && forall k :: k in names ==> k == m || Before(names, m, k)
  }

  lemma {:induction false} FirstExists(names: map<Id, string>)
    requires names != map[]
    ensures exists m :: IsFirst(names, m)
    decreases names.Keys
  {
    var x :| x in names;
    var rest := names - {x};
    if rest == map[] {
      forall k | k in names ensures k == x {
        assert k !in rest;
      }
      assert IsFirst(names, x);
    } else {
      FirstExists(rest);
      var m :| IsFirst(rest, m);
      BeforeOnRestriction(names, x);
      BeforeTotal(names, x, m);
      if Before(names, x, m) {
        forall k | k in names ensures k == x || Before(names, x, k) {
          if k != x && k != m {
            BeforeTransitive(names, x, m, k);
          }
        }
        assert IsFirst(names, x);
      } else {
        assert IsFirst(names, m);
      }
    }
  }

  /** Two rows cannot both come first. */
  lemma FirstUnique(names: map<Id, string>)
    ensures forall m, n :: IsFirst(names, m) && IsFirst(names, n) ==> m == n
  {
    forall m, n | IsFirst(names, m) && IsFirst(names, n) ensures m == n {
      if m != n {
        assert Before(names, m, n) && Before(names, n, m);
        LessAsymmetric(names[m], names[n]);
        LessIrreflexive(names[m]);
      }
    }
  }

  /** The first row followed by an ordered listing of the others is an ordered listing of all. */
  lemma PrependFirst(names: map<Id, string>, m: Id, t: seq<Id>)
    requires IsFirst(names, m)
    requires |t| == |(names - {m}).Keys|
    requires forall i :: 0 <= i < |t| ==> t[i] in names - {m}
    requires forall id :: id in names - {m} ==> id in t
    requires forall i, j :: 0 <= i < j < |t| ==> Before(names - {m}, t[i], t[j])
    ensures |[m] + t| == |names.Keys|
    ensures forall i :: 0 <= i < |[m] + t| ==> ([m] + t)[i] in names
    ensures forall id :: id in names ==> id in [m] + t
    ensures forall i, j :: 0 <= i < j < |[m] + t| ==> Before(names, ([m] + t)[i], ([m] + t)[j])
  {
    assert (names - {m}).Keys == names.Keys - {m};
    BeforeOnRestriction(names, m);
    var r := [m] + t;
    assert forall i :: 0 < i < |r| ==> r[i] == t[i - 1];
    forall i, j | 0 <= i < j < |r| ensures Before(names, r[i], r[j]) {
      if i > 0 {
        assert Before(names - {m}, t[i - 1], t[j - 1]);
      }
    }
  }

  /** findAllByOrderByNomeAsc: every row exactly once, in ascending name order. */
  function SortedByName(names: map<Id, string>): (r: seq<Id>)
    ensures |r| == |names.Keys|
    ensures forall i :: 0 <= i < |r| ==> r[i] in names
    ensures forall id :: id in names ==> id in r
    ensures forall i, j :: 0 <= i < j < |r| ==> Before(names, r[i], r[j])
    decreases names.Keys
  {
    if names == map[] then []
    else
      FirstExists(names);
      FirstUnique(names);
      var m :| IsFirst(names, m);
      var t := SortedByName(names - {m});
      PrependFirst(names, m, t);
      [m] + t
  }

  /** The listing never repeats a row. */
  lemma SortedByNameDistinct(names: map<Id, string>)
    ensures forall i, j :: 0 <= i < j < |SortedByName(names)| ==> SortedByName(names)[i] != SortedByName(names)[j]
  {
    var r := SortedByName(names);
    forall i, j | 0 <= i < j < |r| ensures r[i] != r[j] {
      LessIrreflexive(names[r[i]]);
    }
  }

  /** The listing is ascending by name (the id tie-break aside). */
  lemma SortedByNameAscending(names: map<Id, string>)
    ensures forall i, j :: 0 <= i < j < |SortedByName(names)| ==>
      !Less(names[SortedByName(names)[j]], names[SortedByName(names)[i]])
  {
    var r := SortedByName(names);
    forall i, j | 0 <= i < j < |r| ensures !Less(names[r[j]], names[r[i]]) {
      LessAsymmetric(names[r[i]], names[r[j]]);
      LessIrreflexive(names[r[i]]);
    }
  }
}
