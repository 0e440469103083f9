/** `sort_workouts`: Python's `sorted(items, key=(date, id), reverse=True)`.
    The result is a permutation of the input, ordered newest first by the
    pair (date, id), and records with equal keys keep their input order
    (Python's sort is stable, also when reversed). */
module Sorting {
  import opened Text
  import opened Records

  /** `(a.date, a.id) < (b.date, b.id)` as Python compares tuples of strings:
      a strict order, so no record is smaller than one with its own key. */
  predicate KeyLess(a: Workout, b: Workout)
    ensures KeyLess(a, b) ==> !SameKey(a, b)
  {
    StrLessIrreflexive(a.date);
    StrLessIrreflexive(a.id);
    StrLess(a.date, b.date) || (a.date == b.date && StrLess(a.id, b.id))
  }

  predicate SameKey(a: Workout, b: Workout) {
    a.date == b.date && a.id == b.id
  }

  lemma KeyLessTransitive(a: Workout, b: Workout, c: Workout)
    requires KeyLess(a, b) && KeyLess(b, c)
    ensures KeyLess(a, c)
  {
    if StrLess(a.date, b.date) && StrLess(b.date, c.date) {
      StrLessTransitive(a.date, b.date, c.date);
    } else if a.date == b.date && b.date == c.date {
      StrLessTransitive(a.id, b.id, c.id);
    }
  }

  lemma KeyTrichotomy(a: Workout, b: Workout)
    ensures SameKey(a, b) || KeyLess(a, b) || KeyLess(b, a)
  {
    StrLessTotal(a.date, b.date);
    StrLessTotal(a.id, b.id);
  }

  lemma KeyLessAsymmetric(a: Workout, b: Workout)
    requires KeyLess(a, b)
    ensures !KeyLess(b, a)
  {
    if KeyLess(b, a) {
      KeyLessTransitive(a, b, a);
    }
  }

  /** "Not smaller than" is transitive too. */
  lemma NotLessTransitive(a: Workout, b: Workout, c: Workout)
    requires !KeyLess(a, b) && !KeyLess(b, c)
    ensures !KeyLess(a, c)
  {
    KeyTrichotomy(a, b);
    if KeyLess(a, c) && KeyLess(b, a) {
      KeyLessTransitive(b, a, c);
    }
  }

  /** Newest first: no record has a smaller key than a later one. */
  predicate Descending(s: seq<Workout>) {
    forall i, j :: 0 <= i < j < |s| ==> !KeyLess(s[i], s[j])
  }

  /** The records of `s` whose key is (date, id), in their order in `s`. */
  function WithKey(s: seq<Workout>, date: string, id: string): seq<Workout> {
    if s == [] then []
    else (if s[0].date == date && s[0].id == id then [s[0]] else []) + WithKey(s[1..], date, id)
  }

  /** Places `x` before the first record whose key is not larger than its
      own, so that `x` precedes the records of equal key already placed. */
  function Insert(x: Workout, s: seq<Workout>): (r: seq<Workout>)
    ensures |r| == |s| + 1
    ensures multiset(r) == multiset(s) + multiset{x}
  {
    if s == [] || !KeyLess(x, s[0]) then [x] + s
    else
      assert s == [s[0]] + s[1..];
      [s[0]] + Insert(x, s[1..])
  }

  /** `sort_workouts(items)`: the same records, with multiplicity. */
  function SortWorkouts(s: seq<Workout>): (r: seq<Workout>)
    ensures |r| == |s|
    ensures multiset(r) == multiset(s)
  {
    if s == [] then []
    else
      assert s == [s[0]] + s[1..];
      Insert(s[0], SortWorkouts(s[1..]))
  }

  lemma {:induction false} InsertKeepsDescending(x: Workout, s: seq<Workout>)
    requires Descending(s)
    ensures Descending(Insert(x, s))
  {
    var r := Insert(x, s);
    if s == [] || !KeyLess(x, s[0]) {
      forall j | 0 < j < |r| ensures !KeyLess(x, r[j]) {
        if j > 1 {
          NotLessTransitive(x, s[0], s[j - 1]);
        }
      }
    } else {
      var t := Insert(x, s[1..]);
      InsertKeepsDescending(x, s[1..]);
      forall j | 0 <= j < |t| ensures !KeyLess(s[0], t[j]) {
        assert t[j] in multiset(t);
        if t[j] == x {
          KeyLessAsymmetric(x, s[0]);
        } else {
          assert t[j] in multiset(s[1..]);
          var k :| 0 <= k < |s[1..]| && s[1..][k] == t[j];
          assert s[k + 1] == t[j];
        }
      }
      assert r == [s[0]] + t;
    }
  }

  lemma {:induction false} InsertStable(x: Workout, s: seq<Workout>, date: string, id: string)
    ensures WithKey(Insert(x, s), date, id)
         == (if x.date == date && x.id == id then [x] else []) + WithKey(s, date, id)
  {
    if s == [] || !KeyLess(x, s[0]) {
      assert ([x] + s)[1..] == s;
    } else {
      var t := Insert(x, s[1..]);
      var hx := if x.date == date && x.id == id then [x] else [];
      var h0 := if s[0].date == date && s[0].id == id then [s[0]] else [];
      InsertStable(x, s[1..], date, id);
      assert ([s[0]] + t)[1..] == t;
      // x sorts strictly after s[0], so at most one of them has the key.
      var rest := WithKey(s[1..], date, id);
      assert WithKey(Insert(x, s), date, id) == h0 + (hx + rest);
      if hx == [] {
        assert hx + rest == rest;
        assert hx + (h0 + rest) == h0 + rest;
      } else {
        assert h0 == [];
        assert h0 + (hx + rest) == hx + rest;
        assert h0 + rest == rest;
      }
    }
  }

  /** The result is ordered newest first by (date, id). */
  lemma {:induction false} SortDescending(s: seq<Workout>)
    ensures Descending(SortWorkouts(s))
  {
    if s != [] {
      SortDescending(s[1..]);
      InsertKeepsDescending(s[0], SortWorkouts(s[1..]));
    }
  }

  /** Records with the same (date, id) keep their input order. */
  lemma {:induction false} SortStable(s: seq<Workout>, date: string, id: string)
    ensures WithKey(SortWorkouts(s), date, id) == WithKey(s, date, id)
  {
    if s != [] {
      SortStable(s[1..], date, id);
      InsertStable(s[0], SortWorkouts(s[1..]), date, id);
    }
  }

}
