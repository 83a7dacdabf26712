/** Small helpers shared by the model: an optional value, and the row
    selection (`WHERE`) and `COUNT(*)` that the relational store performs. */
module Basics {

  datatype Option<T> = None | Some(value: T)

  /** The rows of `s` that satisfy `keep`, in table order: a `SELECT ... WHERE`,
      or, with the condition negated, what a `DELETE ... WHERE` leaves behind. */
  function Filter<T(!new)>(s: seq<T>, keep: T -> bool): (r: seq<T>)
    ensures |r| <= |s|
    ensures forall x :: x in r <==> x in s && keep(x)
    ensures forall i :: 0 <= i < |r| ==> keep(r[i])
  {
    if s == [] then []
    else (if keep(s[0]) then [s[0]] else []) + Filter(s[1..], keep)
  }

  /** `SELECT COUNT(*) ... WHERE`: the number of rows satisfying `p`. */
  function Count<T(!new)>(s: seq<T>, p: T -> bool): (n: nat)
    ensures n <= |s|
    ensures n > 0 <==> exists x :: x in s && p(x)
  {
    var r := Filter(s, p);
    assert r != [] ==> r[0] in r;
    |r|
  }

  /** Selection distributes over concatenation of tables. */
  lemma {:induction false} FilterAppend<T(!new)>(s: seq<T>, t: seq<T>, keep: T -> bool)
    ensures Filter(s + t, keep) == Filter(s, keep) + Filter(t, keep)
  {
    if s == [] {
      assert s + t == t;
    } else {
      assert (s + t)[1..] == s[1..] + t;
      FilterAppend(s[1..], t, keep);
    }
  }

  /** A condition that holds of every row selects the whole table. */
  lemma {:induction false} FilterKeepsAll<T(!new)>(s: seq<T>, keep: T -> bool)
    requires forall x :: x in s ==> keep(x)
    ensures Filter(s, keep) == s
  {
    if s != [] {
      FilterKeepsAll(s[1..], keep);
    }
  }

  /** A condition that holds of at most one element of a duplicate-free
      table selects at most one row, and exactly that row when it exists. */
  lemma {:induction false} FilterSingle<T(!new)>(s: seq<T>, keep: T -> bool, x: T)
    requires x in s && keep(x)
    requires forall i, j :: 0 <= i < j < |s| ==> !(keep(s[i]) && keep(s[j]))
    ensures Filter(s, keep) == [x]
  {
    if s[0] == x {
      assert forall y :: y in s[1..] ==> !keep(y) by {
        forall y | y in s[1..] ensures !keep(y) {
          var j :| 0 <= j < |s[1..]| && s[1..][j] == y;
          assert s[j + 1] == y;
        }
      }
      FilterNone(s[1..], keep);
    } else {
      assert !keep(s[0]) by {
        var j :| 0 <= j < |s| && s[j] == x;
        assert j > 0;
      }
      assert x in s[1..];
      FilterSingle(s[1..], keep, x);
    }
  }

  /** A condition that holds of no row selects nothing. */
  lemma {:induction false} FilterNone<T(!new)>(s: seq<T>, keep: T -> bool)
    requires forall x :: x in s ==> !keep(x)
    ensures Filter(s, keep) == []
  {
    if s != [] {
      FilterNone(s[1..], keep);
    }
  }

  /** The rows removed by a `DELETE ... WHERE` and the rows it keeps add up to
      the table: when `g` is the negation of `f` on every row,
      `|Filter(s, f)|` is the number of rows affected by deleting where `f`. */
  lemma {:induction false} FilterComplement<T(!new)>(s: seq<T>, f: T -> bool, g: T -> bool)
    requires forall x :: x in s ==> g(x) == !f(x)
    ensures |Filter(s, f)| + |Filter(s, g)| == |s|
  {
    if s != [] {
      FilterComplement(s[1..], f, g);
    }
  }

  /** `R` holds of every pair of rows in table order. */
  ghost predicate Pairwise<T>(s: seq<T>, R: (T, T) -> bool) {
    forall i, j :: 0 <= i < j < |s| ==> R(s[i], s[j])
  }

  /** A selection keeps the relative order of the rows it keeps, so whatever
      held of every ordered pair still holds. */
  lemma {:induction false} FilterPairwise<T(!new)>(s: seq<T>, keep: T -> bool, R: (T, T) -> bool)
    requires Pairwise(s, R)
    ensures Pairwise(Filter(s, keep), R)
  {
    if s != [] {
      var tail := Filter(s[1..], keep);
      assert Pairwise(s[1..], R) by {
        forall i, j | 0 <= i < j < |s[1..]| ensures R(s[1..][i], s[1..][j]) {
          assert s[1..][i] == s[i + 1] && s[1..][j] == s[j + 1];
        }
      }
      FilterPairwise(s[1..], keep, R);
      if keep(s[0]) {
        var r := [s[0]] + tail;
        forall i, j | 0 <= i < j < |r| ensures R(r[i], r[j]) {
          if i == 0 {
            assert r[j] in s[1..];
            var k :| 0 <= k < |s[1..]| && s[1..][k] == r[j];
            assert s[k + 1] == r[j];
          } else {
            assert r[i] == tail[i - 1] && r[j] == tail[j - 1];
          }
        }
      }
    }
  }

  /** Appending a row related to every earlier row keeps `R` pairwise. */
  lemma AppendPairwise<T>(s: seq<T>, x: T, R: (T, T) -> bool)
    requires Pairwise(s, R)
    requires forall y :: y in s ==> R(y, x)
    ensures Pairwise(s + [x], R)
  {
    var r := s + [x];
    forall i, j | 0 <= i < j < |r| ensures R(r[i], r[j]) {
      if j == |s| {
        assert r[i] in s;
      } else {
        assert r[i] == s[i] && r[j] == s[j];
      }
    }
  }
}
