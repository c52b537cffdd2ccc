/**
 * `Array.prototype.sort` with a comparator, which ECMAScript requires to be
 * stable: a stable insertion sort over sequences. `cmp(a, b) <= 0` means that
 * `a` may come before `b`.
 */
module Sorting {

  /** What a consistent comparator gives: a total preorder. */
  ghost predicate TotalPreorder<T(!new)>(cmp: (T, T) -> int) {
    && (forall a, b :: cmp(a, b) <= 0 || cmp(b, a) <= 0)
    && (forall a, b, c {:trigger cmp(a, b), cmp(b, c), cmp(a, c)} ::
         cmp(a, b) <= 0 && cmp(b, c) <= 0 ==> cmp(a, c) <= 0)
  }

  ghost predicate Sorted<T>(cmp: (T, T) -> int, s: seq<T>) {
    forall i, j :: 0 <= i < j < |s| ==> cmp(s[i], s[j]) <= 0
  }

  /** Puts `x` in front of the first element it may precede. */
  function Insert<T>(cmp: (T, T) -> int, x: T, s: seq<T>): (r: seq<T>)
  {
    if s == [] then [x]
    else if cmp(x, s[0]) <= 0 then [x] + s
    else [s[0]] + Insert(cmp, x, s[1..])
  }

  /** Insertion sort: each element goes in front of the first later-sorted element it may precede. */
  function Sort<T>(cmp: (T, T) -> int, s: seq<T>): (r: seq<T>)
  {
    if s == [] then [] else Insert(cmp, s[0], Sort(cmp, s[1..]))
  }

  lemma {:induction false} InsertPermutes<T>(cmp: (T, T) -> int, x: T, s: seq<T>)
    ensures multiset(Insert(cmp, x, s)) == multiset(s) + multiset{x}
  {
    if s != [] && cmp(x, s[0]) > 0 {
      InsertPermutes(cmp, x, s[1..]);
      assert s == [s[0]] + s[1..];
    }
  }

  /** The sort neither loses nor adds elements. */
  lemma {:induction false} SortPermutes<T>(cmp: (T, T) -> int, s: seq<T>)
    ensures multiset(Sort(cmp, s)) == multiset(s)
  {
    if s != [] {
      SortPermutes(cmp, s[1..]);
      InsertPermutes(cmp, s[0], Sort(cmp, s[1..]));
      assert s == [s[0]] + s[1..];
    }
  }

  /** When `x` goes past the head of `s`, the head may precede everything after it. */
  lemma InsertPastHead<T(!new)>(cmp: (T, T) -> int, x: T, s: seq<T>)
    requires TotalPreorder(cmp) && Sorted(cmp, s)
    requires s != [] && cmp(x, s[0]) > 0
    ensures forall y :: y in Insert(cmp, x, s[1..]) ==> cmp(s[0], y) <= 0
  {
    var tail := Insert(cmp, x, s[1..]);
    InsertPermutes(cmp, x, s[1..]);
    forall y | y in tail ensures cmp(s[0], y) <= 0 {
      assert y in multiset(tail);
      if y != x {
        assert y in multiset(s[1..]);
        var m :| 0 <= m < |s[1..]| && s[1..][m] == y;
        assert s[m + 1] == y;
      }
    }
  }

  lemma {:induction false} InsertSorted<T(!new)>(cmp: (T, T) -> int, x: T, s: seq<T>)
    requires TotalPreorder(cmp) && Sorted(cmp, s)
    ensures Sorted(cmp, Insert(cmp, x, s))
  {
    if s == [] {
    } else if cmp(x, s[0]) <= 0 {
      var r := [x] + s;
      forall i, j | 0 <= i < j < |r| ensures cmp(r[i], r[j]) <= 0 {
        if i == 0 && j > 1 {
          assert cmp(x, s[0]) <= 0 && cmp(s[0], s[j - 1]) <= 0 && cmp(x, s[j - 1]) == cmp(r[i], r[j]);
        } else if i > 0 {
          assert r[i] == s[i - 1] && r[j] == s[j - 1];
        }
      }
    } else {
      var tail := Insert(cmp, x, s[1..]);
      assert Sorted(cmp, s[1..]) by {
        forall i, j | 0 <= i < j < |s[1..]| ensures cmp(s[1..][i], s[1..][j]) <= 0 {
          assert s[1..][i] == s[i + 1] && s[1..][j] == s[j + 1];
        }
      }
      InsertSorted(cmp, x, s[1..]);
      InsertPastHead(cmp, x, s);
      var r := [s[0]] + tail;
      forall i, j | 0 <= i < j < |r| ensures cmp(r[i], r[j]) <= 0 {
        if i == 0 {
          assert r[j] in tail;
        } else {
          assert r[i] == tail[i - 1] && r[j] == tail[j - 1];
        }
      }
    }
  }

  /** The sort orders its input. */
  lemma {:induction false} SortSorted<T(!new)>(cmp: (T, T) -> int, s: seq<T>)
    requires TotalPreorder(cmp)
    ensures Sorted(cmp, Sort(cmp, s))
  {
    if s != [] {
      SortSorted(cmp, s[1..]);
      InsertSorted(cmp, s[0], Sort(cmp, s[1..]));
    }
  }

  /** Neither of `a` and `b` sorts strictly before the other. */
  ghost predicate Tied<T>(cmp: (T, T) -> int, a: T, b: T) {
    cmp(a, b) <= 0 && cmp(b, a) <= 0
  }

  /** The elements of `s` tied with `k`, in their order in `s`. */
  ghost function TiedWith<T>(cmp: (T, T) -> int, s: seq<T>, k: T): seq<T> {
    if s == [] then [] else (if Tied(cmp, s[0], k) then [s[0]] else []) + TiedWith(cmp, s[1..], k)
  }

  /** Putting `a` in front adds it to the tied elements exactly when it ties. */
  lemma TiedWithCons<T>(cmp: (T, T) -> int, a: T, s: seq<T>, k: T)
    ensures TiedWith(cmp, [a] + s, k) == (if Tied(cmp, a, k) then [a] else []) + TiedWith(cmp, s, k)
  {
    assert ([a] + s)[1..] == s;
  }

  lemma {:induction false} InsertStable<T(!new)>(cmp: (T, T) -> int, x: T, s: seq<T>, k: T)
    requires TotalPreorder(cmp)
    ensures TiedWith(cmp, Insert(cmp, x, s), k)
            == (if Tied(cmp, x, k) then [x] else []) + TiedWith(cmp, s, k)
  {
    if s == [] || cmp(x, s[0]) <= 0 {
      TiedWithCons(cmp, x, s, k);
    } else {
      var tail := Insert(cmp, x, s[1..]);
      InsertStable(cmp, x, s[1..], k);
      TiedWithCons(cmp, s[0], tail, k);
      TiedWithCons(cmp, s[0], s[1..], k);
      assert [s[0]] + s[1..] == s;
      TiedExclusive(cmp, x, s[0], k);
      if Tied(cmp, x, k) {
        // then `s[0]` does not tie, and `x` heads both sides
        assert TiedWith(cmp, [s[0]] + tail, k) == [] + TiedWith(cmp, tail, k) == TiedWith(cmp, tail, k);
        assert TiedWith(cmp, s, k) == [] + TiedWith(cmp, s[1..], k) == TiedWith(cmp, s[1..], k);
      } else {
        assert TiedWith(cmp, tail, k) == [] + TiedWith(cmp, s[1..], k) == TiedWith(cmp, s[1..], k);
      }
    }
  }

  /** Two elements that are strictly out of order cannot both tie with `k`. */
  lemma TiedExclusive<T(!new)>(cmp: (T, T) -> int, x: T, y: T, k: T)
    requires TotalPreorder(cmp) && cmp(x, y) > 0
    ensures Tied(cmp, x, k) ==> !Tied(cmp, y, k)
  {
  }

  /** Stability: elements that tie keep the order they had in the input. */
  lemma {:induction false} SortStable<T(!new)>(cmp: (T, T) -> int, s: seq<T>, k: T)
    requires TotalPreorder(cmp)
    ensures TiedWith(cmp, Sort(cmp, s), k) == TiedWith(cmp, s, k)
  {
    if s != [] {
      SortStable(cmp, s[1..], k);
      InsertStable(cmp, s[0], Sort(cmp, s[1..]), k);
    }
  }

  /** The first element of a sorted permutation of `s` may precede every element of `s`. */
  lemma SortHeadIsLeast<T(!new)>(cmp: (T, T) -> int, s: seq<T>)
    requires TotalPreorder(cmp) && s != []
    ensures |Sort(cmp, s)| > 0 && Sort(cmp, s)[0] in s
    ensures forall y :: y in s ==> cmp(Sort(cmp, s)[0], y) <= 0
  {
    var r := Sort(cmp, s);
    SortSorted(cmp, s);
    SortPermutes(cmp, s);
    assert r[0] in multiset(s);
    forall y | y in s ensures cmp(r[0], y) <= 0 {
      assert y in multiset(r);
      var m :| 0 <= m < |r| && r[m] == y;
      if m == 0 {
        // totality with both arguments `y` makes the comparator reflexive
        assert cmp(y, y) <= 0;
      }
    }
  }
}
