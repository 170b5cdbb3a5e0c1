/**
 * The stable comparison sort that `Array.prototype.sort` performs on the
 * block list (with the comparators of the `sort` object) and on the list
 * of packing results (ascending by score).  A comparator follows the
 * JavaScript convention: a negative value puts its first argument first.
 */
module Sorting {

  type Comparator<!T> = (T, T) -> int

  /** Inserts `x` after every element of `s` that `x` does not compare below. */
  function Insert<T>(x: T, s: seq<T>, cmp: Comparator<T>): (r: seq<T>)
    ensures |r| == |s| + 1
    ensures multiset(r) == multiset(s) + multiset{x}
  {
    if s == [] then [x]
    else if cmp(x, s[0]) < 0 then [x] + s
    else
      assert s == [s[0]] + s[1..];
      [s[0]] + Insert(x, s[1..], cmp)
  }

  /** Insertion sort: each element in turn is inserted into the sorted prefix before it. */
  function Sort<T>(s: seq<T>, cmp: Comparator<T>): (r: seq<T>)
    ensures |r| == |s|
    ensures multiset(r) == multiset(s)
  {
    if s == [] then []
    else
      assert s == s[..|s| - 1] + [s[|s| - 1]];
      Insert(s[|s| - 1], Sort(s[..|s| - 1], cmp), cmp)
  }

  /** `cmp` is antisymmetric and its "not after" relation transitive on the elements of `s`. */
  ghost predicate TotalPreorderOn<T>(cmp: Comparator<T>, s: seq<T>)
  {
    && (forall a, b :: a in s && b in s ==> cmp(b, a) == -cmp(a, b))
    && (forall a, b, c :: a in s && b in s && c in s && cmp(a, b) <= 0 && cmp(b, c) <= 0 ==> cmp(a, c) <= 0)
  }

  ghost predicate SortedBy<T>(s: seq<T>, cmp: Comparator<T>)
  {
    forall i, j :: 0 <= i < j < |s| ==> cmp(s[i], s[j]) <= 0
  }

  lemma {:induction false} InsertSorted<T>(x: T, s: seq<T>, cmp: Comparator<T>)
    requires SortedBy(s, cmp)
    requires TotalPreorderOn(cmp, s + [x])
    ensures SortedBy(Insert(x, s, cmp), cmp)
  {
    if s == [] {
    } else if cmp(x, s[0]) < 0 {
      FrontSorted(x, s, cmp);
    } else {
      var t := s[1..];
      assert forall y :: y in t + [x] ==> y in s + [x];
      InsertSorted(x, t, cmp);
      assert x in s + [x] && s[0] in s + [x];
      assert cmp(s[0], x) <= 0;
      HeadSorted(s[0], x, t, cmp);
    }
  }

  /** `x` before a sorted `s` whose head it compares below is sorted. */
  lemma FrontSorted<T>(x: T, s: seq<T>, cmp: Comparator<T>)
    requires s != [] && SortedBy(s, cmp)
    requires TotalPreorderOn(cmp, s + [x])
    requires cmp(x, s[0]) < 0
    ensures SortedBy([x] + s, cmp)
  {
    var r := [x] + s;
    forall i, j | 0 <= i < j < |r| ensures cmp(r[i], r[j]) <= 0 {
      if i == 0 && j > 1 {
        assert x in s + [x] && s[0] in s + [x] && s[j - 1] in s + [x];
      }
    }
  }

  /** Putting `h` before the sorted insertion of `x` into `t` keeps it sorted when `h` is not after `x` nor after any element of `t`. */
  lemma HeadSorted<T>(h: T, x: T, t: seq<T>, cmp: Comparator<T>)
    requires SortedBy(Insert(x, t, cmp), cmp)
    requires cmp(h, x) <= 0
    requires forall y :: y in t ==> cmp(h, y) <= 0
    ensures SortedBy([h] + Insert(x, t, cmp), cmp)
  {
    var ins := Insert(x, t, cmp);
    var r := [h] + ins;
    forall i, j | 0 <= i < j < |r| ensures cmp(r[i], r[j]) <= 0 {
      if i == 0 {
        var y := ins[j - 1];
        assert y in multiset(ins);
        assert y in multiset(t) + multiset{x};
        if y != x {
          assert y in t;
        }
      }
    }
  }

  /** The sort's output is ordered by `cmp` whenever `cmp` is a consistent comparator. */
  lemma {:induction false} SortSorted<T>(s: seq<T>, cmp: Comparator<T>)
    requires TotalPreorderOn(cmp, s)
    ensures SortedBy(Sort(s, cmp), cmp)
  {
    if s != [] {
      var init, x := s[..|s| - 1], s[|s| - 1];
      assert s == init + [x];
      assert forall y :: y in init ==> y in s;
      SortSorted(init, cmp);
      var sorted := Sort(init, cmp);
      forall y | y in sorted + [x] ensures y in s {
        if y != x {
          assert y in multiset(sorted);
        }
      }
      InsertSorted(x, sorted, cmp);
    }
  }

  lemma {:induction false} InsertAfterTies<T>(x: T, s: seq<T>, cmp: Comparator<T>)
    requires forall y :: y in s ==> cmp(x, y) == 0
    ensures Insert(x, s, cmp) == s + [x]
  {
    if s != [] {
      var t := s[1..];
      assert s[0] in s;
      assert forall y :: y in t ==> y in s;
      InsertAfterTies(x, t, cmp);
      assert Insert(x, s, cmp) == [s[0]] + Insert(x, t, cmp);
      assert s + [x] == [s[0]] + (t + [x]);
    }
  }

  /** Stability: when every two elements tie, sorting keeps the given order. */
  lemma {:induction false} SortAllTies<T>(s: seq<T>, cmp: Comparator<T>)
    requires forall a, b :: a in s && b in s ==> cmp(a, b) == 0
    ensures Sort(s, cmp) == s
  {
    if s != [] {
      var init, x := s[..|s| - 1], s[|s| - 1];
      assert s == init + [x];
      assert forall y :: y in init ==> y in s;
      SortAllTies(init, cmp);
      assert x in s;
      InsertAfterTies(x, init, cmp);
    }
  }

  /** `a` occurs in `s` at some position before an occurrence of `b`. */
  ghost predicate Before<T>(s: seq<T>, a: T, b: T)
  {
    exists p, q :: 0 <= p < q < |s| && s[p] == a && s[q] == b
  }

  /** Inserting an element keeps the order of the elements already there. */
  lemma {:induction false} InsertKeepsOrder<T>(x: T, t: seq<T>, cmp: Comparator<T>, p: nat, q: nat)
    requires p < q < |t|
    ensures Before(Insert(x, t, cmp), t[p], t[q])
  {
    var r := Insert(x, t, cmp);
    if cmp(x, t[0]) < 0 {
      assert r[p + 1] == t[p] && r[q + 1] == t[q];
    } else {
      var rest := Insert(x, t[1..], cmp);
      assert r == [t[0]] + rest;
      if p == 0 {
        assert t[q] in multiset(rest) by {
          assert t[q] == t[1..][q - 1];
        }
        var q' :| 0 <= q' < |rest| && rest[q'] == t[q];
        assert r[0] == t[p] && r[q' + 1] == t[q];
      } else {
        InsertKeepsOrder(x, t[1..], cmp, p - 1, q - 1);
        var p', q' :| 0 <= p' < q' < |rest| && rest[p'] == t[p] && rest[q'] == t[q];
        assert r[p' + 1] == t[p] && r[q' + 1] == t[q];
      }
    }
  }

  /** In a sorted list, `x` does not compare below any element up to one it ties with. */
  lemma NotBelowPrefix<T>(x: T, t: seq<T>, cmp: Comparator<T>, p: nat)
    requires p < |t| && SortedBy(t, cmp)
    requires TotalPreorderOn(cmp, t + [x])
    requires cmp(t[p], x) == 0
    ensures forall k :: 0 <= k <= p ==> cmp(x, t[k]) >= 0
  {
    forall k | 0 <= k <= p ensures cmp(x, t[k]) >= 0 {
      assert t[k] in t + [x] && t[p] in t + [x] && x in t + [x];
      assert cmp(t[k], t[k]) == -cmp(t[k], t[k]);
    }
  }

  /** Putting an element in front keeps every order already there. */
  lemma BeforeCons<T>(h: T, rest: seq<T>, a: T, b: T)
    requires Before(rest, a, b)
    ensures Before([h] + rest, a, b)
  {
    var p, q :| 0 <= p < q < |rest| && rest[p] == a && rest[q] == b;
    assert ([h] + rest)[p + 1] == a && ([h] + rest)[q + 1] == b;
  }

  /** The element put in front comes before every element of the rest. */
  lemma BeforeHead<T>(h: T, rest: seq<T>, b: T)
    requires b in rest
    ensures Before([h] + rest, h, b)
  {
    var q :| 0 <= q < |rest| && rest[q] == b;
    assert ([h] + rest)[0] == h && ([h] + rest)[q + 1] == b;
  }

  /** Inserting `x` puts it after `t[p]` when `x` compares below nothing up to `t[p]`. */
  lemma {:induction false} InsertAfterTie<T>(x: T, t: seq<T>, cmp: Comparator<T>, p: nat)
    requires p < |t|
    requires forall k :: 0 <= k <= p ==> cmp(x, t[k]) >= 0
    ensures Before(Insert(x, t, cmp), t[p], x)
  {
    var rest := Insert(x, t[1..], cmp);
    assert cmp(x, t[0]) >= 0;
    assert Insert(x, t, cmp) == [t[0]] + rest;
    if p == 0 {
      assert x in multiset(rest);
      BeforeHead(t[0], rest, x);
    } else {
      assert t[p] == t[1..][p - 1];
      assert forall k :: 0 <= k <= p - 1 ==> t[1..][k] == t[k + 1];
      InsertAfterTie(x, t[1..], cmp, p - 1);
      BeforeCons(t[0], rest, t[p], x);
    }
  }

  /** The sorted list of `init`, followed by `x`, holds only elements of `init + [x]`. */
  lemma SortedThenLast<T>(init: seq<T>, x: T, cmp: Comparator<T>)
    requires TotalPreorderOn(cmp, init + [x])
    ensures SortedBy(Sort(init, cmp), cmp)
    ensures TotalPreorderOn(cmp, Sort(init, cmp) + [x])
  {
    assert forall y :: y in init ==> y in init + [x];
    SortSorted(init, cmp);
    var sorted := Sort(init, cmp);
    forall y | y in sorted + [x] ensures y in init + [x] {
      if y != x {
        assert y in multiset(sorted);
      }
    }
  }

  /** An element appended to a list comes, in the sorted list, after every element of the list it ties with. */
  lemma StableLast<T>(init: seq<T>, x: T, cmp: Comparator<T>, i: nat)
    requires TotalPreorderOn(cmp, init + [x])
    requires i < |init| && cmp(init[i], x) == 0
    ensures Before(Insert(x, Sort(init, cmp), cmp), init[i], x)
  {
    var sorted := Sort(init, cmp);
    assert init[i] in multiset(sorted);
    var p :| 0 <= p < |sorted| && sorted[p] == init[i];
    SortedThenLast(init, x, cmp);
    NotBelowPrefix(x, sorted, cmp, p);
    InsertAfterTie(x, sorted, cmp, p);
  }

  /**
   * Stability: of two elements that tie, the one given first comes first in
   * the sorted list.  With `SortSorted` and the multiset contract this fixes
   * the output of a consistent comparator on a list without repeats.
   */
  lemma {:induction false} SortStable<T>(s: seq<T>, cmp: Comparator<T>, i: nat, j: nat)
    requires TotalPreorderOn(cmp, s)
    requires i < j < |s| && cmp(s[i], s[j]) == 0
    ensures Before(Sort(s, cmp), s[i], s[j])
  {
    var init, x := s[..|s| - 1], s[|s| - 1];
    assert s == init + [x];
    assert Sort(s, cmp) == Insert(x, Sort(init, cmp), cmp);
    assert s[i] == init[i];
    if j == |s| - 1 {
      StableLast(init, x, cmp, i);
    } else {
      assert forall y :: y in init ==> y in s;
      assert s[j] == init[j];
      SortStable(init, cmp, i, j);
      var sorted := Sort(init, cmp);
      var p, q :| 0 <= p < q < |sorted| && sorted[p] == s[i] && sorted[q] == s[j];
      InsertKeepsOrder(x, sorted, cmp, p, q);
    }
  }
}
