/**
 * The `sort` object: five primitive comparators that order blocks by
 * descending measure, and four composites that cascade through a list of
 * primitives (`msort`).  The random comparator is not here: a random
 * reordering is a parameter of the search.
 */
module BlockSort {
  import opened Images
  import Sorting

  /** The primitives a composite can name. */
  datatype Criterion = W | H | A | Max | Min

  /** The value a primitive compares: width, height, `getArea()`, longer side, shorter side. */
  function Measure(c: Criterion, b: ImageInfo): int
  {
    match c
    case W => b.w
    case H => b.h
    case A => b.Area()
    case Max => if b.w >= b.h then b.w else b.h
    case Min => if b.w <= b.h then b.w else b.h
  }

  /** `sort.w`, `sort.h`, `sort.a`, `sort.max`, `sort.min`: the measure of `b` minus that of `a`. */
  function Primitive(c: Criterion, a: ImageInfo, b: ImageInfo): int
  {
    Measure(c, b) - Measure(c, a)
  }

  /** `sort.msort`: the first nonzero primitive difference in criteria order, else 0. */
  function Msort(a: ImageInfo, b: ImageInfo, criteria: seq<Criterion>): (r: int)
    ensures r == 0 <==> forall i :: 0 <= i < |criteria| ==> Primitive(criteria[i], a, b) == 0
    ensures r != 0 ==> exists i :: 0 <= i < |criteria| && r == Primitive(criteria[i], a, b)
                        && forall j :: 0 <= j < i ==> Primitive(criteria[j], a, b) == 0
  {
    if criteria == [] then 0
    else
      var diff := Primitive(criteria[0], a, b);
      if diff != 0 then diff
      else
        var r := Msort(a, b, criteria[1..]);
        assert forall i :: 1 <= i < |criteria| ==> criteria[i] == criteria[1..][i - 1];
        if r != 0 then
          var k :| 0 <= k < |criteria[1..]| && r == Primitive(criteria[1..][k], a, b)
                   && forall j :: 0 <= j < k ==> Primitive(criteria[1..][j], a, b) == 0;
          assert forall j :: 0 <= j < k + 1 ==> Primitive(criteria[j], a, b) == 0 by {
            forall j | 0 <= j < k + 1 ensures Primitive(criteria[j], a, b) == 0 {
              if j > 0 { assert criteria[j] == criteria[1..][j - 1]; }
            }
          }
          r
        else r
  }

  /** The loop of `sort.msort`: it returns the first nonzero primitive difference, and 0 after the last criterion. */
  method MultiSort(a: ImageInfo, b: ImageInfo, criteria: seq<Criterion>) returns (diff: int)
    ensures diff == Msort(a, b, criteria)
  {
    var n := 0;
    while n < |criteria|
      invariant 0 <= n <= |criteria|
      invariant Msort(a, b, criteria) == Msort(a, b, criteria[n..])
    {
      diff := Primitive(criteria[n], a, b);
      if diff != 0 {
        return;
      }
      assert criteria[n..][1..] == criteria[n + 1..];
      n := n + 1;
    }
    return 0;
  }

  /** The nine comparators of `sort.baseSorts`. */
  datatype SortKey = Prim(c: Criterion) | Height | Width | AreaKey | MaxSide

  /** The comparator's key in the `sort` object, which is also the label of its attempt. */
  function Name(k: SortKey): string
  {
    match k
    case Prim(W) => "w"
    case Prim(H) => "h"
    case Prim(A) => "a"
    case Prim(Max) => "max"
    case Prim(Min) => "min"
    case Height => "height"
    case Width => "width"
    case AreaKey => "area"
    case MaxSide => "maxside"
  }

  /** The criteria a composite cascades through; a primitive is a cascade of itself. */
  function Criteria(k: SortKey): seq<Criterion>
  {
    match k
    case Prim(c) => [c]
    case Height => [H, W]
    case Width => [W, H]
    case AreaKey => [A, H, W]
    case MaxSide => [Max, Min, H, W]
  }

  function Compare(k: SortKey, a: ImageInfo, b: ImageInfo): int
  {
    match k
    case Prim(c) => Primitive(c, a, b)
    case _ => Msort(a, b, Criteria(k))
  }

  /** The order in which the base sorts are tried. */
  const BaseSorts: seq<SortKey> := [Prim(A), AreaKey, Prim(H), Height, Prim(Max), MaxSide, Prim(Min), Prim(W), Width]

  function CmpOf(k: SortKey): Sorting.Comparator<ImageInfo>
  {
    (a: ImageInfo, b: ImageInfo) => Compare(k, a, b)
  }

  /** Every comparator is a cascade over its criteria. */
  lemma CompareIsCascade(k: SortKey, a: ImageInfo, b: ImageInfo)
    ensures Compare(k, a, b) == Msort(a, b, Criteria(k))
  {
    if k.Prim? {
      assert Criteria(k)[1..] == [];
    }
  }

  lemma {:induction false} MsortAntisymmetric(a: ImageInfo, b: ImageInfo, criteria: seq<Criterion>)
    ensures Msort(b, a, criteria) == -Msort(a, b, criteria)
  {
    if criteria != [] {
      MsortAntisymmetric(a, b, criteria[1..]);
    }
  }

  lemma {:induction false} MsortTransitive(a: ImageInfo, b: ImageInfo, c: ImageInfo, criteria: seq<Criterion>)
    requires Msort(a, b, criteria) <= 0 && Msort(b, c, criteria) <= 0
    ensures Msort(a, c, criteria) <= 0
  {
    if criteria != [] {
      var k := criteria[0];
      assert Primitive(k, a, c) == Primitive(k, a, b) + Primitive(k, b, c);
      if Primitive(k, a, b) == 0 && Primitive(k, b, c) == 0 {
        MsortTransitive(a, b, c, criteria[1..]);
      }
    }
  }

  /** Each of the nine comparators is antisymmetric and transitive, so sorting by it is well defined. */
  lemma CompareConsistent(k: SortKey, s: seq<ImageInfo>)
    ensures Sorting.TotalPreorderOn(CmpOf(k), s)
  {
    forall a, b | a in s && b in s ensures CmpOf(k)(b, a) == -CmpOf(k)(a, b) {
      CompareIsCascade(k, a, b);
      CompareIsCascade(k, b, a);
      MsortAntisymmetric(a, b, Criteria(k));
    }
    forall a, b, c | a in s && b in s && c in s && CmpOf(k)(a, b) <= 0 && CmpOf(k)(b, c) <= 0
      ensures CmpOf(k)(a, c) <= 0
    {
      CompareIsCascade(k, a, b);
      CompareIsCascade(k, b, c);
      CompareIsCascade(k, a, c);
      MsortTransitive(a, b, c, Criteria(k));
    }
  }

  /**
   * After a base sort the list runs in lexicographically descending order
   * of the comparator's criteria: each block comes before every later
   * block whose first differing measure is smaller.
   */
  lemma SortDescending(k: SortKey, s: seq<ImageInfo>, i: int, j: int)
    requires 0 <= i < j < |s|
    ensures var r := Sorting.Sort(s, CmpOf(k));
      Measure(Criteria(k)[0], r[i]) >= Measure(Criteria(k)[0], r[j])
      && (forall n :: 0 <= n < |Criteria(k)| && Measure(Criteria(k)[n], r[i]) < Measure(Criteria(k)[n], r[j])
           ==> exists m :: 0 <= m < n && Measure(Criteria(k)[m], r[i]) > Measure(Criteria(k)[m], r[j]))
  {
    CompareConsistent(k, s);
    Sorting.SortSorted(s, CmpOf(k));
    var r := Sorting.Sort(s, CmpOf(k));
    assert CmpOf(k)(r[i], r[j]) <= 0;
    CompareIsCascade(k, r[i], r[j]);
    CascadeDescending(r[i], r[j], Criteria(k));
  }

  /**
   * Ties keep their order: two blocks equal in every measure of the
   * comparator's criteria stay, after the base sort, in the order they had.
   */
  lemma BaseSortStable(k: SortKey, s: seq<ImageInfo>, i: nat, j: nat)
    requires i < j < |s|
    requires forall n :: 0 <= n < |Criteria(k)| ==> Measure(Criteria(k)[n], s[i]) == Measure(Criteria(k)[n], s[j])
    ensures Sorting.Before(Sorting.Sort(s, CmpOf(k)), s[i], s[j])
  {
    CompareConsistent(k, s);
    TiesCompareEqual(k, s[i], s[j]);
    Sorting.SortStable(s, CmpOf(k), i, j);
  }

  /** Blocks equal in every measure of the comparator's criteria compare equal. */
  lemma TiesCompareEqual(k: SortKey, a: ImageInfo, b: ImageInfo)
    requires forall n :: 0 <= n < |Criteria(k)| ==> Measure(Criteria(k)[n], a) == Measure(Criteria(k)[n], b)
    ensures CmpOf(k)(a, b) == 0
  {
    CompareIsCascade(k, a, b);
    assert forall n :: 0 <= n < |Criteria(k)| ==> Primitive(Criteria(k)[n], a, b) == 0;
  }

  /** A cascade that does not put `b` before `a` has `a`'s first differing measure the larger. */
  lemma CascadeDescending(a: ImageInfo, b: ImageInfo, cs: seq<Criterion>)
    requires cs != [] && Msort(a, b, cs) <= 0
    ensures Measure(cs[0], a) >= Measure(cs[0], b)
    ensures forall n :: 0 <= n < |cs| && Measure(cs[n], a) < Measure(cs[n], b)
                        ==> exists m :: 0 <= m < n && Measure(cs[m], a) > Measure(cs[m], b)
  {
    var d := Msort(a, b, cs);
    forall n | 0 <= n < |cs| && Measure(cs[n], a) < Measure(cs[n], b)
      ensures exists m :: 0 <= m < n && Measure(cs[m], a) > Measure(cs[m], b)
    {
      assert Primitive(cs[n], a, b) != 0;
      var m :| 0 <= m < |cs| && d == Primitive(cs[m], a, b)
               && forall q :: 0 <= q < m ==> Primitive(cs[q], a, b) == 0;
      assert m != n && !(n < m);
    }
    if d != 0 {
      var m :| 0 <= m < |cs| && d == Primitive(cs[m], a, b)
               && forall q :: 0 <= q < m ==> Primitive(cs[q], a, b) == 0;
      if m > 0 {
        assert Primitive(cs[0], a, b) == 0;
      }
    }
  }

  /** `height`: blocks of equal height are ordered by descending width. */
  lemma HeightTieBreak(a: ImageInfo, b: ImageInfo)
    requires a.h == b.h
    ensures Compare(Height, a, b) == b.w - a.w
  {
    MsortLast(a, b, W);
    assert [H, W][1..] == [W];
  }

  /** `area`: blocks of equal area are ordered by descending height, then by descending width. */
  lemma AreaTieBreak(a: ImageInfo, b: ImageInfo)
    requires a.Area() == b.Area()
    ensures Compare(AreaKey, a, b) == if a.h != b.h then b.h - a.h else b.w - a.w
  {
    MsortLast(a, b, W);
    assert [H, W][1..] == [W];
    assert Msort(a, b, [H, W]) == if a.h != b.h then b.h - a.h else b.w - a.w;
    assert [A, H, W][1..] == [H, W];
  }

  lemma MsortLast(a: ImageInfo, b: ImageInfo, c: Criterion)
    ensures Msort(a, b, [c]) == Primitive(c, a, b)
  {
    assert [c][1..] == [];
  }
}
