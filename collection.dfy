/**
 * What one `checkItem` call does to the list of image records, stated on
 * values: every bitmap instance the walk meets is one `Step`, and a call
 * is the `Fold` of its steps over the item's hits.
 */
module Collection {
  import opened Flash
  import opened Wrappers
  import opened Images

  ghost predicate NoDuplicates<T>(s: seq<T>)
  {
    forall i, j :: 0 <= i < j < |s| ==> s[i] != s[j]
  }

  ghost predicate DistinctNames(es: seq<Entry>)
  {
    forall i, j :: 0 <= i < j < |es| ==> es[i].name != es[j].name
  }

  ghost predicate RefsDistinct(es: seq<Entry>)
  {
    forall i :: 0 <= i < |es| ==> NoDuplicates(es[i].refs)
  }

  function Names(es: seq<Entry>): set<string>
  {
    set e | e in es :: e.name
  }

  /** The library names of a list of bitmap instances. */
  function HitNames(hits: seq<Element>): set<string>
  {
    set e | e in hits :: e.libraryItem.name
  }

  /** The position of the first entry called `name`, or `|es|` when there is none. */
  function Find(es: seq<Entry>, name: string): (k: nat)
    ensures k <= |es|
    ensures k < |es| ==> es[k].name == name
    ensures forall i :: 0 <= i < k ==> es[i].name != name
  {
    if es == [] then 0
    else if es[0].name == name then 0
    else 1 + Find(es[1..], name)
  }

  /** `refs` with `item` appended unless it is already there (`indexOf` is -1). */
  function AddRef(refs: seq<FlashItem>, item: FlashItem): seq<FlashItem>
  {
    if item in refs then refs else refs + [item]
  }

  /**
   * One bitmap instance `e` met while walking `item`: the first instance of
   * a name creates a record sized by that instance and holding `item`; a
   * later one only adds `item` to the record's references.
   */
  function Step(es: seq<Entry>, item: FlashItem, e: Element): seq<Entry>
  {
    var name := e.libraryItem.name;
    var k := Find(es, name);
    if k == |es| then es + [Entry(name, e.libraryItem, e.hPixels, e.vPixels, [item], None)]
    else es[k := es[k].(refs := AddRef(es[k].refs, item))]
  }

  function Fold(es: seq<Entry>, item: FlashItem, hits: seq<Element>): seq<Entry>
  {
    if hits == [] then es
    else Step(Fold(es, item, hits[..|hits| - 1]), item, hits[|hits| - 1])
  }

  /** The instance of `name` that comes first in `hits`. */
  function First(hits: seq<Element>, name: string): (e: Element)
    requires name in HitNames(hits)
    ensures e in hits && e.libraryItem.name == name
  {
    var init := hits[..|hits| - 1];
    var last := hits[|hits| - 1];
    assert forall e :: e in hits && e != last ==> e in init;
    if name in HitNames(init) then
      var e := First(init, name);
      assert e in hits;
      e
    else last
  }

  lemma HitNamesSnoc(hits: seq<Element>)
    requires hits != []
    ensures HitNames(hits) == HitNames(hits[..|hits| - 1]) + {hits[|hits| - 1].libraryItem.name}
  {
    assert hits == hits[..|hits| - 1] + [hits[|hits| - 1]];
  }

  lemma {:induction false} StepSpec(es: seq<Entry>, item: FlashItem, e: Element)
    requires DistinctNames(es) && RefsDistinct(es)
    ensures var s := Step(es, item, e); var name := e.libraryItem.name;
      && DistinctNames(s) && RefsDistinct(s)
      && Names(s) == Names(es) + {name}
      && |s| == |es| + (if name in Names(es) then 0 else 1)
      && (forall i :: 0 <= i < |es| ==>
           s[i] == if es[i].name == name then es[i].(refs := AddRef(es[i].refs, item)) else es[i])
      && (name !in Names(es) ==> s[|es|] == Entry(name, e.libraryItem, e.hPixels, e.vPixels, [item], None))
  {
    var name := e.libraryItem.name;
    var k := Find(es, name);
    var s := Step(es, item, e);
    if k == |es| {
      assert name !in Names(es);
      assert forall x :: x in s ==> x in es || x == s[|es|];
      assert Names(s) == Names(es) + {name};
    } else {
      assert name in Names(es);
      var r := es[k].refs;
      assert NoDuplicates(r);
      assert NoDuplicates(AddRef(r, item));
      assert forall x :: x in s ==> x in es || x == s[k];
      forall x | x in es ensures x.name in Names(s) {
        var i :| 0 <= i < |es| && es[i] == x;
        assert s[i].name == x.name;
      }
      assert Names(s) == Names(es) + {name};
    }
  }

  /** A collection pass keeps record names unique and reference lists free of duplicates. */
  lemma {:induction false} FoldInvariants(es: seq<Entry>, item: FlashItem, hits: seq<Element>)
    requires DistinctNames(es) && RefsDistinct(es)
    ensures DistinctNames(Fold(es, item, hits)) && RefsDistinct(Fold(es, item, hits))
    ensures Names(Fold(es, item, hits)) == Names(es) + HitNames(hits)
    ensures |Fold(es, item, hits)| >= |es|
  {
    if hits != [] {
      var init := hits[..|hits| - 1];
      FoldInvariants(es, item, init);
      StepSpec(Fold(es, item, init), item, hits[|hits| - 1]);
      HitNamesSnoc(hits);
    }
  }

  /**
   * A record that existed before the pass keeps its name, library item,
   * size and placement; `item` joins its references, once, exactly when the pass hits its
   * name.
   */
  lemma {:induction false} FoldExisting(es: seq<Entry>, item: FlashItem, hits: seq<Element>, i: int)
    requires DistinctNames(es) && RefsDistinct(es)
    requires 0 <= i < |es|
    ensures i < |Fold(es, item, hits)|
    ensures Fold(es, item, hits)[i] ==
      if es[i].name in HitNames(hits) then es[i].(refs := AddRef(es[i].refs, item)) else es[i]
  {
    FoldInvariants(es, item, hits);
    if hits != [] {
      var init := hits[..|hits| - 1];
      FoldInvariants(es, item, init);
      FoldExisting(es, item, init, i);
      StepSpec(Fold(es, item, init), item, hits[|hits| - 1]);
      HitNamesSnoc(hits);
    }
  }

  /**
   * A record the pass creates is named by a hit not seen before, is sized
   * by the first instance of that name, is referenced by `item` alone, and
   * has no placement.
   */
  lemma {:induction false} FoldNew(es: seq<Entry>, item: FlashItem, hits: seq<Element>, j: int)
    requires DistinctNames(es) && RefsDistinct(es)
    requires |es| <= j < |Fold(es, item, hits)|
    ensures var x := Fold(es, item, hits)[j];
      && x.name in HitNames(hits) && x.name !in Names(es)
      && x.libItem == First(hits, x.name).libraryItem
      && x.w == First(hits, x.name).hPixels && x.h == First(hits, x.name).vPixels
      && x.refs == [item] && x.fit == None
  {
    if hits != [] {
      var init := hits[..|hits| - 1];
      var last := hits[|hits| - 1];
      var before := Fold(es, item, init);
      FoldInvariants(es, item, init);
      StepSpec(before, item, last);
      HitNamesSnoc(hits);
      var x := Fold(es, item, hits)[j];
      if j < |before| {
        FoldNew(es, item, init, j);
        assert HitNames(init) <= HitNames(hits);
      } else {
        assert j == |before| && last.libraryItem.name !in Names(before);
        assert x.name == last.libraryItem.name;
        assert x.name !in HitNames(init);
      }
    }
  }

  /** One step keeps the placements of the records there, and a record it creates has none. */
  lemma StepKeepsPlacements(es: seq<Entry>, item: FlashItem, e: Element)
    ensures |Step(es, item, e)| >= |es|
    ensures forall i :: 0 <= i < |Step(es, item, e)| ==>
      Step(es, item, e)[i].fit == if i < |es| then es[i].fit else None
  {
  }

  /**
   * A collection pass never places a record: the records there before keep
   * their placements, and every record it creates has none.
   */
  lemma {:induction false} FoldKeepsPlacements(es: seq<Entry>, item: FlashItem, hits: seq<Element>)
    ensures |Fold(es, item, hits)| >= |es|
    ensures forall i :: 0 <= i < |Fold(es, item, hits)| ==>
      Fold(es, item, hits)[i].fit == if i < |es| then es[i].fit else None
  {
    if hits != [] {
      var init := hits[..|hits| - 1];
      FoldKeepsPlacements(es, item, init);
      StepKeepsPlacements(Fold(es, item, init), item, hits[|hits| - 1]);
    }
  }

  lemma {:induction false} DistinctNamesCount(es: seq<Entry>)
    requires DistinctNames(es)
    ensures |Names(es)| == |es|
  {
    if es != [] {
      var init := es[..|es| - 1];
      assert es == init + [es[|es| - 1]];
      DistinctNamesCount(init);
      assert Names(es) == Names(init) + {es[|es| - 1].name};
      assert es[|es| - 1].name !in Names(init);
    }
  }

  /** A pass adds one record per hit name not already present, however often it is instanced. */
  lemma CountAfterFold(es: seq<Entry>, item: FlashItem, hits: seq<Element>)
    requires DistinctNames(es) && RefsDistinct(es)
    ensures |Fold(es, item, hits)| == |es| + |HitNames(hits) - Names(es)|
  {
    FoldInvariants(es, item, hits);
    DistinctNamesCount(es);
    DistinctNamesCount(Fold(es, item, hits));
    assert Names(es) + HitNames(hits) == Names(es) + (HitNames(hits) - Names(es));
  }
}
