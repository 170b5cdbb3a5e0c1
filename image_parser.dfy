/**
 * The image parser: collecting the bitmap records of library items
 * (`checkItem`), and the search for the smallest complete packing
 * (`parse`, `idxHandler`, `doPacking`), each proved against the value-level
 * definitions of modules Collection and Search.
 */
module Parsers {
  import opened Wrappers
  import opened Flash
  import opened Images
  import opened BlockSort
  import opened Collection
  import opened Search
  import Sorting

  class ImageParser {
    /** The records created so far, by library name. */
    var bitmaps: map<string, ImageInfo>

    constructor ()
      ensures bitmaps == map[]
      ensures Consistent([])
    {
      bitmaps := map[];
    }

    /**
     * The dictionary and the list of records it was filled with agree:
     * the dictionary files exactly the names of the records, each record
     * under its own name; no two records share a name, and no record lists
     * an item twice among its references.
     */
    ghost predicate Consistent(blocks: seq<ImageInfo>)
      reads this, blocks
    {
      && Filed(bitmaps, blocks)
      && (forall i :: 0 <= i < |blocks| ==> NoDuplicates(blocks[i].refs))
    }

    /** The lookup of a name agrees with the first record of the list that carries it. */
    lemma LookupAgrees(blocks: seq<ImageInfo>, name: string)
      requires Consistent(blocks)
      ensures var k := Find(View(blocks), name);
        && (name in bitmaps <==> k < |blocks|)
        && (k < |blocks| ==> bitmaps[name] == blocks[k])
    {
      var es := View(blocks);
      var k := Find(es, name);
      if k == |blocks| {
        assert forall b :: b in blocks ==> b.name != name by {
          forall b | b in blocks ensures b.name != name {
            var i :| 0 <= i < |blocks| && blocks[i] == b;
            assert es[i].name == b.name;
          }
        }
      } else {
        assert es[k].name == blocks[k].name;
      }
    }

    /**
     * One bitmap instance `ele` met while walking `item`: the record of its
     * library name is created and appended when there is none yet, and
     * `item` joins that record's references unless it is already there.
     */
    method Visit(item: FlashItem, ele: Element, blocks: seq<ImageInfo>) returns (nb: seq<ImageInfo>)
      requires Consistent(blocks)
      modifies this, blocks
      ensures Consistent(nb)
      ensures View(nb) == Step(old(View(blocks)), item, ele)
      ensures |blocks| <= |nb| <= |blocks| + 1 && nb[..|blocks|] == blocks
      ensures forall x :: x in nb ==> x in blocks || fresh(x)
    {
      ghost var es := View(blocks);
      var iii: ImageInfo;
      ghost var k: nat;
      iii, nb, k := FindOrCreate(ele, blocks);
      ghost var mid := View(nb);
      AddReference(item, iii, nb, k);
      assert View(nb) == Step(es, item, ele) by {
        StepByParts(es, item, ele, k, mid, View(nb));
      }
    }

    /**
     * The first half of a visit: the record filed under the instance's
     * library name, or a new one sized by the instance, filed under that
     * name and appended to the list.  `k` is the record's position.
     */
    method FindOrCreate(ele: Element, blocks: seq<ImageInfo>) returns (iii: ImageInfo, nb: seq<ImageInfo>, ghost k: nat)
      requires Consistent(blocks)
      modifies this
      ensures Consistent(nb)
      ensures k == Find(old(View(blocks)), ele.libraryItem.name) && k < |nb| && nb[k] == iii
      ensures |blocks| <= |nb| <= |blocks| + 1 && nb[..|blocks|] == blocks
      ensures forall x :: x in nb ==> x in blocks || fresh(x)
      ensures View(nb) == if k < |blocks| then old(View(blocks))
        else old(View(blocks)) + [Entry(ele.libraryItem.name, ele.libraryItem, ele.hPixels, ele.vPixels, [], None)]
    {
      LookupAgrees(blocks, ele.libraryItem.name);
      k := Find(View(blocks), ele.libraryItem.name);
      var bname := ele.libraryItem.name;
      if bname in bitmaps {
        iii := bitmaps[bname];
        nb := blocks;
      } else {
        iii, nb := Create(ele, blocks);
      }
    }

    /** A new record sized by the instance, filed under its library name and appended to the list. */
    method Create(ele: Element, blocks: seq<ImageInfo>) returns (iii: ImageInfo, nb: seq<ImageInfo>)
      requires Consistent(blocks) && ele.libraryItem.name !in bitmaps
      modifies this
      ensures Consistent(nb)
      ensures nb == blocks + [iii] && fresh(iii)
      ensures bitmaps == old(bitmaps)[ele.libraryItem.name := iii]
      ensures View(nb) == old(View(blocks)) + [Entry(ele.libraryItem.name, ele.libraryItem, ele.hPixels, ele.vPixels, [], None)]
    {
      var bItem := ele.libraryItem;
      iii := new ImageInfo(bItem.name, bItem, ele.hPixels, ele.vPixels);
      bitmaps := bitmaps[bItem.name := iii];
      nb := blocks + [iii];
      ViewSnoc(blocks, iii);
      FiledAfter(old(bitmaps), blocks, iii, bitmaps, nb);
    }

    /** The second half of a visit: `item` is appended to the record's references unless it is already there. */
    method AddReference(item: FlashItem, iii: ImageInfo, nb: seq<ImageInfo>, ghost k: nat)
      requires k < |nb| && nb[k] == iii && Consistent(nb)
      modifies iii
      ensures Consistent(nb)
      ensures View(nb) == old(View(nb))[k := old(View(nb))[k].(refs := AddRef(old(iii.refs), item))]
    {
      ghost var m := bitmaps;
      ghost var refs0 := iii.refs;
      if item !in iii.refs {
        iii.refs := iii.refs + [item];
      }
      forall i | 0 <= i < |nb| && i != k ensures nb[i] != iii {
        assert nb[i].name != nb[k].name;
      }
      assert NoDuplicates(iii.refs) by {
        assert NoDuplicates(refs0);
      }
    }

    /**
     * `checkItem`: walks the normal layers of the item's timeline, their
     * keyframes and the elements on them, and visits every bitmap instance.
     * The result is the collection pass over exactly those instances.  An
     * item without a timeline is refused and nothing changes.
     */
    method CheckItem(item: FlashItem, blocks: seq<ImageInfo>) returns (ok: bool, nb: seq<ImageInfo>)
      requires Consistent(blocks)
      modifies this, blocks
      ensures ok <==> item.timeline.Some?
      ensures !ok ==> nb == blocks && bitmaps == old(bitmaps) && View(nb) == old(View(blocks))
      ensures Consistent(nb)
      ensures ok ==> View(nb) == Fold(old(View(blocks)), item, LayerHits(item.timeline.value.layers))
      ensures |nb| >= |blocks| && nb[..|blocks|] == blocks
      ensures forall x :: x in nb ==> x in blocks || fresh(x)
      ensures forall i :: 0 <= i < |nb| ==> nb[i].fit == if i < |blocks| then old(blocks[i].fit) else None
    {
      if item.timeline.None? {
        return false, blocks;
      }
      ok := true;
      ghost var es := View(blocks);
      nb := VisitLayers(item, item.timeline.value.layers, blocks);
      FoldKeepsPlacements(es, item, LayerHits(item.timeline.value.layers));
      assert forall i :: 0 <= i < |nb| ==> nb[i].fit == View(nb)[i].fit;
    }

    /** The layer loop of `checkItem`: only normal layers are walked. */
    method VisitLayers(item: FlashItem, layers: seq<Layer>, blocks: seq<ImageInfo>) returns (nb: seq<ImageInfo>)
      requires Consistent(blocks)
      modifies this, blocks
      ensures Consistent(nb)
      ensures View(nb) == Fold(old(View(blocks)), item, LayerHits(layers))
      ensures |nb| >= |blocks| && nb[..|blocks|] == blocks
      ensures forall x :: x in nb ==> x in blocks || fresh(x)
    {
      nb := blocks;
      ghost var es := View(blocks);
      ghost var hs: seq<Element> := [];
      var li := 0;
      while li < |layers|
        invariant 0 <= li <= |layers|
        invariant hs == LayerHits(layers[..li])
        invariant Consistent(nb)
        invariant View(nb) == Fold(es, item, hs)
        invariant |nb| >= |blocks| && nb[..|blocks|] == blocks
        invariant forall x :: x in nb ==> x in blocks || fresh(x)
      {
        var layer := layers[li];
        LayerHitsSnoc(layers, li);
        if !IsNormal(layer) {
          li := li + 1;
          continue;
        }
        ghost var before := nb;
        ghost var hit := FrameHits(layer.frames);
        nb := VisitFrames(item, layer.frames, nb);
        Extended(blocks, before, nb);
        FoldAppend(es, item, hs, hit);
        hs := hs + hit;
        li := li + 1;
      }
      assert layers[..|layers|] == layers;
    }

    /** The frame loop of `checkItem` over one normal layer: only keyframes are walked. */
    method VisitFrames(item: FlashItem, frames: seq<Frame>, blocks: seq<ImageInfo>) returns (nb: seq<ImageInfo>)
      requires Consistent(blocks)
      modifies this, blocks
      ensures Consistent(nb)
      ensures View(nb) == Fold(old(View(blocks)), item, FrameHits(frames))
      ensures |nb| >= |blocks| && nb[..|blocks|] == blocks
      ensures forall x :: x in nb ==> x in blocks || fresh(x)
    {
      nb := blocks;
      ghost var es := View(blocks);
      ghost var hs: seq<Element> := [];
      var fi := 0;
      while fi < |frames|
        invariant 0 <= fi <= |frames|
        invariant hs == FrameHits(frames[..fi])
        invariant Consistent(nb)
        invariant View(nb) == Fold(es, item, hs)
        invariant |nb| >= |blocks| && nb[..|blocks|] == blocks
        invariant forall x :: x in nb ==> x in blocks || fresh(x)
      {
        var frame := frames[fi];
        FrameHitsSnoc(frames, fi);
        if frame.startFrame != fi {
          fi := fi + 1;
          continue;
        }
        ghost var before := nb;
        ghost var hit := ElementHits(frame.elements);
        nb := VisitElements(item, frame.elements, nb);
        Extended(blocks, before, nb);
        FoldAppend(es, item, hs, hit);
        hs := hs + hit;
        fi := fi + 1;
      }
      assert frames[..|frames|] == frames;
    }

    /** The element loop of `checkItem` over one keyframe: only bitmap instances are visited. */
    method VisitElements(item: FlashItem, elements: seq<Element>, blocks: seq<ImageInfo>) returns (nb: seq<ImageInfo>)
      requires Consistent(blocks)
      modifies this, blocks
      ensures Consistent(nb)
      ensures View(nb) == Fold(old(View(blocks)), item, ElementHits(elements))
      ensures |nb| >= |blocks| && nb[..|blocks|] == blocks
      ensures forall x :: x in nb ==> x in blocks || fresh(x)
    {
      nb := blocks;
      ghost var es := View(blocks);
      ghost var hs: seq<Element> := [];
      var ei := 0;
      while ei < |elements|
        invariant 0 <= ei <= |elements|
        invariant hs == ElementHits(elements[..ei])
        invariant Consistent(nb)
        invariant View(nb) == Fold(es, item, hs)
        invariant |nb| >= |blocks| && nb[..|blocks|] == blocks
        invariant forall x :: x in nb ==> x in blocks || fresh(x)
      {
        var ele := elements[ei];
        ElementHitsSnoc(elements, ei);
        if ele.elementType == "instance" {
          if ele.instanceType == "bitmap" {
            ghost var before := nb;
            nb := Visit(item, ele, nb);
            Extended(blocks, before, nb);
            FoldSnoc(es, item, hs, ele);
            hs := hs + [ele];
          }
        }
        ei := ei + 1;
      }
      assert elements[..|elements|] == elements;
    }

    /**
     * `idxHandler`: a new list holding the records from position `idx` on,
     * followed by those before it.
     */
    method IdxHandler(idx: nat, blocks: seq<ImageInfo>) returns (nb: seq<ImageInfo>)
      requires idx <= |blocks|
      ensures nb == RotationOf(blocks, idx)
    {
      nb := [];
      var ii := idx;
      while ii < |blocks|
        invariant idx <= ii <= |blocks|
        invariant nb == blocks[idx..ii]
      {
        nb := nb + [blocks[ii]];
        ii := ii + 1;
      }
      var ni := 0;
      while ni < idx
        invariant 0 <= ni <= idx
        invariant nb == blocks[idx..] + blocks[..ni]
      {
        nb := nb + [blocks[ni]];
        ni := ni + 1;
      }
      RotationSplit(blocks, idx);
    }

    /**
     * `packer.fit(bs)`: the packer's decision for each position is written
     * onto the record there; a record it does not place keeps its placement.
     */
    method PackerFit(packer: Packer, bs: seq<ImageInfo>)
      modifies bs
      ensures FitsOf(bs) == Pack(packer, bs, old(FitsOf(bs)))
      ensures forall b :: b in bs ==> b.refs == old(b.refs)
    {
      var decisions := packer(bs);
      var i := 0;
      while i < |bs|
        invariant 0 <= i <= |bs|
        invariant forall b :: b in bs ==> b.fit == Decided(packer, bs, b, i, old(b.fit))
        invariant forall b :: b in bs ==> b.refs == old(b.refs)
      {
        if i < |decisions| && decisions[i].Some? {
          bs[i].fit := decisions[i];
        }
        i := i + 1;
      }
    }

    /**
     * `doPacking`: the packer places the records, then the records are
     * scanned in order; the first one without a placement abandons the
     * attempt, and otherwise a result holding every record, scored by the
     * sum of their areas, is appended.
     */
    method DoPacking(bs: seq<ImageInfo>, key: string, packer: Packer, results: seq<Result>) returns (res: seq<Result>)
      modifies bs
      ensures FitsOf(bs) == Pack(packer, bs, old(FitsOf(bs)))
      ensures res == results + Outcome(key, bs, FitsOf(bs))
      ensures forall b :: b in bs ==> b.refs == old(b.refs)
    {
      PackerFit(packer, bs);
      res := Score(bs, key, results);
    }

    /**
     * The scan of `doPacking`: the first record without a placement
     * abandons the attempt; otherwise the clones and the summed areas make
     * one new result.
     */
    method Score(bs: seq<ImageInfo>, key: string, results: seq<Result>) returns (res: seq<Result>)
      ensures res == results + Outcome(key, bs, FitsOf(bs))
    {
      var placed: seq<Placed> := [];
      var fit := 0;
      var noFit := false;
      var n := 0;
      while n < |bs|
        invariant 0 <= n <= |bs|
        invariant AllPlaced(bs[..n], FitsOf(bs))
        invariant placed == Clones(bs[..n], FitsOf(bs))
        invariant fit == SumArea(bs[..n])
      {
        var block := bs[n];
        assert bs[..n + 1][..n] == bs[..n];
        if block.fit.Some? {
          placed := placed + [Placed(block, block.fit.value)];
          fit := fit + block.Area();
        } else {
          noFit := true;
          break;
        }
        n := n + 1;
      }
      if noFit {
        assert !AllPlaced(bs, FitsOf(bs));
        res := results;
      } else {
        assert bs[..n] == bs;
        res := results + [Result(key, placed, fit)];
      }
    }

    /** `blocks.sort(sort[key])`, the array reordered as the stable sort orders it. */
    method SortBlocks(blocks: array<ImageInfo>, k: SortKey)
      modifies blocks
      ensures blocks[..] == Sorting.Sort(old(blocks[..]), CmpOf(k))
    {
      var sorted := Sorting.Sort(blocks[..], CmpOf(k));
      forall i | 0 <= i < blocks.Length {
        blocks[i] := sorted[i];
      }
    }

    /** `blocks.sort(sort.random)`, with the reordering given by the draws. */
    method ShuffleBlocks(blocks: array<ImageInfo>, draws: seq<nat>)
      modifies blocks
      ensures blocks[..] == ShuffleOf(old(blocks[..]), draws)
    {
      var shuffled := ShuffleOf(blocks[..], draws);
      forall i | 0 <= i < blocks.Length {
        blocks[i] := shuffled[i];
      }
    }

    /** The reordering of an attempt that rearranges the block list itself. */
    method Rearrange(blocks: array<ImageInfo>, s: Strategy)
      requires !s.Rotation?
      modifies blocks
      ensures blocks[..] == Candidate(old(blocks[..]), s)
    {
      if s.BaseSort? {
        SortBlocks(blocks, s.key);
      } else {
        ShuffleBlocks(blocks, s.draws);
      }
    }

    /**
     * One attempt of `parse` that rearranges the block list itself: the list
     * is sorted by a base comparator or reordered by the draws, and then
     * packed and scored as `doPacking` does.
     */
    method ReorderAndPack(packer: Packer, blocks: array<ImageInfo>, s: Strategy, ghost u0: seq<ImageInfo>,
                          results: seq<Result>) returns (res: seq<Result>)
      requires !s.Rotation?
      requires multiset(blocks[..]) == multiset(u0)
      modifies blocks, u0
      ensures multiset(blocks[..]) == multiset(u0)
      ensures SearchState(blocks[..], FitsOf(blocks[..]), res)
           == Attempted(packer, SearchState(old(blocks[..]), old(FitsOf(blocks[..])), results), s)
      ensures forall b :: b in u0 ==> b.refs == old(b.refs)
    {
      ghost var mid := blocks[..];
      ghost var fits0 := FitsOf(mid);
      Rearrange(blocks, s);
      var order := blocks[..];
      CandidatePermutation(mid, s);
      FitsOfSameRecords(order, mid);
      SameMembers(order, u0);
      assert FitsOf(mid) == fits0;
      assert order == Candidate(mid, s);
      res := DoPacking(order, Label(s), packer, results);
      assert blocks[..] == order;
      SameMembers(u0, order);
      Reordered(packer, SearchState(mid, fits0, results), s, order, FitsOf(order), res);
    }

    /**
     * `parse`: every rotation of the block list, then the nine base sorts
     * applied to the list in turn, then twenty random reorderings of it,
     * each packed and scored; the result chosen is the first of the lowest
     * score.  The block list and the placements end as the search leaves
     * them, and `chosen` is `None` when no attempt placed every block.
     */
    method Parse(packer: Packer, blocks: array<ImageInfo>, shuffles: seq<seq<nat>>) returns (chosen: Option<Result>)
      requires |shuffles| == RandomRounds
      modifies blocks, blocks[..]
      ensures var fin := Run(packer, SearchState(old(blocks[..]), old(FitsOf(blocks[..])), []), Plan(blocks.Length, shuffles));
        && blocks[..] == fin.blocks
        && FitsOf(blocks[..]) == fin.fits
        && chosen == Select(fin.results)
      ensures forall b :: b in old(blocks[..]) ==> b.refs == old(b.refs)
    {
      ghost var u0 := blocks[..];
      ghost var st0 := SearchState(u0, FitsOf(u0), []);
      ghost var rotations := Rotations(blocks.Length);
      var sorts, randoms := Sorts(), Shuffles(shuffles);
      var results := Rotate(packer, blocks, []);
      ghost var st1 := SearchState(blocks[..], FitsOf(blocks[..]), results);
      results := Reorder(packer, blocks, sorts, u0, results);
      ghost var st2 := SearchState(blocks[..], FitsOf(blocks[..]), results);
      results := Reorder(packer, blocks, randoms, u0, results);
      assert SearchState(blocks[..], FitsOf(blocks[..]), results) == Run(packer, st2, randoms);
      RunAppend(packer, st0, rotations, sorts);
      RunAppend(packer, st0, rotations + sorts, randoms);
      var sorted := Sorting.Sort(results, ByFit());
      if |sorted| == 0 {
        chosen := None;
      } else {
        chosen := Some(sorted[0]);
      }
    }

    /**
     * The first phase of `parse`: every rotation of the block list is
     * packed and scored in turn; the block list itself keeps its order.
     */
    method Rotate(packer: Packer, blocks: array<ImageInfo>, results: seq<Result>) returns (res: seq<Result>)
      modifies blocks[..]
      ensures blocks[..] == old(blocks[..])
      ensures SearchState(blocks[..], FitsOf(blocks[..]), res)
           == Run(packer, SearchState(old(blocks[..]), old(FitsOf(blocks[..])), results), Rotations(blocks.Length))
      ensures forall b :: b in old(blocks[..]) ==> b.refs == old(b.refs)
    {
      ghost var u0 := blocks[..];
      ghost var st0 := SearchState(u0, FitsOf(u0), results);
      var len := blocks.Length;
      ghost var plan := Rotations(len);
      res := results;
      assert plan[..0] == [];
      var ki := 0;
      while ki < len
        invariant 0 <= ki <= len
        invariant SearchState(blocks[..], FitsOf(blocks[..]), res) == Run(packer, st0, plan[..ki])
        invariant blocks[..] == u0
        invariant forall b :: b in u0 ==> b.refs == old(b.refs)
      {
        ghost var fits0, results0 := FitsOf(u0), res;
        var nb := IdxHandler(ki, blocks[..]);
        RotationPermutation(u0, ki);
        FitsOfSameRecords(nb, u0);
        SameMembers(nb, u0);
        res := DoPacking(nb, "areaI" + DecimalString(ki), packer, res);
        FitsOfSameRecords(nb, u0);
        AttemptStep(packer, st0, plan, ki, u0, fits0, results0, nb, FitsOf(u0), res, u0);
        ki := ki + 1;
      }
      assert plan[..len] == plan;
    }

    /**
     * The second and third phases of `parse`: each attempt of `plan` sorts
     * or reorders the block list in place, starting from the order the
     * previous attempt left, then packs and scores it.
     */
    method Reorder(packer: Packer, blocks: array<ImageInfo>, plan: seq<Strategy>, ghost u0: seq<ImageInfo>,
                   results: seq<Result>) returns (res: seq<Result>)
      requires forall i :: 0 <= i < |plan| ==> !plan[i].Rotation?
      requires multiset(blocks[..]) == multiset(u0)
      modifies blocks, u0
      ensures multiset(blocks[..]) == multiset(u0)
      ensures SearchState(blocks[..], FitsOf(blocks[..]), res)
           == Run(packer, SearchState(old(blocks[..]), old(FitsOf(blocks[..])), results), plan)
      ensures forall b :: b in u0 ==> b.refs == old(b.refs)
    {
      ghost var st0 := SearchState(blocks[..], FitsOf(blocks[..]), results);
      res := results;
      assert plan[..0] == [];
      var i := 0;
      while i < |plan|
        invariant 0 <= i <= |plan|
        invariant SearchState(blocks[..], FitsOf(blocks[..]), res) == Run(packer, st0, plan[..i])
        invariant multiset(blocks[..]) == multiset(u0)
        invariant forall b :: b in u0 ==> b.refs == old(b.refs)
      {
        RunSnoc(packer, st0, plan, i);
        res := ReorderAndPack(packer, blocks, plan[i], u0, res);
        i := i + 1;
      }
      assert plan[..|plan|] == plan;
    }
  }

  /** The attempt at position `j` of the plan, given the state after the attempts before it. */
  lemma AttemptStep(packer: Packer, st0: SearchState, plan: seq<Strategy>, j: nat,
                    cur: seq<ImageInfo>, fits: Fits, results: seq<Result>,
                    order: seq<ImageInfo>, fits': Fits, results': seq<Result>, cur': seq<ImageInfo>)
    requires j < |plan|
    requires SearchState(cur, fits, results) == Run(packer, st0, plan[..j])
    requires order == Candidate(cur, plan[j])
    requires fits' == Pack(packer, order, fits)
    requires results' == results + Outcome(Label(plan[j]), order, fits')
    requires cur' == if plan[j].Rotation? then cur else order
    ensures SearchState(cur', fits', results') == Run(packer, st0, plan[..j + 1])
  {
    RunSnoc(packer, st0, plan, j);
  }

  /** An attempt that rearranges the block list leaves it in the order it packed. */
  lemma Reordered(packer: Packer, st: SearchState, s: Strategy,
                  order: seq<ImageInfo>, fits': Fits, results': seq<Result>)
    requires !s.Rotation?
    requires order == Candidate(st.blocks, s)
    requires fits' == Pack(packer, order, st.fits)
    requires results' == st.results + Outcome(Label(s), order, fits')
    ensures SearchState(order, fits', results') == Attempted(packer, st, s)
  {
  }

  /** Two lists holding the same records have the same members. */
  lemma SameMembers(a: seq<ImageInfo>, b: seq<ImageInfo>)
    requires multiset(a) == multiset(b)
    ensures forall j :: 0 <= j < |a| ==> a[j] in b
  {
    forall j | 0 <= j < |a| ensures a[j] in b {
      assert a[j] in multiset(a);
    }
  }

  lemma {:induction false} FoldAppend(es: seq<Entry>, item: FlashItem, a: seq<Element>, b: seq<Element>)
    ensures Fold(es, item, a + b) == Fold(Fold(es, item, a), item, b)
  {
    if b != [] {
      var bi := b[..|b| - 1];
      assert (a + b)[..|a + b| - 1] == a + bi;
      assert (a + b)[|a + b| - 1] == b[|b| - 1];
      FoldAppend(es, item, a, bi);
    } else {
      assert a + b == a;
    }
  }

  /**
   * The dictionary `m` files exactly the names of `blocks`, each record
   * under its own name, and no two records share a name.
   */
  ghost predicate Filed(m: map<string, ImageInfo>, blocks: seq<ImageInfo>)
  {
    && m.Keys == NamesOf(blocks)
    && (forall i :: 0 <= i < |blocks| ==> blocks[i].name in m && m[blocks[i].name] == blocks[i])
    && UniqueNames(blocks)
  }

  /** Filing a new record under a name not yet filed, or no change at all, keeps the dictionary and the list in step. */
  lemma FiledAfter(before: map<string, ImageInfo>, blocks: seq<ImageInfo>, iii: ImageInfo,
                   after: map<string, ImageInfo>, nb: seq<ImageInfo>)
    requires Filed(before, blocks)
    requires (after == before && nb == blocks)
          || (iii.name !in before && after == before[iii.name := iii] && nb == blocks + [iii])
    ensures Filed(after, nb)
  {
    if nb != blocks {
      NamesOfSnoc(blocks, iii);
      forall i | 0 <= i < |blocks| ensures nb[i] == blocks[i] && blocks[i].name != iii.name {
        assert blocks[i] in blocks;
      }
    }
  }

  lemma NamesOfSnoc(blocks: seq<ImageInfo>, b: ImageInfo)
    ensures NamesOf(blocks + [b]) == NamesOf(blocks) + {b.name}
  {
    assert forall x :: x in blocks + [b] <==> x in blocks || x == b;
  }

  /** No two records of the list share a name. */
  ghost predicate UniqueNames(blocks: seq<ImageInfo>)
  {
    forall i, j :: 0 <= i < j < |blocks| ==> blocks[i].name != blocks[j].name
  }

  /** The names of the records of a list. */
  ghost function NamesOf(blocks: seq<ImageInfo>): set<string>
  {
    set b | b in blocks :: b.name
  }

  /** The entries of a list have the names of its records, and are distinct by name when the records are. */
  lemma ViewFacts(blocks: seq<ImageInfo>)
    ensures Names(View(blocks)) == NamesOf(blocks)
    ensures DistinctNames(View(blocks)) <==> UniqueNames(blocks)
    ensures RefsDistinct(View(blocks)) <==> forall i :: 0 <= i < |blocks| ==> NoDuplicates(blocks[i].refs)
  {
    var es := View(blocks);
    forall x | x in Names(es) ensures x in NamesOf(blocks) {
      var e :| e in es && e.name == x;
      var i :| 0 <= i < |es| && es[i] == e;
      assert blocks[i] in blocks;
    }
    forall x | x in NamesOf(blocks) ensures x in Names(es) {
      var b :| b in blocks && b.name == x;
      var i :| 0 <= i < |blocks| && blocks[i] == b;
      assert es[i] in es;
    }
  }

  lemma ViewSnoc(blocks: seq<ImageInfo>, b: ImageInfo)
    ensures View(blocks + [b]) == View(blocks) + [b.ToEntry()]
  {
  }

  /** A visit is the step of the collection pass: find or create the record at `k`, then add the reference. */
  lemma StepByParts(es: seq<Entry>, item: FlashItem, ele: Element, k: nat, mid: seq<Entry>, fin: seq<Entry>)
    requires k == Find(es, ele.libraryItem.name)
    requires mid == if k < |es| then es
      else es + [Entry(ele.libraryItem.name, ele.libraryItem, ele.hPixels, ele.vPixels, [], None)]
    requires fin == mid[k := mid[k].(refs := AddRef(mid[k].refs, item))]
    ensures fin == Step(es, item, ele)
  {
    var e := Entry(ele.libraryItem.name, ele.libraryItem, ele.hPixels, ele.vPixels, [], None);
    if k == |es| {
      assert AddRef([], item) == [item];
      assert fin == es + [e.(refs := [item])] by {
        assert (es + [e])[|es| := e.(refs := [item])] == es + [e.(refs := [item])];
      }
    }
  }

  /** Records with distinct names and duplicate-free references give entries with the same properties. */
  lemma ViewDistinct(blocks: seq<ImageInfo>)
    requires UniqueNames(blocks)
    requires forall i :: 0 <= i < |blocks| ==> NoDuplicates(blocks[i].refs)
    ensures DistinctNames(View(blocks)) && RefsDistinct(View(blocks))
  {
  }

  lemma RefsFromView(blocks: seq<ImageInfo>)
    requires RefsDistinct(View(blocks))
    ensures forall i :: 0 <= i < |blocks| ==> NoDuplicates(blocks[i].refs)
  {
    forall i | 0 <= i < |blocks| ensures NoDuplicates(blocks[i].refs) {
      assert View(blocks)[i].refs == blocks[i].refs;
    }
  }

  /** Extending an extension of `blocks` extends `blocks`. */
  lemma Extended(blocks: seq<ImageInfo>, mid: seq<ImageInfo>, nb: seq<ImageInfo>)
    requires |mid| >= |blocks| && mid[..|blocks|] == blocks
    requires |nb| >= |mid| && nb[..|mid|] == mid
    ensures |nb| >= |blocks| && nb[..|blocks|] == blocks
  {
    assert nb[..|blocks|] == nb[..|mid|][..|blocks|];
  }

  lemma ElementHitsSnoc(elements: seq<Element>, ei: nat)
    requires ei < |elements|
    ensures IsBitmapInstance(elements[ei]) ==> ElementHits(elements[..ei + 1]) == ElementHits(elements[..ei]) + [elements[ei]]
    ensures !IsBitmapInstance(elements[ei]) ==> ElementHits(elements[..ei + 1]) == ElementHits(elements[..ei])
  {
    assert elements[..ei + 1][..ei] == elements[..ei];
    assert ElementHits(elements[..ei]) + [] == ElementHits(elements[..ei]);
  }

  lemma FrameHitsSnoc(frames: seq<Frame>, fi: nat)
    requires fi < |frames|
    ensures frames[fi].startFrame == fi ==> FrameHits(frames[..fi + 1]) == FrameHits(frames[..fi]) + ElementHits(frames[fi].elements)
    ensures frames[fi].startFrame != fi ==> FrameHits(frames[..fi + 1]) == FrameHits(frames[..fi])
  {
    assert frames[..fi + 1][..fi] == frames[..fi];
    assert FrameHits(frames[..fi]) + [] == FrameHits(frames[..fi]);
  }

  lemma LayerHitsSnoc(layers: seq<Layer>, li: nat)
    requires li < |layers|
    ensures IsNormal(layers[li]) ==> LayerHits(layers[..li + 1]) == LayerHits(layers[..li]) + FrameHits(layers[li].frames)
    ensures !IsNormal(layers[li]) ==> LayerHits(layers[..li + 1]) == LayerHits(layers[..li])
  {
    assert layers[..li + 1][..li] == layers[..li];
    assert LayerHits(layers[..li]) + [] == LayerHits(layers[..li]);
  }

  lemma FoldSnoc(es: seq<Entry>, item: FlashItem, hs: seq<Element>, e: Element)
    ensures Fold(es, item, hs + [e]) == Step(Fold(es, item, hs), item, e)
  {
    assert (hs + [e])[..|hs|] == hs;
  }
}
