/**
 * The image record (`ImageInfo`) the search builds one of per distinct
 * bitmap.  Its name, library item and size are fixed when it is created;
 * its list of referencing items and its placement change in place.
 */
module Images {
  import opened Wrappers
  import opened Flash

  /** A placement assigned by the packer: the top-left corner in the atlas. */
  datatype Pos = Pos(x: int, y: int)

  /** The value of an image record's fields at one moment. */
  datatype Entry = Entry(name: string, libItem: FlashItem, w: int, h: int, refs: seq<FlashItem>, fit: Option<Pos>)

  class ImageInfo {
    const name: string
    const libItem: FlashItem
    const w: int
    const h: int
    var refs: seq<FlashItem>
    var fit: Option<Pos>

    constructor (name: string, libItem: FlashItem, w: int, h: int)
      ensures this.name == name && this.libItem == libItem && this.w == w && this.h == h
      ensures refs == [] && fit == None
    {
      this.name := name;
      this.libItem := libItem;
      this.w := w;
      this.h := h;
      refs := [];
      fit := None;
    }

    /** `getArea()`. */
    function Area(): int
    {
      w * h
    }

    function ToEntry(): Entry
      reads this
    {
      Entry(name, libItem, w, h, refs, fit)
    }
  }

  /** The fields of a list of image records, position by position. */
  function View(bs: seq<ImageInfo>): (r: seq<Entry>)
    reads bs
    ensures |r| == |bs|
    ensures forall i :: 0 <= i < |bs| ==> r[i] == bs[i].ToEntry()
  {
    seq(|bs|, i reads bs requires 0 <= i < |bs| => bs[i].ToEntry())
  }

  /** The placement currently stored on each record of `bs`. */
  function FitsOf(bs: seq<ImageInfo>): (r: map<ImageInfo, Option<Pos>>)
    reads bs
    ensures forall b :: b in bs ==> b in r && r[b] == b.fit
    ensures r.Keys == set b | b in bs
  {
    map b | b in bs :: b.fit
  }

  /** The sum of `getArea()` over a list of records, the score of a complete packing. */
  function SumArea(bs: seq<ImageInfo>): int
  {
    if bs == [] then 0 else SumArea(bs[..|bs| - 1]) + bs[|bs| - 1].Area()
  }

  lemma {:induction false} SumAreaAppend(a: seq<ImageInfo>, b: seq<ImageInfo>)
    ensures SumArea(a + b) == SumArea(a) + SumArea(b)
  {
    if b == [] {
      assert a + b == a;
    } else {
      var bi := b[..|b| - 1];
      assert (a + b)[..|a + b| - 1] == a + bi;
      assert (a + b)[|a + b| - 1] == b[|b| - 1];
      SumAreaAppend(a, bi);
    }
  }

  /** The score does not depend on the order of the records: any rearrangement has the same sum. */
  lemma {:induction false} SumAreaPermutation(a: seq<ImageInfo>, b: seq<ImageInfo>)
    requires multiset(a) == multiset(b)
    ensures SumArea(a) == SumArea(b)
    decreases |a|
  {
    if a == [] {
      assert |b| == |multiset(b)| == 0;
    } else {
      var x := a[|a| - 1];
      var ai := a[..|a| - 1];
      assert a == ai + [x];
      assert x in multiset(b);
      var j :| 0 <= j < |b| && b[j] == x;
      var bj := b[..j] + b[j + 1..];
      RemoveAt(b, j, bj);
      assert multiset(a) == multiset(ai) + multiset{x};
      Cancel(multiset(ai), multiset(bj), x);
      SumAreaPermutation(ai, bj);
    }
  }

  /** Removing the record at `j` takes it out of the multiset and its area out of the sum. */
  lemma RemoveAt(b: seq<ImageInfo>, j: nat, bj: seq<ImageInfo>)
    requires j < |b| && bj == b[..j] + b[j + 1..]
    ensures multiset(b) == multiset(bj) + multiset{b[j]}
    ensures SumArea(b) == SumArea(bj) + b[j].Area()
  {
    assert b == b[..j] + [b[j]] + b[j + 1..];
    SumAreaAppend(b[..j] + [b[j]], b[j + 1..]);
    SumAreaAppend(b[..j], [b[j]]);
    SumAreaAppend(b[..j], b[j + 1..]);
    assert SumArea([b[j]]) == b[j].Area() by {
      assert [b[j]][..0] == [];
    }
  }

  lemma Cancel(p: multiset<ImageInfo>, q: multiset<ImageInfo>, x: ImageInfo)
    requires p + multiset{x} == q + multiset{x}
    ensures p == q
  {
    forall y ensures p[y] == q[y] {
      assert (p + multiset{x})[y] == p[y] + multiset{x}[y];
      assert (q + multiset{x})[y] == q[y] + multiset{x}[y];
    }
  }

  /** Two lists holding the same records carry the same placements. */
  lemma FitsOfSameRecords(a: seq<ImageInfo>, b: seq<ImageInfo>)
    requires multiset(a) == multiset(b)
    ensures FitsOf(a) == FitsOf(b)
  {
    assert forall x :: x in a <==> x in multiset(a);
    assert forall x :: x in b <==> x in multiset(b);
  }
}
