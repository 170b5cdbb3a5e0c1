/**
 * The part of the authoring tool's document model that the image search
 * reads: a library item with its timeline, layers, frames and the elements
 * placed on them.  Only the fields the search reads are modelled.
 */
module Flash {
  import opened Wrappers

  /** An element on a frame; `libraryItem`, `hPixels` and `vPixels` matter only for bitmap instances. */
  datatype Element = Element(elementType: string, instanceType: string, libraryItem: FlashItem, hPixels: int, vPixels: int)

  /** A frame slot of a layer; a keyframe spanning several slots repeats itself with the same `startFrame`. */
  datatype Frame = Frame(startFrame: int, elements: seq<Element>)

  datatype Layer = Layer(layerType: string, frames: seq<Frame>)

  datatype Timeline = Timeline(layers: seq<Layer>)

  /**
   * A library item.  `idx` and `key` stand for the `$idx` and `$key`
   * properties that the component registry writes onto the item.
   */
  class FlashItem {
    const name: string
    const linkageClassName: string
    const timeline: Option<Timeline>
    var idx: int
    var key: int

    constructor (name: string, linkageClassName: string, timeline: Option<Timeline>)
      ensures this.name == name && this.linkageClassName == linkageClassName && this.timeline == timeline
    {
      this.name := name;
      this.linkageClassName := linkageClassName;
      this.timeline := timeline;
    }
  }

  predicate IsBitmapInstance(e: Element)
  {
    e.elementType == "instance" && e.instanceType == "bitmap"
  }

  /** Only layers of type `normal` are walked. */
  predicate IsNormal(l: Layer)
  {
    l.layerType == "normal"
  }

  /** A frame slot is a keyframe when its own start index is its position. */
  predicate IsKeyframe(frames: seq<Frame>, fi: int)
    requires 0 <= fi < |frames|
  {
    frames[fi].startFrame == fi
  }

  /** The bitmap instances of an element list, in order. */
  function ElementHits(es: seq<Element>): seq<Element>
  {
    if es == [] then []
    else ElementHits(es[..|es| - 1]) + (if IsBitmapInstance(es[|es| - 1]) then [es[|es| - 1]] else [])
  }

  /** The bitmap instances on the keyframes of a frame list, frame by frame. */
  function FrameHits(frames: seq<Frame>): seq<Element>
  {
    if frames == [] then []
    else
      var fi := |frames| - 1;
      FrameHits(frames[..fi]) + (if IsKeyframe(frames, fi) then ElementHits(frames[fi].elements) else [])
  }

  /** The bitmap instances on the keyframes of the normal layers of a layer list, layer by layer. */
  function LayerHits(layers: seq<Layer>): seq<Element>
  {
    if layers == [] then []
    else
      var l := layers[|layers| - 1];
      LayerHits(layers[..|layers| - 1]) + (if IsNormal(l) then FrameHits(l.frames) else [])
  }

  /** An element is a hit exactly when it is a bitmap instance in the list. */
  lemma {:induction false} ElementHitsIff(es: seq<Element>, e: Element)
    ensures e in ElementHits(es) <==> exists ei :: 0 <= ei < |es| && es[ei] == e && IsBitmapInstance(e)
  {
    if es != [] {
      var init := es[..|es| - 1];
      ElementHitsIff(init, e);
      if e in ElementHits(init) {
        var ei :| 0 <= ei < |init| && init[ei] == e && IsBitmapInstance(e);
        assert es[ei] == e;
      }
      if exists ei :: 0 <= ei < |es| && es[ei] == e && IsBitmapInstance(e) {
        var ei :| 0 <= ei < |es| && es[ei] == e && IsBitmapInstance(e);
        if ei < |init| {
          assert init[ei] == e;
        }
      }
    }
  }

  ghost predicate OnKeyframe(frames: seq<Frame>, e: Element)
  {
    exists fi, ei :: 0 <= fi < |frames| && IsKeyframe(frames, fi)
      && 0 <= ei < |frames[fi].elements| && frames[fi].elements[ei] == e && IsBitmapInstance(e)
  }

  /** A frame-list hit is a bitmap instance on a keyframe, and every such instance is a hit. */
  lemma {:induction false} FrameHitsIff(frames: seq<Frame>, e: Element)
    ensures e in FrameHits(frames) <==> OnKeyframe(frames, e)
  {
    if frames != [] {
      var fi := |frames| - 1;
      FrameHitsIff(frames[..fi], e);
      ElementHitsIff(frames[fi].elements, e);
      OnKeyframeSnoc(frames, e);
    }
  }

  lemma OnKeyframeSnoc(frames: seq<Frame>, e: Element)
    requires frames != []
    ensures var fi := |frames| - 1;
      OnKeyframe(frames, e)
      <==> (|| OnKeyframe(frames[..fi], e)
            || (IsKeyframe(frames, fi) && exists ei :: 0 <= ei < |frames[fi].elements| && frames[fi].elements[ei] == e && IsBitmapInstance(e)))
  {
    var fi := |frames| - 1;
    var init := frames[..fi];
    if OnKeyframe(init, e) {
      var f, ei :| 0 <= f < |init| && IsKeyframe(init, f)
        && 0 <= ei < |init[f].elements| && init[f].elements[ei] == e && IsBitmapInstance(e);
      assert frames[f] == init[f];
    }
    if OnKeyframe(frames, e) {
      var f, ei :| 0 <= f < |frames| && IsKeyframe(frames, f)
        && 0 <= ei < |frames[f].elements| && frames[f].elements[ei] == e && IsBitmapInstance(e);
      if f < fi {
        assert init[f] == frames[f];
      }
    }
  }

  ghost predicate OnNormalKeyframe(layers: seq<Layer>, e: Element)
  {
    exists li :: 0 <= li < |layers| && IsNormal(layers[li]) && OnKeyframe(layers[li].frames, e)
  }

  /**
   * The walk keeps exactly the bitmap instances that sit on a keyframe of a
   * normal layer: nothing on a guide, mask or folder layer, nothing on an
   * in-between frame and no other kind of element is ever visited.
   */
  lemma {:induction false} LayerHitsIff(layers: seq<Layer>, e: Element)
    ensures e in LayerHits(layers) <==> OnNormalKeyframe(layers, e)
  {
    if layers != [] {
      var li := |layers| - 1;
      LayerHitsIff(layers[..li], e);
      FrameHitsIff(layers[li].frames, e);
      OnNormalKeyframeSnoc(layers, e);
    }
  }

  lemma OnNormalKeyframeSnoc(layers: seq<Layer>, e: Element)
    requires layers != []
    ensures var li := |layers| - 1;
      OnNormalKeyframe(layers, e)
      <==> (|| OnNormalKeyframe(layers[..li], e)
            || (IsNormal(layers[li]) && OnKeyframe(layers[li].frames, e)))
  {
    var li := |layers| - 1;
    var init := layers[..li];
    if OnNormalKeyframe(init, e) {
      var l :| 0 <= l < |init| && IsNormal(init[l]) && OnKeyframe(init[l].frames, e);
      assert layers[l] == init[l];
    }
    if OnNormalKeyframe(layers, e) {
      var l :| 0 <= l < |layers| && IsNormal(layers[l]) && OnKeyframe(layers[l].frames, e);
      if l < li {
        assert init[l] == layers[l];
      }
    }
  }
}
