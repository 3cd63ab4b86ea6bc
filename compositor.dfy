/** processFrame's effect on the output canvas, as a specification function. */
module Compositor {
  import opened Pixels
  import opened Fisheye
  import opened MappingTable

  /** The writes a table performs on a frame: entry {o, c} writes pixel value frame[c]
      to output pixel o. */
  function Fetch(ps: seq<Pair>, frame: seq<int>): (r: seq<Pair>)
    requires CamsBelow(ps, |frame|)
    ensures |r| == |ps| && forall k :: 0 <= k < |ps| ==> r[k] == Pair(ps[k].out, frame[ps[k].cam])
  {
    seq(|ps|, k requires 0 <= k < |ps| => Pair(ps[k].out, frame[ps[k].cam]))
  }

  /** The canvas after copying, entry by entry in table order, the camera pixel of
      each entry into its output pixel. */
  function Composite(canvas: seq<int>, ps: seq<Pair>, frame: seq<int>): (r: seq<int>)
    requires OutsBelow(ps, |canvas|) && CamsBelow(ps, |frame|)
    ensures |r| == |canvas|
  {
    var qs := Fetch(ps, frame);
    assert OutsBelow(qs, |canvas|) by {
      forall k | 0 <= k < |qs| ensures 0 <= qs[k].out < |canvas| {
        assert qs[k].out == ps[k].out;
      }
    }
    Overlay(canvas, qs)
  }

  /** With increasing output indices, each entry's output pixel shows its camera pixel. */
  lemma CompositeHit(canvas: seq<int>, ps: seq<Pair>, frame: seq<int>, k: int)
    requires OutsBelow(ps, |canvas|) && CamsBelow(ps, |frame|) && Increasing(ps) && 0 <= k < |ps|
    ensures Composite(canvas, ps, frame)[ps[k].out] == frame[ps[k].cam]
  {
    var qs := Fetch(ps, frame);
    assert Increasing(qs) by {
      forall i, j | 0 <= i < j < |qs| ensures qs[i].out < qs[j].out {
        assert qs[i].out == ps[i].out && qs[j].out == ps[j].out;
      }
    }
    assert OutsBelow(qs, |canvas|);
    OverlayHit(canvas, qs, k);
  }

  /** An output pixel the table does not name is left as it was. */
  lemma CompositeMiss(canvas: seq<int>, ps: seq<Pair>, frame: seq<int>, o: int)
    requires OutsBelow(ps, |canvas|) && CamsBelow(ps, |frame|) && !Covers(ps, o) && 0 <= o < |canvas|
    ensures Composite(canvas, ps, frame)[o] == canvas[o]
  {
    var qs := Fetch(ps, frame);
    assert OutsBelow(qs, |canvas|);
    assert !Covers(qs, o);
    OverlayMiss(canvas, qs, o);
  }

  /** End to end: after a frame, output pixel o shows camera pixel c when the last
      mapper writing o maps it to c with 0 < c < camera pixels, and keeps its previous
      value otherwise. */
  lemma CompositeCameraTable(ms: seq<Mapper>, out: Dim, cam: Dim, canvas: seq<int>, frame: seq<int>, o: int)
    requires MappersValid(ms, out) && |canvas| == Size(out) && Size(cam) <= |frame| && 0 <= o < Size(out)
    ensures var w := LastWriter(ms, out, cam, o);
            Composite(canvas, CameraTable(ms, out, cam), frame)[o] ==
              if w.Some? && 0 < w.value < Size(cam) then frame[w.value] else canvas[o]
  {
    var ps := CameraTable(ms, out, cam);
    var w := LastWriter(ms, out, cam, o);
    if Covers(ps, o) {
      var k :| 0 <= k < |ps| && ps[k].out == o;
      CameraTableMembership(ms, out, cam, o, ps[k].cam);
      CompositeHit(canvas, ps, frame, k);
    } else {
      if w.Some? && 0 < w.value < Size(cam) {
        CameraTableMembership(ms, out, cam, o, w.value);
        assert false;
      }
      CompositeMiss(canvas, ps, frame, o);
    }
  }
}
