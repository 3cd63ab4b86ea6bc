/** CameraConfiguration.getMap as specification functions: the dense per-canvas-pixel
    table the mappers overwrite in list order, the reference definition of which
    mapper wins a pixel, and the compaction into the flat table processFrame reads. */
module MappingTable {
  import opened Pixels
  import opened Fisheye

  /** The value a dense-table slot holds when no mapper wrote it. */
  const Unset: int := -1

  /** Every mapper of the camera may run over the output canvas. */
  predicate MappersValid(ms: seq<Mapper>, out: Dim)
  {
    forall k :: 0 <= k < |ms| ==> ms[k].ValidFor(out)
  }

  /** The writes d[p.out] := p.cam of the entries p of ps, performed in order. */
  function Overlay(d: seq<int>, ps: seq<Pair>): (r: seq<int>)
    requires OutsBelow(ps, |d|)
    ensures |r| == |d|
  {
    if ps == [] then d
    else
      var init := ps[..|ps| - 1];
      assert OutsBelow(init, |d|) by {
        forall k | 0 <= k < |init| ensures 0 <= init[k].out < |d| {
          assert init[k] == ps[k];
        }
      }
      Overlay(d, init)[ps[|ps| - 1].out := ps[|ps| - 1].cam]
  }

  /** When output indices increase along ps, every entry's write survives. */
  lemma {:induction false} OverlayHit(d: seq<int>, ps: seq<Pair>, k: int)
    requires OutsBelow(ps, |d|) && Increasing(ps) && 0 <= k < |ps|
    ensures Overlay(d, ps)[ps[k].out] == ps[k].cam
  {
    var init := ps[..|ps| - 1];
    if k < |init| {
      assert init[k] == ps[k];
      assert OutsBelow(init, |d|) && Increasing(init);
      OverlayHit(d, init, k);
    }
  }

  /** A slot that ps does not write keeps its old value. */
  lemma {:induction false} OverlayMiss(d: seq<int>, ps: seq<Pair>, o: int)
    requires OutsBelow(ps, |d|) && !Covers(ps, o) && 0 <= o < |d|
    ensures Overlay(d, ps)[o] == d[o]
  {
    if ps != [] {
      var init := ps[..|ps| - 1];
      assert OutsBelow(init, |d|);
      assert !Covers(init, o);
      OverlayMiss(d, init, o);
      assert ps[|ps| - 1].out != o;
    }
  }

  /** The dense table m[] after the mappers of ms have written their tables in order
      over a table of Unset slots. */
  function DenseOf(ms: seq<Mapper>, out: Dim, cam: Dim): (r: seq<int>)
    requires MappersValid(ms, out)
    ensures |r| == Size(out)
  {
    if ms == [] then seq(Size(out), _ => Unset)
    else
      var init := ms[..|ms| - 1];
      assert MappersValid(init, out) by {
        forall k | 0 <= k < |init| ensures init[k].ValidFor(out) {
          assert init[k] == ms[k];
        }
      }
      Overlay(DenseOf(init, out, cam), MapperPairs(ms[|ms| - 1], out, cam))
  }

  /** Reference definition, pixel by pixel: the camera index of output pixel o comes
      from the last mapper in the list whose pipeline accepts o, if there is one. */
  function LastWriter(ms: seq<Mapper>, out: Dim, cam: Dim, o: int): Option<int>
    requires MappersValid(ms, out) && 0 <= o < Size(out)
  {
    if ms == [] then None
    else
      var init := ms[..|ms| - 1];
      assert MappersValid(init, out) by {
        forall k | 0 <= k < |init| ensures init[k].ValidFor(out) {
          assert init[k] == ms[k];
        }
      }
      var e := EmitAt(ms[|ms| - 1], out, cam, o);
      if e.Some? then e else LastWriter(init, out, cam, o)
  }

  /** The last mapper wins: LastWriter gives camera index c exactly when some mapper
      writes c to pixel o and no later mapper writes o. */
  lemma {:induction false} LastWriterWins(ms: seq<Mapper>, out: Dim, cam: Dim, o: int, c: int)
    requires MappersValid(ms, out) && 0 <= o < Size(out)
    ensures LastWriter(ms, out, cam, o) == Some(c) <==>
              exists k :: 0 <= k < |ms| && EmitAt(ms[k], out, cam, o) == Some(c) && NoneAfter(ms, out, cam, o, k)
  {
    if ms != [] {
      var n := |ms| - 1;
      var init := ms[..n];
      assert MappersValid(init, out);
      LastWriterWins(init, out, cam, o, c);
      if EmitAt(ms[n], out, cam, o).None? {
        if LastWriter(ms, out, cam, o) == Some(c) {
          var k :| 0 <= k < n && EmitAt(init[k], out, cam, o) == Some(c) && NoneAfter(init, out, cam, o, k);
          assert init[k] == ms[k];
          NoneAfterSnoc(ms, out, cam, o, k);
        }
        if exists k :: 0 <= k < |ms| && EmitAt(ms[k], out, cam, o) == Some(c) && NoneAfter(ms, out, cam, o, k) {
          var k :| 0 <= k < |ms| && EmitAt(ms[k], out, cam, o) == Some(c) && NoneAfter(ms, out, cam, o, k);
          assert init[k] == ms[k];
          NoneAfterSnoc(ms, out, cam, o, k);
        }
      } else {
        assert NoneAfter(ms, out, cam, o, n);
        if exists k :: 0 <= k < |ms| && EmitAt(ms[k], out, cam, o) == Some(c) && NoneAfter(ms, out, cam, o, k) {
          var k :| 0 <= k < |ms| && EmitAt(ms[k], out, cam, o) == Some(c) && NoneAfter(ms, out, cam, o, k);
          assert k == n;
        }
      }
    }
  }

  /** No mapper after the k-th writes output pixel o. */
  predicate NoneAfter(ms: seq<Mapper>, out: Dim, cam: Dim, o: int, k: int)
    requires MappersValid(ms, out) && 0 <= o < Size(out)
  {
    forall j :: 0 <= j < |ms| && k < j ==> EmitAt(ms[j], out, cam, o).None?
  }

  /** NoneAfter over ms is NoneAfter over all but the last mapper plus the last one's silence. */
  lemma NoneAfterSnoc(ms: seq<Mapper>, out: Dim, cam: Dim, o: int, k: int)
    requires MappersValid(ms, out) && 0 <= o < Size(out) && 0 <= k < |ms| - 1
    ensures MappersValid(ms[..|ms| - 1], out)
    ensures NoneAfter(ms, out, cam, o, k) <==>
              NoneAfter(ms[..|ms| - 1], out, cam, o, k) && EmitAt(ms[|ms| - 1], out, cam, o).None?
  {
    var init := ms[..|ms| - 1];
    assert forall j :: 0 <= j < |init| ==> init[j] == ms[j];
  }

  /** No mapper writes output pixel o exactly when LastWriter gives nothing. */
  lemma {:induction false} LastWriterNone(ms: seq<Mapper>, out: Dim, cam: Dim, o: int)
    requires MappersValid(ms, out) && 0 <= o < Size(out)
    ensures LastWriter(ms, out, cam, o).None? <==> NoneAfter(ms, out, cam, o, -1)
  {
    if ms != [] {
      var init := ms[..|ms| - 1];
      assert MappersValid(init, out);
      LastWriterNone(init, out, cam, o);
      assert forall j :: 0 <= j < |init| ==> init[j] == ms[j];
    }
  }

  /** Writing one mapper's table over a dense table sets exactly the pixels its
      pipeline accepts, to the camera index the pipeline produced. */
  lemma OverlayMapper(d: seq<int>, m: Mapper, out: Dim, cam: Dim, o: int)
    requires m.ValidFor(out) && |d| == Size(out) && 0 <= o < Size(out)
    ensures Overlay(d, MapperPairs(m, out, cam))[o] ==
              match EmitAt(m, out, cam, o) case None => d[o] case Some(c) => c
  {
    var ps := MapperPairs(m, out, cam);
    var e := EmitAt(m, out, cam, o);
    if e.Some? {
      MapperPairsMembership(m, out, cam, o, e.value);
      var k :| 0 <= k < |ps| && ps[k] == Pair(o, e.value);
      OverlayHit(d, ps, k);
    } else {
      MapperCovers(m, out, cam, o);
      OverlayMiss(d, ps, o);
    }
  }

  /** The dense table holds, for each output pixel, the last writer's camera index,
      and Unset where no mapper writes. */
  lemma {:induction false} DenseIsLastWriter(ms: seq<Mapper>, out: Dim, cam: Dim, o: int)
    requires MappersValid(ms, out) && 0 <= o < Size(out)
    ensures DenseOf(ms, out, cam)[o] == match LastWriter(ms, out, cam, o) case None => Unset case Some(c) => c
  {
    if ms != [] {
      var init := ms[..|ms| - 1];
      assert MappersValid(init, out);
      DenseIsLastWriter(init, out, cam, o);
      OverlayMapper(DenseOf(init, out, cam), ms[|ms| - 1], out, cam, o);
    }
  }

  /** The filter of both passes: a dense value is kept when 0 < v < camera pixels. */
  predicate Kept(v: int, camSize: int)
  {
    0 < v && v < camSize
  }

  /** The counting pass: how many of the first i dense slots are kept. */
  function KeptCount(d: seq<int>, i: nat, camSize: int): nat
    requires i <= |d|
  {
    if i == 0 then 0 else KeptCount(d, i - 1, camSize) + (if Kept(d[i - 1], camSize) then 1 else 0)
  }

  /** The filling pass: the entries {slot, value} of the kept ones among the first i
      dense slots, in slot order. */
  function Compact(d: seq<int>, i: nat, camSize: int): seq<Pair>
    requires i <= |d|
  {
    if i == 0 then [] else Compact(d, i - 1, camSize) + (if Kept(d[i - 1], camSize) then [Pair(i - 1, d[i - 1])] else [])
  }

  /** The count of the first pass is the length of the second pass's table, so the
      2 * n array is filled exactly. */
  lemma {:induction false} CompactLength(d: seq<int>, i: nat, camSize: int)
    requires i <= |d|
    ensures |Compact(d, i, camSize)| == KeptCount(d, i, camSize)
  {
    if i > 0 {
      CompactLength(d, i - 1, camSize);
    }
  }

  /** Counting more slots never counts fewer. */
  lemma {:induction false} KeptCountMono(d: seq<int>, i: nat, j: nat, camSize: int)
    requires i <= j <= |d|
    ensures KeptCount(d, i, camSize) <= KeptCount(d, j, camSize)
    decreases j - i
  {
    if i < j {
      KeptCountMono(d, i, j - 1, camSize);
    }
  }

  /** An entry is in the compacted table exactly when its slot is among the first i,
      its value is the dense value of that slot and that value is kept. */
  lemma {:induction false} CompactMembership(d: seq<int>, i: nat, camSize: int, o: int, c: int)
    requires i <= |d|
    ensures Pair(o, c) in Compact(d, i, camSize) <==> 0 <= o < i && c == d[o] && Kept(c, camSize)
  {
    if i > 0 {
      CompactMembership(d, i - 1, camSize, o, c);
    }
  }

  /** The compacted table lists slots in increasing order, each below i, with kept values. */
  lemma {:induction false} CompactWellFormed(d: seq<int>, i: nat, camSize: int)
    requires i <= |d|
    ensures Increasing(Compact(d, i, camSize)) && OutsBelow(Compact(d, i, camSize), i)
    ensures forall k :: 0 <= k < |Compact(d, i, camSize)| ==> Kept(Compact(d, i, camSize)[k].cam, camSize)
  {
    if i > 0 {
      CompactWellFormed(d, i - 1, camSize);
    }
  }

  /** The table CameraConfiguration.getMap returns, for the camera's current
      resolution: increasing output indices below the canvas size and camera indices
      inside the frame, as processFrame needs. */
  function CameraTable(ms: seq<Mapper>, out: Dim, cam: Dim): (r: seq<Pair>)
    requires MappersValid(ms, out)
    ensures Increasing(r) && OutsBelow(r, Size(out)) && CamsBelow(r, Size(cam))
  {
    CompactWellFormed(DenseOf(ms, out, cam), Size(out), Size(cam));
    Compact(DenseOf(ms, out, cam), Size(out), Size(cam))
  }

  /** An entry {o, c} is in the camera's table exactly when o is a canvas pixel, the
      last mapper writing o gives camera index c, and 0 < c < camera pixels. */
  lemma CameraTableMembership(ms: seq<Mapper>, out: Dim, cam: Dim, o: int, c: int)
    requires MappersValid(ms, out)
    ensures Pair(o, c) in CameraTable(ms, out, cam) <==>
              0 <= o < Size(out) && LastWriter(ms, out, cam, o) == Some(c) && 0 < c < Size(cam)
  {
    var d := DenseOf(ms, out, cam);
    CompactMembership(d, Size(out), Size(cam), o, c);
    if 0 <= o < Size(out) {
      DenseIsLastWriter(ms, out, cam, o);
    }
  }

  /** Camera pixel 0 never reaches the canvas: an output pixel whose last writer maps
      it to camera index 0 has no entry, so it keeps whatever it showed before. */
  lemma CameraPixelZeroDropped(ms: seq<Mapper>, out: Dim, cam: Dim, o: int)
    requires MappersValid(ms, out) && 0 <= o < Size(out) && LastWriter(ms, out, cam, o) == Some(0)
    ensures !Covers(CameraTable(ms, out, cam), o)
  {
    var t := CameraTable(ms, out, cam);
    if Covers(t, o) {
      var k :| 0 <= k < |t| && t[k].out == o;
      CameraTableMembership(ms, out, cam, o, t[k].cam);
      CameraTableMembership(ms, out, cam, o, 0);
    }
  }
}
