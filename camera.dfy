/** CameraConfiguration: one camera's mappers, its cached mapping table and the
    per-frame update of the shared output canvas. */
module Camera {
  import opened Pixels
  import opened Fisheye
  import opened MappingTable
  import opened Compositor

  class CameraConfiguration {
    /** The output canvas resolution. */
    const outputResolution: Dim
    /** The camera's mappers, in configuration order. */
    const mappers: seq<Mapper>
    /** The pixel data of the output image the camera draws into. */
    const outputPixels: array<int>
    /** The resolution of the last frame seen, None before the first one. */
    var cameraResolution: Option<Dim>
    /** The cached flat mapping table, null until built or after a resolution change. */
    var table: array?<int>

    /** The mappers fit the canvas, there is at least one, and a cached table is the
        camera table of the current resolution. */
    ghost predicate Valid()
      reads this, table
    {
      outputPixels.Length == Size(outputResolution) && |mappers| > 0 && MappersValid(mappers, outputResolution)
      && (table != null ==>
            cameraResolution.Some? && table != outputPixels &&
            table[..] == Flat(CameraTable(mappers, outputResolution, cameraResolution.value)))
    }

    /** A configured camera with its mappers; no frame seen yet, no table built. */
    constructor (outputResolution: Dim, mappers: seq<Mapper>, outputPixels: array<int>)
      requires outputPixels.Length == Size(outputResolution) && |mappers| > 0
      requires MappersValid(mappers, outputResolution)
      ensures Valid()
      ensures this.outputResolution == outputResolution && this.mappers == mappers
      ensures this.outputPixels == outputPixels
      ensures cameraResolution.None? && table == null
    {
      this.outputResolution := outputResolution;
      this.mappers := mappers;
      this.outputPixels := outputPixels;
      cameraResolution := None;
      table := null;
    }

    /** getMap: a dense table of Unset slots, each mapper's table written over it in
        list order, then the kept slots counted and copied into an exact 2 * n array. */
    method GetMap() returns (r: array<int>)
      requires MappersValid(mappers, outputResolution) && cameraResolution.Some?
      ensures fresh(r)
      ensures r[..] == Flat(CameraTable(mappers, outputResolution, cameraResolution.value))
    {
      var out, cam := outputResolution, cameraResolution.value;
      var m := new int[Size(out)];
      var i := 0;
      while i < m.Length
        invariant 0 <= i <= m.Length
        invariant m[..i] == seq(i, _ => Unset)
      {
        m[i] := Unset;
        i := i + 1;
      }
      assert m[..] == DenseOf(mappers[..0], out, cam);
      var k := 0;
      while k < |mappers|
        invariant 0 <= k <= |mappers|
        invariant m.Length == Size(out)
        invariant m[..] == DenseOf(mappers[..k], out, cam)
      {
        var mapper := mappers[k];
        var mm := Fisheye.GetMap(mapper, out, cam);
        Overwrite(m, mm, MapperPairs(mapper, out, cam));
        assert mappers[..k + 1][..k] == mappers[..k];
        k := k + 1;
      }
      assert mappers[..k] == mappers;
      var n := 0;
      i := 0;
      while i < m.Length
        invariant 0 <= i <= m.Length
        invariant n == KeptCount(m[..], i, Size(cam))
      {
        if m[i] > 0 && m[i] < cam.width * cam.height {
          n := n + 1;
        }
        i := i + 1;
      }
      r := Fill(m, n, Size(cam));
    }

    /** processFrame: for each entry {o, c} of the cached table, in order, copy camera
        pixel c of the frame into output pixel o. */
    method ProcessFrame(frame: array<int>)
      requires Valid() && table != null && frame != outputPixels
      requires Size(cameraResolution.value) <= frame.Length
      modifies outputPixels
      ensures Valid()
      ensures outputPixels[..] ==
                Composite(old(outputPixels[..]), CameraTable(mappers, outputResolution, cameraResolution.value), frame[..])
    {
      Draw(outputPixels, table, frame, CameraTable(mappers, outputResolution, cameraResolution.value));
    }

    /** handleSample: on a frame of w by h pixels, forget the table when the
        resolution is new or changed, build it when there is none, then draw the
        frame when its buffer could be mapped (frame != null). */
    method HandleSample(w: nat, h: nat, frame: array?<int>)
      requires Valid()
      requires frame != null ==> frame != outputPixels && w * h <= frame.Length
      modifies this, outputPixels
      ensures Valid()
      ensures cameraResolution == Some(Dim(w, h)) && table != null
      ensures old(cameraResolution) == Some(Dim(w, h)) && old(table) != null ==> table == old(table)
      ensures !(old(cameraResolution) == Some(Dim(w, h)) && old(table) != null) ==> fresh(table)
      ensures frame != null ==>
                outputPixels[..] == Composite(old(outputPixels[..]), CameraTable(mappers, outputResolution, Dim(w, h)), frame[..])
      ensures frame == null ==> outputPixels[..] == old(outputPixels[..])
    {
      if cameraResolution.None? || cameraResolution.value.width != w || cameraResolution.value.height != h {
        cameraResolution := Some(Dim(w, h));
        table := null;
      }
      if table == null {
        table := GetMap();
      }
      if frame != null {
        ProcessFrame(frame);
      }
    }
  }

  /** The inner loop of getMap: m[mm[i]] = mm[i + 1] for i = 0, 2, 4, ... over a
      mapper's flat table mm. */
  method Overwrite(m: array<int>, mm: array<int>, ghost ps: seq<Pair>)
    requires m != mm && mm[..] == Flat(ps) && OutsBelow(ps, m.Length)
    modifies m
    ensures m[..] == Overlay(old(m[..]), ps)
  {
    var i := 0;
    ghost var j := 0;
    while i < mm.Length
      invariant 0 <= j <= |ps| && i == 2 * j
      invariant m[..] == Overlay(old(m[..]), ps[..j])
    {
      FlatAt(ps, j);
      m[mm[i]] := mm[i + 1];
      assert ps[..j + 1][..j] == ps[..j];
      i, j := i + 2, j + 1;
    }
    assert ps[..j] == ps;
  }

  /** The loop of processFrame: canvas[mm[i]] = frame[mm[i + 1]] for i = 0, 2, 4, ...
      over the flat table mm. */
  method Draw(canvas: array<int>, mm: array<int>, frame: array<int>, ghost ps: seq<Pair>)
    requires canvas != mm && canvas != frame && mm[..] == Flat(ps)
    requires OutsBelow(ps, canvas.Length) && CamsBelow(ps, frame.Length)
    modifies canvas
    ensures canvas[..] == Composite(old(canvas[..]), ps, frame[..])
  {
    ghost var qs := Fetch(ps, frame[..]);
    assert OutsBelow(qs, canvas.Length);
    var i := 0;
    ghost var j := 0;
    while i < mm.Length
      invariant 0 <= j <= |ps| && i == 2 * j
      invariant canvas[..] == Overlay(old(canvas[..]), qs[..j])
    {
      FlatAt(ps, j);
      var outputPixelIndex := mm[i + 0];
      var cameraPixelIndex := mm[i + 1];
      canvas[outputPixelIndex] := frame[cameraPixelIndex];
      assert qs[..j + 1][..j] == qs[..j];
      i, j := i + 2, j + 1;
    }
    assert qs[..j] == qs;
  }

  /** The filling pass of getMap: a new array of 2 * n ints holding {i, m[i]} for
      the kept slots i of m, in order. */
  method Fill(m: array<int>, n: nat, camSize: int) returns (r: array<int>)
    requires n == KeptCount(m[..], m.Length, camSize)
    ensures fresh(r)
    ensures r[..] == Flat(Compact(m[..], m.Length, camSize))
  {
    var table := new int[2 * n];
    ghost var d := m[..];
    CompactLength(d, m.Length, camSize);
    var k := 0;
    var i := 0;
    while i < m.Length
      invariant 0 <= i <= m.Length
      invariant k == 2 * |Compact(d, i, camSize)| <= table.Length
      invariant table[..k] == Flat(Compact(d, i, camSize))
    {
      CompactLength(d, i, camSize);
      KeptCountMono(d, i + 1, m.Length, camSize);
      ghost var before := Compact(d, i, camSize);
      if m[i] > 0 && m[i] < camSize {
        assert Compact(d, i + 1, camSize) == before + [Pair(i, m[i])];
        Put(table, k, before, Pair(i, m[i]));
        k := k + 2;
      } else {
        assert Compact(d, i + 1, camSize) == before + [] == before;
      }
      i := i + 1;
    }
    r := table;
  }
}
