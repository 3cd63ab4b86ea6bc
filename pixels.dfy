/** Shared value types of the pixel-mapping engine: resolutions, pixel
    coordinates, mapping-table entries and their flat int[] layout. */
module Pixels {

  datatype Option<T> = None | Some(value: T)

  /** A resolution (java.awt.Dimension) of the output canvas or of a camera frame. */
  datatype Dim = Dim(width: nat, height: nat)

  /** An integer pixel coordinate. */
  datatype Point = Point(x: int, y: int)

  /** One entry of a mapping table: output pixel index and camera pixel index. */
  datatype Pair = Pair(out: int, cam: int)

  /** Number of pixels of a buffer of resolution d. */
  function Size(d: Dim): nat
  {
    d.width * d.height
  }

  /** The flat int[] layout {out0, cam0, out1, cam1, ...} the source uses for a table. */
  function Flat(ps: seq<Pair>): (r: seq<int>)
    ensures |r| == 2 * |ps|
  {
    if ps == [] then [] else Flat(ps[..|ps| - 1]) + [ps[|ps| - 1].out, ps[|ps| - 1].cam]
  }

  /** Entry k of a table sits at positions 2k and 2k + 1 of its flat layout. */
  lemma {:induction false} FlatAt(ps: seq<Pair>, k: int)
    requires 0 <= k < |ps|
    ensures Flat(ps)[2 * k] == ps[k].out && Flat(ps)[2 * k + 1] == ps[k].cam
  {
    var init := ps[..|ps| - 1];
    if k < |init| {
      FlatAt(init, k);
      assert init[k] == ps[k];
    }
  }

  /** Appending one entry to a table appends its two ints to the flat layout. */
  lemma FlatSnoc(ps: seq<Pair>, p: Pair)
    ensures Flat(ps + [p]) == Flat(ps) + [p.out, p.cam]
  {
    assert (ps + [p])[..|ps|] == ps;
  }

  /** Output indices strictly increase along the table, so each occurs at most once. */
  predicate Increasing(ps: seq<Pair>)
  {
    forall j, k :: 0 <= j < k < |ps| ==> ps[j].out < ps[k].out
  }

  /** Every output index of the table addresses a buffer of n pixels. */
  predicate OutsBelow(ps: seq<Pair>, n: int)
  {
    forall k :: 0 <= k < |ps| ==> 0 <= ps[k].out < n
  }

  /** Every camera index of the table addresses a frame of n pixels. */
  predicate CamsBelow(ps: seq<Pair>, n: int)
  {
    forall k :: 0 <= k < |ps| ==> 0 <= ps[k].cam < n
  }

  /** Output pixel o has an entry in the table. */
  predicate Covers(ps: seq<Pair>, o: int)
  {
    exists k :: 0 <= k < |ps| && ps[k].out == o
  }

  /** In a table with increasing output indices an output index has one camera index. */
  lemma IncreasingUnique(ps: seq<Pair>, o: int, c: int, c': int)
    requires Increasing(ps) && Pair(o, c) in ps && Pair(o, c') in ps
    ensures c == c'
  {
    var j :| 0 <= j < |ps| && ps[j] == Pair(o, c);
    var k :| 0 <= k < |ps| && ps[k] == Pair(o, c');
    assert !(j < k) && !(k < j);
  }

  /** Row-major indexing y * w + x of an in-range coordinate is in range and is
      decoded by division and remainder. */
  lemma RowMajor(x: int, y: int, w: int, h: int)
    requires 0 <= x < w && 0 <= y < h
    ensures 0 <= y * w + x < w * h
    ensures (y * w + x) / w == y && (y * w + x) % w == x
  {
    RowMajorBound(x, y, w, h);
    var p := y * w + x;
    var q, r := p / w, p % w;
    assert p == q * w + r && 0 <= r < w;
    assert (q - y) * w == x - r;
    if q > y {
      MulNonNegative(q - y - 1, w);
      assert false;
    } else if q < y {
      MulNonNegative(y - q - 1, w);
      assert false;
    }
  }

  /** Row-major indexing y * w + x of an in-range coordinate is in range. */
  lemma RowMajorBound(x: int, y: int, w: int, h: int)
    requires 0 <= x < w && 0 <= y < h
    ensures 0 <= y * w + x < w * h
  {
    MulNonNegative(y, w);
    MulNonNegative(h - 1 - y, w);
  }

  /** The coordinates (p % w, p / w) of a pixel index p of a w-by-h buffer are in range. */
  lemma PixelCoords(p: int, w: int, h: int)
    requires 0 <= p < w * h && 0 <= w && 0 <= h
    ensures 0 < w && 0 < h
    ensures 0 <= p % w < w && 0 <= p / w < h
    ensures (p / w) * w + p % w == p
  {
    var q := p / w;
    assert q * w + p % w == p;
    if q < 0 {
      MulNonNegative(-q - 1, w);
      assert false;
    }
    if q >= h {
      MulNonNegative(q - h, w);
      assert false;
    }
  }

  lemma MulNonNegative(a: int, b: int)
    requires 0 <= a && 0 <= b
    ensures 0 <= a * b
  {
  }

  /** map[i++] = p.out; map[i++] = p.cam; on a buffer whose first i ints hold the table ps. */
  method Put(table: array<int>, i: nat, ghost ps: seq<Pair>, p: Pair)
    requires i + 2 <= table.Length && table[..i] == Flat(ps)
    modifies table
    ensures table[..i + 2] == Flat(ps + [p])
    ensures table[i + 2..] == old(table[i + 2..])
  {
    table[i], table[i + 1] := p.out, p.cam;
    assert table[..i + 2] == old(table[..i]) + [p.out, p.cam];
    FlatSnoc(ps, p);
  }
}
