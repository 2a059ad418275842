/** The normalization of a built outline against the font's global bounding
    box (`Outline::process`, src/main.rs:51-70): scale into the unit square,
    flip y, then swap the ends of every curve. */
module Normalize {
  import opened Geometry

  /** `ttf_parser::Rect`: the font's global bounding box, in font units. */
  datatype Rect = Rect(xMin: int, yMin: int, xMax: int, yMax: int)
  {
    /** `bbox_min`: the lower corner, which lies in the box. */
    function Min(): (m: Vec2)
      ensures xMin <= xMax && yMin <= yMax ==> Contains(m)
    {
      Vec2(xMin as real, yMin as real)
    }

    /** `bbox_size`: `(width(), height())`; added to `bbox_min` it reaches the
        upper corner, and it has no zero side exactly when the box has area. */
    function Size(): (s: Vec2)
      ensures Min().x + s.x == xMax as real && Min().y + s.y == yMax as real
      ensures HasArea() <==> s.x != 0.0 && s.y != 0.0
    {
      Vec2((xMax - xMin) as real, (yMax - yMin) as real)
    }

    /** Neither side is zero, so the division by `bbox_size` is defined. */
    predicate HasArea()
    {
      xMax != xMin && yMax != yMin
    }

    predicate Contains(p: Vec2)
    {
      xMin as real <= p.x <= xMax as real && yMin as real <= p.y <= yMax as real
    }
  }

  predicate InUnitSquare(p: Vec2)
  {
    0.0 <= p.x <= 1.0 && 0.0 <= p.y <= 1.0
  }

  /** `(p - bbox_min) / bbox_size`, component-wise. */
  function Scale(p: Vec2, bbox: Rect): (q: Vec2)
    requires bbox.HasArea()
    ensures q.x * bbox.Size().x == p.x - bbox.Min().x
    ensures q.y * bbox.Size().y == p.y - bbox.Min().y
  {
    Vec2((p.x - bbox.Min().x) / bbox.Size().x, (p.y - bbox.Min().y) / bbox.Size().y)
  }

  /** `y' = 1 - y`. */
  function Flip(p: Vec2): (q: Vec2)
    ensures q.x == p.x && p.y + q.y == 1.0
    ensures 0.0 <= p.y <= 1.0 ==> 0.0 <= q.y <= 1.0
  {
    Vec2(p.x, 1.0 - p.y)
  }

  /** One point as `process` leaves it: scaled, then flipped. */
  function NormalizePoint(p: Vec2, bbox: Rect): (q: Vec2)
    requires bbox.HasArea()
    ensures q.x * bbox.Size().x == p.x - bbox.Min().x
    ensures (1.0 - q.y) * bbox.Size().y == p.y - bbox.Min().y
  {
    Flip(Scale(p, bbox))
  }

  /** One curve as `process` leaves it: every point normalized, then `p0` and
      `p2` swapped; the flags are kept. */
  function NormalizeCurve(c: Curve, bbox: Rect): (r: Curve)
    requires bbox.HasArea()
    ensures r.flags == c.flags
    ensures r.p0 == NormalizePoint(c.p2, bbox) && r.p2 == NormalizePoint(c.p0, bbox)
    ensures r.p1 == NormalizePoint(c.p1, bbox)
  {
    Curve(NormalizePoint(c.p2, bbox), NormalizePoint(c.p1, bbox), NormalizePoint(c.p0, bbox), c.flags)
  }

  /** The whole outline after `process`. */
  function Normalized(cs: seq<Curve>, bbox: Rect): (r: seq<Curve>)
    requires bbox.HasArea()
    ensures |r| == |cs|
    ensures forall i :: 0 <= i < |cs| ==> r[i] == NormalizeCurve(cs[i], bbox)
  {
    if cs == [] then [] else [NormalizeCurve(cs[0], bbox)] + Normalized(cs[1..], bbox)
  }

  /** The inverse map, back from the unit square to font units. */
  function DenormalizePoint(q: Vec2, bbox: Rect): Vec2
  {
    Vec2(q.x * bbox.Size().x + bbox.Min().x, (1.0 - q.y) * bbox.Size().y + bbox.Min().y)
  }

  function DenormalizeCurve(c: Curve, bbox: Rect): Curve
  {
    Curve(DenormalizePoint(c.p2, bbox), DenormalizePoint(c.p1, bbox), DenormalizePoint(c.p0, bbox), c.flags)
  }

  function Denormalized(cs: seq<Curve>, bbox: Rect): (r: seq<Curve>)
    ensures |r| == |cs|
    ensures forall i :: 0 <= i < |cs| ==> r[i] == DenormalizeCurve(cs[i], bbox)
  {
    if cs == [] then [] else [DenormalizeCurve(cs[0], bbox)] + Denormalized(cs[1..], bbox)
  }

  /** Normalization loses nothing: the inverse map recovers the point... */
  lemma DenormalizeNormalizePoint(p: Vec2, bbox: Rect)
    requires bbox.HasArea()
    ensures DenormalizePoint(NormalizePoint(p, bbox), bbox) == p
  {
  }

  /** ... and every point of the unit square is the image of exactly one point. */
  lemma NormalizeDenormalizePoint(q: Vec2, bbox: Rect)
    requires bbox.HasArea()
    ensures NormalizePoint(DenormalizePoint(q, bbox), bbox) == q
  {
  }

  /** `process` can be undone curve by curve, ends swapped back included. */
  lemma {:induction false} DenormalizeNormalized(cs: seq<Curve>, bbox: Rect)
    requires bbox.HasArea()
    ensures Denormalized(Normalized(cs, bbox), bbox) == cs
  {
    var r := Denormalized(Normalized(cs, bbox), bbox);
    forall i | 0 <= i < |cs|
      ensures r[i] == cs[i]
    {
      DenormalizeNormalizePoint(cs[i].p0, bbox);
      DenormalizeNormalizePoint(cs[i].p1, bbox);
      DenormalizeNormalizePoint(cs[i].p2, bbox);
    }
  }

  /** The corners of the box scale to the corners of the unit square (before the flip). */
  lemma ScaleCorners(bbox: Rect)
    requires bbox.HasArea()
    ensures Scale(bbox.Min(), bbox) == Vec2(0.0, 0.0)
    ensures Scale(Vec2(bbox.xMax as real, bbox.yMax as real), bbox) == Vec2(1.0, 1.0)
  {
    var size := bbox.Size();
    var lo := Scale(bbox.Min(), bbox);
    var hi := Scale(Vec2(bbox.xMax as real, bbox.yMax as real), bbox);
    assert lo.x * size.x == 0.0 && lo.y * size.y == 0.0;
    assert size.x == bbox.xMax as real - bbox.Min().x && size.y == bbox.yMax as real - bbox.Min().y;
    assert hi.x * size.x == size.x && hi.y * size.y == size.y;
  }

  /** A worked case: the middle of the bottom edge of a 1000x1000 box at the
      origin scales to (0.5, 0) and flips to the middle of the top edge. */
  lemma NormalizeExample()
    ensures Scale(Vec2(500.0, 0.0), Rect(0, 0, 1000, 1000)) == Vec2(0.5, 0.0)
    ensures NormalizePoint(Vec2(500.0, 0.0), Rect(0, 0, 1000, 1000)) == Vec2(0.5, 1.0)
  {
  }

  /** A point inside the box lands in the unit square, whatever the glyph. */
  lemma NormalizePointInUnitSquare(p: Vec2, bbox: Rect)
    requires bbox.xMin < bbox.xMax && bbox.yMin < bbox.yMax
    requires bbox.Contains(p)
    ensures InUnitSquare(NormalizePoint(p, bbox))
  {
    var s := Scale(p, bbox);
    assert s.x * bbox.Size().x == p.x - bbox.Min().x;
    assert s.y * bbox.Size().y == p.y - bbox.Min().y;
  }

  /** After `process`, every point of an outline drawn inside the global box
      lies in the unit square. */
  lemma NormalizedInUnitSquare(cs: seq<Curve>, bbox: Rect)
    requires bbox.xMin < bbox.xMax && bbox.yMin < bbox.yMax
    requires forall c :: c in cs ==> bbox.Contains(c.p0) && bbox.Contains(c.p1) && bbox.Contains(c.p2)
    ensures forall c :: c in Normalized(cs, bbox) ==> InUnitSquare(c.p0) && InUnitSquare(c.p1) && InUnitSquare(c.p2)
  {
    var r := Normalized(cs, bbox);
    forall c | c in r
      ensures InUnitSquare(c.p0) && InUnitSquare(c.p1) && InUnitSquare(c.p2)
    {
      var i :| 0 <= i < |r| && r[i] == c;
      NormalizePointInUnitSquare(cs[i].p0, bbox);
      NormalizePointInUnitSquare(cs[i].p1, bbox);
      NormalizePointInUnitSquare(cs[i].p2, bbox);
    }
  }

  /** Winding: the flip reverses the direction of travel and the swap of the
      ends follows it, so a chained outline is still chained, read backwards. */
  lemma NormalizedReversesChain(cs: seq<Curve>, bbox: Rect)
    requires bbox.HasArea()
    requires Chained(cs)
    ensures ChainedBackwards(Normalized(cs, bbox))
  {
  }
}
