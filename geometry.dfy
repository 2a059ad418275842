/** Points and curve records of the glyph buffer (`Curve` in src/main.rs).
    Coordinates are `f32` in the program and `real` here. */
module Geometry {

  datatype Vec2 = Vec2(x: real, y: real)

  const Zero: Vec2 := Vec2(0.0, 0.0)

  function Midpoint(a: Vec2, b: Vec2): (m: Vec2)
    ensures m.x - a.x == b.x - m.x && m.y - a.y == b.y - m.y
  {
    Vec2((a.x + b.x) * 0.5, (a.y + b.y) * 0.5)
  }

  /** A `u32`; the bit operations on it are written as arithmetic. */
  type U32 = x: nat | x < 0x1_0000_0000

  /** One quadratic Bézier segment: start `p0`, control `p1`, end `p2`. */
  datatype Curve = Curve(p0: Vec2, p1: Vec2, p2: Vec2, flags: U32)
  {
    function WithP0(p: Vec2): (r: Curve)
      ensures r.p0 == p && r.p1 == p1 && r.p2 == p2 && r.flags == flags
    {
      this.(p0 := p)
    }

    function WithP1(p: Vec2): (r: Curve)
      ensures r.p0 == p0 && r.p1 == p && r.p2 == p2 && r.flags == flags
    {
      this.(p1 := p)
    }

    function WithP2(p: Vec2): (r: Curve)
      ensures r.p0 == p0 && r.p1 == p1 && r.p2 == p && r.flags == flags
    {
      this.(p2 := p)
    }

    /** `flags | 1`: sets bit 0 of `flags`, the line bit; keeps every other
        bit and every point, and changes nothing when the bit is already set. */
    function SetLineFlag(): (r: Curve)
      ensures r.IsLine()
      ensures r.flags / 2 == flags / 2
      ensures r.p0 == p0 && r.p1 == p1 && r.p2 == p2
      ensures IsLine() ==> r == this
    {
      this.(flags := if flags % 2 == 1 then flags else flags + 1)
    }

    predicate IsLine()
    {
      flags % 2 == 1
    }

    /** A curve whose end has not been drawn yet: control and end point are zero. */
    predicate IsStub(): (b: bool)
      ensures b <==> p1.x == 0.0 && p1.y == 0.0 && p2.x == 0.0 && p2.y == 0.0
    {
      p1 == Zero && p2 == Zero
    }
  }

  function Zeroed(): (c: Curve)
    ensures c.p0 == Zero && c.IsStub() && c.flags == 0
  {
    Curve(Zero, Zero, Zero, 0)
  }

  /** The pending curve pushed by every builder event: `Curve::zeroed().with_p0(p)`. */
  function Stub(p: Vec2): (c: Curve)
    ensures c.p0 == p && c.IsStub() && c.flags == 0 && !c.IsLine()
  {
    Zeroed().WithP0(p)
  }

  /** Consecutive curves join: each one ends where the next one starts. */
  predicate Chained(cs: seq<Curve>)
  {
    forall i :: 0 <= i < |cs| - 1 ==> cs[i].p2 == cs[i + 1].p0
  }

  /** The same, read backwards: each curve ends where the previous one starts. */
  predicate ChainedBackwards(cs: seq<Curve>)
  {
    forall i :: 0 <= i < |cs| - 1 ==> cs[i + 1].p2 == cs[i].p0
  }
}
