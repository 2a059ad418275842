/** The outline builder (`impl ttf_parser::OutlineBuilder for Outline`,
    src/main.rs:73-105) and the `Outline` it fills. The font library drives it
    with path events; each sub-path becomes a chain of quadratic curves, a line
    being stored as a quadratic whose control point is the midpoint. */
module Outlines {
  import opened Geometry
  import opened Normalize
  import opened Errors

  /** One call the font library makes on the builder. */
  datatype PathEvent =
    | MoveTo(to: Vec2)
    | LineTo(to: Vec2)
    | QuadTo(ctrl: Vec2, to: Vec2)
    | CurveTo(ctrl1: Vec2, ctrl2: Vec2, to: Vec2)
    | Close

  /** `after` is `before` with its last curve completed to end at `to` (its
      start kept) and a new stub at `to` pushed behind it. */
  predicate CompletesLast(before: seq<Curve>, after: seq<Curve>, to: Vec2)
    requires before != []
  {
    var n := |before|;
    |after| == n + 1
    && after[..n - 1] == before[..n - 1]
    && after[n - 1].p0 == before[n - 1].p0
    && after[n - 1].p2 == to
    && after[n] == Stub(to)
  }

  /** What one event does to the curve list, or the panic it raises. */
  function Apply(cs: seq<Curve>, e: PathEvent): (r: Result<seq<Curve>>)
    ensures e.MoveTo? ==> r.Ok? && |r.value| == |cs| + 1 && r.value[..|cs|] == cs && r.value[|cs|] == Stub(e.to)
    ensures e.LineTo? || e.QuadTo? ==> (r.Ok? <==> cs != [])
    ensures e.LineTo? || e.QuadTo? ==> r.Err? ==> r.error == NoCurrentCurve
    ensures e.LineTo? && r.Ok? ==>
      CompletesLast(cs, r.value, e.to)
      && r.value[|cs| - 1].p1 == Midpoint(cs[|cs| - 1].p0, e.to)
      && r.value[|cs| - 1].IsLine()
      && r.value[|cs| - 1].flags / 2 == cs[|cs| - 1].flags / 2
    ensures e.QuadTo? && r.Ok? ==>
      CompletesLast(cs, r.value, e.to)
      && r.value[|cs| - 1].p1 == e.ctrl
      && r.value[|cs| - 1].flags == cs[|cs| - 1].flags
    ensures e.CurveTo? ==> r == Err(CubicCurve)
    ensures e.Close? ==> (r.Ok? <==> cs != [] && cs[|cs| - 1].IsStub())
    ensures e.Close? && r.Ok? ==> r.value == cs[..|cs| - 1]
    ensures e.Close? && r.Err? ==> r.error == if cs == [] then NoCurrentCurve else UnclosedCurve
  {
    match e
    case MoveTo(to) => Ok(cs + [Stub(to)])
    case LineTo(to) =>
      if cs == [] then Err(NoCurrentCurve)
      else
        var last := cs[|cs| - 1];
        Ok(cs[..|cs| - 1] + [last.WithP1(Midpoint(last.p0, to)).WithP2(to).SetLineFlag(), Stub(to)])
    case QuadTo(ctrl, to) =>
      if cs == [] then Err(NoCurrentCurve)
      else
        var last := cs[|cs| - 1];
        Ok(cs[..|cs| - 1] + [last.WithP1(ctrl).WithP2(to), Stub(to)])
    case CurveTo(_, _, _) => Err(CubicCurve)
    case Close =>
      if cs == [] then Err(NoCurrentCurve)
      else if cs[|cs| - 1].IsStub() then Ok(cs[..|cs| - 1])
      else Err(UnclosedCurve)
  }

  /** The events of one glyph applied in order; the first panic stops the run. */
  function Run(cs: seq<Curve>, evs: seq<PathEvent>): Result<seq<Curve>>
    decreases |evs|
  {
    if evs == [] then Ok(cs)
    else
      match Apply(cs, evs[0])
      case Err(f) => Err(f)
      case Ok(next) => Run(next, evs[1..])
  }

  /** Net change in curve count when every event succeeds: `move_to`,
      `line_to` and `quad_to` push one curve, `close` pops one. */
  function Growth(evs: seq<PathEvent>): int
  {
    if evs == [] then 0
    else (if evs[0].Close? then -1 else if evs[0].CurveTo? then 0 else 1) + Growth(evs[1..])
  }

  /** The length bookkeeping of the builder: a run that succeeds changes the
      curve count by exactly `Growth`. */
  lemma {:induction false} RunGrowth(cs: seq<Curve>, evs: seq<PathEvent>)
    ensures Run(cs, evs).Ok? ==> |Run(cs, evs).value| == |cs| + Growth(evs)
    decreases |evs|
  {
    if evs != [] {
      match Apply(cs, evs[0])
      case Err(_) =>
      case Ok(next) => RunGrowth(next, evs[1..]);
    }
  }

  /** Unfolds `Run` by one successful event. */
  lemma RunStep(cs: seq<Curve>, evs: seq<PathEvent>)
    requires evs != [] && Apply(cs, evs[0]).Ok?
    ensures Run(cs, evs) == Run(Apply(cs, evs[0]).value, evs[1..])
  {
  }

  /** Running `a` then `b` is running `a + b`. */
  lemma {:induction false} RunAppend(cs: seq<Curve>, a: seq<PathEvent>, b: seq<PathEvent>)
    ensures Run(cs, a + b) == match Run(cs, a) case Err(f) => Err(f) case Ok(next) => Run(next, b)
    decreases |a|
  {
    if a == [] {
      assert a + b == b;
    } else {
      assert (a + b)[0] == a[0];
      assert (a + b)[1..] == a[1..] + b;
      match Apply(cs, a[0])
      case Err(_) =>
      case Ok(next) => RunAppend(next, a[1..], b);
    }
  }

  /** A cubic segment anywhere in a glyph's events makes the whole glyph fatal. */
  lemma {:induction false} CubicIsFatal(cs: seq<Curve>, evs: seq<PathEvent>, k: nat)
    requires k < |evs| && evs[k].CurveTo?
    ensures Run(cs, evs).Err?
    decreases k
  {
    match Apply(cs, evs[0])
    case Err(_) =>
    case Ok(next) =>
      if k > 0 {
        CubicIsFatal(next, evs[1..], k - 1);
      }
  }

  predicate IsSegment(e: PathEvent)
  {
    e.LineTo? || e.QuadTo?
  }

  predicate AllSegments(segs: seq<PathEvent>)
  {
    forall i :: 0 <= i < |segs| ==> IsSegment(segs[i])
  }

  /** The finished curve a segment from `from` stands for, written directly:
      a line is the quadratic with its control point at the midpoint and the
      line bit set; a quadratic keeps its control point and no flag. */
  function Segment(from: Vec2, e: PathEvent): Curve
    requires IsSegment(e)
  {
    match e
    case LineTo(to) => Curve(from, Midpoint(from, to), to, 1)
    case QuadTo(ctrl, to) => Curve(from, ctrl, to, 0)
  }

  /** The curves of a sub-path starting at `from`, one per segment. */
  function Chain(from: Vec2, segs: seq<PathEvent>): (r: seq<Curve>)
    requires AllSegments(segs)
    ensures |r| == |segs|
    ensures Chained(r)
    ensures |r| > 0 ==> r[0].p0 == from
    ensures forall i :: 0 <= i < |r| ==> r[i].p2 == segs[i].to && (r[i].IsLine() <==> segs[i].LineTo?)
    decreases |segs|
  {
    if segs == [] then []
    else [Segment(from, segs[0])] + Chain(segs[0].to, segs[1..])
  }

  /** Where the pen stands after the segments. */
  function EndPoint(from: Vec2, segs: seq<PathEvent>): Vec2
    requires AllSegments(segs)
  {
    if segs == [] then from else segs[|segs| - 1].to
  }

  /** One segment turns the pending stub into its finished curve. */
  lemma ApplySegment(cs: seq<Curve>, from: Vec2, s: PathEvent)
    requires IsSegment(s)
    ensures Apply(cs + [Stub(from)], s) == Ok(cs + [Segment(from, s), Stub(s.to)])
  {
    var open := cs + [Stub(from)];
    assert open[..|cs|] == cs;
    assert open[|cs|] == Stub(from);
  }

  lemma RunSegmentStep(cs: seq<Curve>, from: Vec2, segs: seq<PathEvent>)
    requires segs != [] && IsSegment(segs[0])
    ensures Run(cs + [Stub(from)], segs) == Run(cs + [Segment(from, segs[0])] + [Stub(segs[0].to)], segs[1..])
  {
    ApplySegment(cs, from, segs[0]);
    assert cs + [Segment(from, segs[0]), Stub(segs[0].to)] == cs + [Segment(from, segs[0])] + [Stub(segs[0].to)];
    RunStep(cs + [Stub(from)], segs);
  }

  /** Each segment completes the pending stub into its curve and leaves a new
      stub at its end point. */
  lemma {:induction false} RunSegments(cs: seq<Curve>, from: Vec2, segs: seq<PathEvent>)
    requires AllSegments(segs)
    ensures Run(cs + [Stub(from)], segs) == Ok(cs + Chain(from, segs) + [Stub(EndPoint(from, segs))])
    decreases |segs|
  {
    if segs == [] {
      assert cs + Chain(from, segs) == cs;
    } else {
      var s := segs[0];
      var rest := segs[1..];
      var done := cs + [Segment(from, s)];
      RunSegmentStep(cs, from, segs);
      RunSegments(done, s.to, rest);
      assert done + Chain(s.to, rest) == cs + Chain(from, segs) by {
        assert Chain(from, segs) == [Segment(from, s)] + Chain(s.to, rest);
      }
      assert EndPoint(s.to, rest) == EndPoint(from, segs);
    }
  }

  /** One sub-path: a move, line and quadratic segments, a close. */
  datatype SubPath = SubPath(start: Vec2, segs: seq<PathEvent>)

  function SubPathEvents(sp: SubPath): seq<PathEvent>
  {
    [MoveTo(sp.start)] + sp.segs + [Close]
  }

  /** A well-formed sub-path adds exactly its chain: one curve per segment and
      no stub left behind. */
  lemma SubPathAppendsChain(cs: seq<Curve>, sp: SubPath)
    requires AllSegments(sp.segs)
    ensures Run(cs, SubPathEvents(sp)) == Ok(cs + Chain(sp.start, sp.segs))
  {
    var evs := SubPathEvents(sp);
    var tail := sp.segs + [Close];
    assert evs[1..] == tail;
    assert Apply(cs, evs[0]) == Ok(cs + [Stub(sp.start)]);
    RunAppend(cs + [Stub(sp.start)], sp.segs, [Close]);
    RunSegments(cs, sp.start, sp.segs);
    var open := cs + Chain(sp.start, sp.segs) + [Stub(EndPoint(sp.start, sp.segs))];
    assert open[..|open| - 1] == cs + Chain(sp.start, sp.segs);
  }

  /** The events of a whole glyph, sub-path after sub-path. */
  function GlyphEvents(sps: seq<SubPath>): seq<PathEvent>
  {
    if sps == [] then [] else SubPathEvents(sps[0]) + GlyphEvents(sps[1..])
  }

  /** The reference outline of a glyph: its sub-paths' chains, in order. */
  function Chains(sps: seq<SubPath>): seq<Curve>
    requires forall k :: 0 <= k < |sps| ==> AllSegments(sps[k].segs)
  {
    if sps == [] then [] else Chain(sps[0].start, sps[0].segs) + Chains(sps[1..])
  }

  function SegmentCount(sps: seq<SubPath>): nat
  {
    if sps == [] then 0 else |sps[0].segs| + SegmentCount(sps[1..])
  }

  lemma RunSubPathStep(cs: seq<Curve>, sps: seq<SubPath>)
    requires sps != [] && AllSegments(sps[0].segs)
    ensures Run(cs, GlyphEvents(sps)) == Run(cs + Chain(sps[0].start, sps[0].segs), GlyphEvents(sps[1..]))
  {
    var first := SubPathEvents(sps[0]);
    assert GlyphEvents(sps) == first + GlyphEvents(sps[1..]);
    RunAppend(cs, first, GlyphEvents(sps[1..]));
    SubPathAppendsChain(cs, sps[0]);
  }

  /** A glyph drawn with line and quadratic segments only builds exactly the
      concatenation of its sub-paths' chains; its curve count is its segment
      count. */
  lemma {:induction false} GlyphOutline(cs: seq<Curve>, sps: seq<SubPath>)
    requires forall k :: 0 <= k < |sps| ==> AllSegments(sps[k].segs)
    ensures Run(cs, GlyphEvents(sps)) == Ok(cs + Chains(sps))
    ensures |Chains(sps)| == SegmentCount(sps)
    decreases |sps|
  {
    if sps != [] {
      var next := cs + Chain(sps[0].start, sps[0].segs);
      RunSubPathStep(cs, sps);
      GlyphOutline(next, sps[1..]);
      assert Chains(sps) == Chain(sps[0].start, sps[0].segs) + Chains(sps[1..]);
      assert next + Chains(sps[1..]) == cs + Chains(sps);
    } else {
      assert cs + Chains(sps) == cs;
    }
  }

  /** A curve of a chain is a stub only when its segment ends at the origin, so
      a chain whose segments never end there holds no stub. */
  lemma ChainHasNoStub(from: Vec2, segs: seq<PathEvent>)
    requires AllSegments(segs)
    requires forall i :: 0 <= i < |segs| ==> segs[i].to != Zero
    ensures forall c :: c in Chain(from, segs) ==> !c.IsStub()
  {
    var r := Chain(from, segs);
    forall c | c in r
      ensures !c.IsStub()
    {
      var i :| 0 <= i < |r| && r[i] == c;
      assert c.p2 == segs[i].to;
    }
  }

  /** The curves of one glyph while the font library draws it. */
  class Outline {
    var curves: seq<Curve>

    /** `Outline::default()`. */
    constructor ()
      ensures curves == []
    {
      curves := [];
    }

    method MoveTo(x: real, y: real)
      modifies this
      ensures Apply(old(curves), PathEvent.MoveTo(Vec2(x, y))) == Ok(curves)
    {
      curves := curves + [Zeroed().WithP0(Vec2(x, y))];
    }

    method LineTo(x: real, y: real) returns (r: Outcome)
      modifies this
      ensures r.Pass? ==> Apply(old(curves), PathEvent.LineTo(Vec2(x, y))) == Ok(curves)
      ensures r.Fail? ==> Apply(old(curves), PathEvent.LineTo(Vec2(x, y))) == Err(r.error) && curves == old(curves)
    {
      if |curves| == 0 {
        return Fail(NoCurrentCurve);
      }
      var n := |curves|;
      var last := curves[n - 1];
      last := last.WithP1(Vec2((last.p0.x + x) * 0.5, (last.p0.y + y) * 0.5)).WithP2(Vec2(x, y)).SetLineFlag();
      curves := curves[n - 1 := last];
      curves := curves + [Zeroed().WithP0(Vec2(x, y))];
      assert curves == old(curves)[..n - 1] + [last, Stub(Vec2(x, y))];
      r := Pass;
    }

    method QuadTo(x1: real, y1: real, x: real, y: real) returns (r: Outcome)
      modifies this
      ensures r.Pass? ==> Apply(old(curves), PathEvent.QuadTo(Vec2(x1, y1), Vec2(x, y))) == Ok(curves)
      ensures r.Fail? ==> Apply(old(curves), PathEvent.QuadTo(Vec2(x1, y1), Vec2(x, y))) == Err(r.error) && curves == old(curves)
    {
      if |curves| == 0 {
        return Fail(NoCurrentCurve);
      }
      var n := |curves|;
      var last := curves[n - 1];
      last := last.WithP1(Vec2(x1, y1)).WithP2(Vec2(x, y));
      curves := curves[n - 1 := last];
      curves := curves + [Zeroed().WithP0(Vec2(x, y))];
      assert curves == old(curves)[..n - 1] + [last, Stub(Vec2(x, y))];
      r := Pass;
    }

    /** Cubic segments are not supported: always fatal, nothing changes. */
    method CurveTo(x1: real, y1: real, x2: real, y2: real, x: real, y: real) returns (r: Outcome)
      ensures r == Fail(CubicCurve)
      ensures Apply(curves, PathEvent.CurveTo(Vec2(x1, y1), Vec2(x2, y2), Vec2(x, y))) == Err(r.error)
    {
      r := Fail(CubicCurve);
    }

    method Close() returns (r: Outcome)
      modifies this
      ensures r.Pass? ==> Apply(old(curves), PathEvent.Close) == Ok(curves)
      ensures r.Fail? ==> Apply(old(curves), PathEvent.Close) == Err(r.error) && curves == old(curves)
    {
      if |curves| == 0 {
        return Fail(NoCurrentCurve);
      }
      var last := curves[|curves| - 1];
      if !(last.p1 == Zero && last.p2 == Zero) {
        return Fail(UnclosedCurve);
      }
      curves := curves[..|curves| - 1];
      r := Pass;
    }

    /** `Outline::process`: every point rescaled against the global box and
        flipped, then `p0` and `p2` swapped, curve by curve in place. */
    method Process(bbox: Rect)
      requires bbox.HasArea()
      modifies this
      ensures curves == Normalized(old(curves), bbox)
      ensures |curves| == |old(curves)|
      ensures forall i :: 0 <= i < |curves| ==>
        var was := old(curves)[i];
        curves[i].flags == was.flags
        && curves[i].p0 == NormalizePoint(was.p2, bbox)
        && curves[i].p1 == NormalizePoint(was.p1, bbox)
        && curves[i].p2 == NormalizePoint(was.p0, bbox)
    {
      var bboxMin := bbox.Min();
      var bboxSize := bbox.Size();
      var i := 0;
      while i < |curves|
        invariant 0 <= i <= |curves| == |old(curves)|
        invariant forall k :: 0 <= k < i ==> curves[k] == NormalizeCurve(old(curves)[k], bbox)
        invariant forall k :: i <= k < |curves| ==> curves[k] == old(curves)[k]
      {
        var c := curves[i];
        var p0 := Vec2(c.p0.x - bboxMin.x, c.p0.y - bboxMin.y);
        var p1 := Vec2(c.p1.x - bboxMin.x, c.p1.y - bboxMin.y);
        var p2 := Vec2(c.p2.x - bboxMin.x, c.p2.y - bboxMin.y);
        p0 := Vec2(p0.x / bboxSize.x, p0.y / bboxSize.y);
        p1 := Vec2(p1.x / bboxSize.x, p1.y / bboxSize.y);
        p2 := Vec2(p2.x / bboxSize.x, p2.y / bboxSize.y);
        p0 := Vec2(p0.x, 1.0 - p0.y);
        p1 := Vec2(p1.x, 1.0 - p1.y);
        p2 := Vec2(p2.x, 1.0 - p2.y);
        p0, p2 := p2, p0;
        curves := curves[i := Curve(p0, p1, p2, c.flags)];
        i := i + 1;
      }
      assert curves == Normalized(old(curves), bbox);
    }
  }
}
