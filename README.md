# Glyph atlas generator: a verified model

This project models the core of `bigtime-data`, a tool that turns the outlines
of a font into three flat buffers for a GPU glyph renderer:

- **Geometry**: the `Curve` record. It holds three points and a `u32` flag word whose bit 0 marks a line. It also has its pure update helpers.
- **Outlines**: the outline builder. The font library drives it with `move_to`, `line_to`, `quad_to`, `curve_to` and `close` events. It keeps a growing list of quadratic curves, and the curve at the end of the list is the pending "stub". The class `Outline` keeps that list as a `seq<Curve>` field, and its methods update the field in place. Each method is proved against `Apply`, a pure function that gives the effect of one event. `Run` folds `Apply` over the events of a glyph. The lemmas compare `Run` with an independent reference, `Chain`, which builds the finished curves of a sub-path directly.
- **Normalize**: `Outline::process`, which works in place. It rescales every point against the font's global bounding box, flips y and swaps `p0` with `p2`. The method is proved against `Normalized`. The lemmas cover the inverse map, the corners, the unit square and the winding.
- **Atlas**: passes 2 and 3 of `main`. Pass 2 walks the code points `0..n` and builds the glyph, info and metrics buffers plus the fallback marks. Pass 3 copies the records of U+FFFD over every marked entry. Both passes are loops over local vectors, written as methods whose loops append to or index into `seq` locals. They are proved against per-code-point reference functions (`CurvesBefore`, `InfoFor`, `MetricsFor`, `MarkedFor`).

Every panic in the modelled code (the outline builder, and passes 2 and 3 of
`main`) is returned as a `Fatal` value rather than excluded by a precondition:
- a cubic segment;
- `unwrap` on an empty outline;
- the failed stub assertion in `close`;
- a buffer position that does not fit in `u32`;
- indexing the tables at U+FFFD when they are too short.

When one of these panics happens the state is left as it was, because the
program panics before it changes anything. The panics of font parsing and of
the file output (src/main.rs:146-150, 172) lie outside the model. `f32` coordinates are modelled as `real`.

`close` requires the trailing curve to be the pending stub (`p1 == p2 == 0`)
and pops it; an empty outline is fatal (`NoCurrentCurve`), and so is any other
trailing curve (`UnclosedCurve`).

## Model

| member | source | states |
|---|---|---|
| `Geometry.Midpoint` | src/main.rs:81 | the control point of a line lies halfway between its ends, in both coordinates |
| `Geometry.Curve.WithP0` | src/main.rs:16-18 | replaces `p0` only; `p1`, `p2` and the flags are kept |
| `Geometry.Curve.WithP1` | src/main.rs:20-22 | replaces `p1` only |
| `Geometry.Curve.WithP2` | src/main.rs:24-26 | replaces `p2` only |
| `Geometry.Curve.SetLineFlag` | src/main.rs:28-33 | `flags OR 1` sets the line bit, keeps all other bits and every point, and is the identity on a curve that already has the bit (the OR is idempotent) |
| `Geometry.Zeroed` | src/main.rs:35-42 | all points zero and flags 0, so the curve is a stub |
| `Geometry.Curve.IsStub` | src/main.rs:100-101 | the stub test of `close` holds iff both coordinates of `p1` and of `p2` are zero |
| `Geometry.Stub` | src/main.rs:75 | `Curve::zeroed().with_p0(p)` starts at `p`, is a stub and is not a line |
| `Outlines.Apply` | src/main.rs:73-105 | `move_to` appends exactly one stub at `(x,y)` and keeps every earlier curve; `line_to` and `quad_to` fail with no current curve iff the outline is empty; otherwise they keep every curve but the last, keep the last curve's start, end it at `(x,y)` and push a stub at `(x,y)`, so the length grows by one; a line's control point is the midpoint and it sets the line bit while keeping the other bits; a quad's control point is `(x1,y1)` and it keeps the flags; `curve_to` is always fatal; `close` succeeds iff the last curve exists and is a stub, and then removes exactly that curve; otherwise it fails with the matching error |
| `Outlines.Outline.constructor` | src/main.rs:45-48 | `Outline::default()` holds no curves |
| `Outlines.Outline.MoveTo` | src/main.rs:74-76 | the new curve list is `Apply` of `move_to` on the old one |
| `Outlines.Outline.LineTo` | src/main.rs:78-85 | in-place update agrees with `Apply` of `line_to`; on failure nothing changes |
| `Outlines.Outline.QuadTo` | src/main.rs:87-91 | in-place update agrees with `Apply` of `quad_to`; on failure nothing changes |
| `Outlines.Outline.CurveTo` | src/main.rs:93-95 | always fails with `CubicCurve` and changes nothing |
| `Outlines.Outline.Close` | src/main.rs:97-104 | in-place update agrees with `Apply` of `close`; on failure nothing changes |
| `Outlines.RunGrowth` | src/main.rs:73-105 | `Run`, the fold of the builder over a glyph's events: when it succeeds, every `move_to`, `line_to` and `quad_to` added one curve and every `close` removed one, so the count changes by exactly `Growth` |
| `Outlines.RunAppend` | src/main.rs:73-105 | feeding the builder `a` then `b` is feeding it `a + b`; a panic in `a` ends the run |
| `Outlines.CubicIsFatal` | src/main.rs:93-95 | a glyph with a cubic segment anywhere never builds successfully |
| `Outlines.Chain` | src/main.rs:78-91 | the reference curves of a sub-path: one per segment; consecutive curves join; the first starts at the move-to point; each ends at its segment's end point and carries the line bit iff its segment is a line |
| `Outlines.ApplySegment` | src/main.rs:78-91 | one `line_to`/`quad_to` turns the pending stub into exactly the reference curve of its segment and pushes a stub at its end |
| `Outlines.RunSegments` | src/main.rs:74-91 | after a stub at `from`, k segments append exactly the reference chain and leave one stub at the last end point |
| `Outlines.SubPathAppendsChain` | src/main.rs:74-104 | `move_to`, k `line_to`/`quad_to`, `close` appends exactly the k curves of the chain and leaves no trailing stub |
| `Outlines.GlyphOutline` | src/main.rs:73-105 | a glyph of several sub-paths builds the concatenation of their chains; its curve count is its total segment count (sub-paths of 3 and 4 segments give 7 curves) |
| `Outlines.ChainHasNoStub` | src/main.rs:97-104 | a chain whose segments never end at the origin contains no stub-shaped curve |
| `Outlines.Outline.Process` | src/main.rs:51-70 | keeps the curve count and every curve's flags; the new `p0` is the normalized old `p2`, the new `p2` the normalized old `p0`, `p1` is normalized in place |
| `Normalize.Rect.Min` | src/main.rs:52 | the min corner of the box, which lies in the box whenever the box is well-formed |
| `Normalize.Rect.Size` | src/main.rs:53 | width and height: min corner plus size is the max corner, and both are non-zero iff the box has area |
| `Normalize.Scale` | src/main.rs:57-62 | subtracting the min corner and dividing by the size: the result times the size is the offset from the min corner, per axis |
| `Normalize.Flip` | src/main.rs:65-67 | `y` becomes `1 - y` and `x` is kept; the flip keeps `[0,1]` |
| `Normalize.NormalizePoint` | src/main.rs:57-67 | scaled `x` times the width is the offset from the min corner; `1 - y` times the height is the `y` offset |
| `Normalize.NormalizeCurve` | src/main.rs:57-68 | one loop iteration: every point normalized, `p0` and `p2` swapped, flags kept |
| `Normalize.Normalized` | src/main.rs:55-69 | the outline after `process` has as many curves as before, and each is its original, normalized |
| `Normalize.DenormalizeNormalizePoint` | src/main.rs:56-67 | scale then flip is undone by the inverse map: no point is lost |
| `Normalize.NormalizeDenormalizePoint` | src/main.rs:56-67 | every point of the target square is reached by exactly one font-space point |
| `Normalize.DenormalizeNormalized` | src/main.rs:51-70 | `process` is invertible on whole outlines, the swap of the ends included |
| `Normalize.ScaleCorners` | src/main.rs:56-62 | the box's min corner scales to (0,0) and its max corner to (1,1), before the flip |
| `Normalize.NormalizePointInUnitSquare` | src/main.rs:56-67 | a point inside the global box lands in the unit square after scaling and flipping |
| `Normalize.NormalizedInUnitSquare` | src/main.rs:51-70 | after `process`, every point of an outline drawn inside the global box lies in the unit square |
| `Normalize.NormalizedReversesChain` | src/main.rs:64-68 | flip plus end swap: a chained outline is still chained after `process`, read in the opposite direction |
| `Normalize.NormalizeExample` | src/main.rs:56-67 | (500,0) in a 1000x1000 box at the origin scales to (0.5,0) and flips to (0.5,1) |
| `Atlas.CurvesBeforePrefix` | src/main.rs:202 | the glyph buffer only grows: each earlier state is a prefix of each later one |
| `Atlas.IsScalarValue` | src/main.rs:191 | `char::from_u32` succeeds iff `u` is at most 0x10FFFF and not a surrogate: every scalar value is below 0x110000, no surrogate is one, and every value below 0xD800 is one |
| `Atlas.AssembleTables` | src/main.rs:183-215 | pass 2 fails iff the final buffer would exceed `u32::MAX` curves; otherwise info, metrics and marks hold exactly one record per code point, at the index of that code point, as `InfoFor`/`MetricsFor`/`MarkedFor` give, and the glyph buffer is the concatenation of the outlines in code-point order |
| `Atlas.InfoSlice` | src/main.rs:199-202 | for a glyph with an outline, `start` is the buffer length before it, `end - start` is its curve count, and the buffer slice `[start,end)` is exactly its curves |
| `Atlas.InfoRangesOrdered` | src/main.rs:199-202 | outline slices are ascending in code-point order and never overlap |
| `Atlas.InfoRangesCover` | src/main.rs:198-207 | every buffer position lies in some glyph's slice, so the slices tile the buffer |
| `Atlas.Pass2Entry` | src/main.rs:188-214 | a value that is not a scalar value gets a zeroed info, a zeroed metric and no mark; a missing scalar value gets zeroed records and is marked iff it is alphanumeric; a shapeless glyph gets `[0,0)` and its own metrics, unmarked |
| `Atlas.PatchFallback` | src/main.rs:217-222 | pass 3 fails iff the tables do not reach U+FFFD and some entry is marked; otherwise every marked entry equals the pass-2 record of U+FFFD, every unmarked entry is unchanged, and the U+FFFD entry itself is unchanged (fallback is never recursive) |
| `Atlas.BuildAtlas` | src/main.rs:183-222 | passes 2 and 3 together: success conditions, and every final record equals `FinalInfo`/`FinalMetrics` of its code point |
| `Atlas.FullRangeBuilds` | src/main.rs:155-156 | over the program's range `0..=char::MAX`, which passes U+FFFD, the assembly fails only when the glyph buffer is too long for `u32` |
| `Atlas.FinalInfoInBuffer` | src/main.rs:199-220 | whenever the assembly succeeds, every final info record, fallback copies included, is a slice `start <= end` inside the final glyph buffer, whose length fits in `u32` |
| `Atlas.FallbackCopiesReplacement` | src/main.rs:210-222 | an alphanumeric code point missing from the font ends with exactly the final records of U+FFFD |
| `Atlas.BlankEntries` | src/main.rs:188-214 | values that are not scalar values end blank: `[0,0)` and advance 0; missing code points that are not alphanumeric end blank too |

## Left out

- Buffer Encoder: `write_buffer_data` (src/main.rs:145-151) and its three calls are not modelled. They create files and dump raw `repr(C, align(16))` memory, and that byte layout is a property of the compiler.
- Command-line handling, the directory check and the size printout (src/main.rs:159-169, 224-229) are not modelled. They are I/O.
- Font parsing and lookup are not modelled: `Face::parse`, `glyph_index`, `glyph_hor_advance`, `outline_glyph` and `global_bounding_box`. They are calls into `ttf_parser`.
- Pass 1 and `get_glyph_data` (src/main.rs:123-136, 174-181) are not modelled. Their result, the `HashMap` from character to glyph data, is the `Font` input of `Atlas`. The advance ratio computed there belongs to that input.
- `Outlines.Run` stands in for the order in which `ttf_parser` calls the builder. Which events a real font produces is not modelled.
- `char::is_alphanumeric` depends on Unicode tables, so it is a function parameter of the assembler.
- The code-point range `0..=0x10FFFF` is the parameter `n`. The program uses `n = CodePointCount` (0x110000), which is above U+FFFD, so the `IndexOutOfBounds` case cannot occur there.
- Exact `f32` rounding is not modelled. Coordinates, the midpoint, the normalization divisions and the advance are `real`, so no IEEE result is claimed. The stub test in `close` compares floats with `==`, which the model takes as exact equality with zero.
- Outlines.Outline.Process: requires a bounding box of non-zero width and height. With `f32`, a degenerate box would produce infinities or NaN, and that case is not modelled. The box sides are mathematical integers, so a wrapping `i16` `width()`/`height()` is not modelled either.
- Atlas.AssembleTables: an `info.end` that exceeds `u32::MAX` is fatal, which is what a build with overflow checks does. A build without overflow checks wraps `start + len` silently and panics only if a later glyph with an outline follows, because its `u32::try_from(glyph_buffer.len())` then fails; otherwise the wrapped `end` is written. That wrap is not modelled.
- Outlines.ChainHasNoStub: a completed curve that ends at the origin with its control point at the origin looks like a stub. Examples are `quad_to(0,0,0,0)`, or `line_to(0,0)` from the origin. A second `close` would then pop that curve. The lemma therefore assumes that no segment ends at the origin, which is weaker than "no completed curve is ever a stub".
