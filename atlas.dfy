/** The glyph table assembler of `main` (src/main.rs:183-222): pass 2 walks
    the whole code-point range and builds the dense glyph, info and metrics
    buffers; pass 3 copies the replacement character's records over every
    entry marked for fallback. Pass 1 (the font lookups, src/main.rs:174-181)
    is an input: a map from code point to the glyph data it produced. */
module Atlas {
  import opened Geometry
  import opened Errors

  const U32Max: nat := 0xFFFF_FFFF

  /** `REPLACEMENT_CHARACTER`, U+FFFD. */
  const ReplacementCharacter: nat := 0xFFFD

  /** Size of `RANGE`, `char::MIN as u32..=char::MAX as u32`. */
  const CodePointCount: nat := 0x11_0000

  /** `[start, end)` into the glyph buffer; `[0, 0)` draws nothing. */
  datatype GlyphInfo = GlyphInfo(start: nat, end: nat)

  /** `GlyphInfo::default()`. */
  const EmptyInfo: GlyphInfo := GlyphInfo(0, 0)

  datatype Metrics = Metrics(advance: real)

  /** `Metrics::default()`. */
  const ZeroMetrics: Metrics := Metrics(0.0)

  /** What pass 1 found for one code point: its normalized outline, if the
      glyph has one, and its metrics. */
  datatype GlyphData = GlyphData(outline: Option<seq<Curve>>, metrics: Metrics)

  /** The result of pass 1: `map`, keyed by code point. */
  type Font = map<nat, GlyphData>

  /** `char::from_u32(u).is_some()`: `u` is a Unicode scalar value, that is not
      a surrogate and not above U+10FFFF (definition D76 in section 3.9 of the
      Unicode Standard). */
  predicate IsScalarValue(u: nat): (b: bool)
    ensures b ==> u < CodePointCount
    ensures 0xD800 <= u < 0xE000 ==> !b
    ensures u < 0xD800 ==> b
  {
    u <= 0x10_FFFF && !(0xD800 <= u <= 0xDFFF)
  }

  /** What `map.get(&c)` yields in pass 2: nothing for a value that is not a
      scalar value, since such a value never reaches the lookup. */
  function Lookup(font: Font, u: nat): Option<GlyphData>
  {
    if IsScalarValue(u) && u in font then Some(font[u]) else None
  }

  predicate HasOutline(font: Font, u: nat)
  {
    Lookup(font, u).Some? && Lookup(font, u).value.outline.Some?
  }

  /** The curves pass 2 appends for `u`. */
  function OutlineAt(font: Font, u: nat): seq<Curve>
  {
    if HasOutline(font, u) then Lookup(font, u).value.outline.value else []
  }

  /** The glyph buffer once every code point below `k` is done. */
  function CurvesBefore(font: Font, k: nat): seq<Curve>
  {
    if k == 0 then [] else CurvesBefore(font, k - 1) + OutlineAt(font, k - 1)
  }

  /** The info record pass 2 emits for `u`. */
  function InfoFor(font: Font, u: nat): GlyphInfo
  {
    if HasOutline(font, u) then
      GlyphInfo(|CurvesBefore(font, u)|, |CurvesBefore(font, u)| + |OutlineAt(font, u)|)
    else EmptyInfo
  }

  /** The metrics record pass 2 emits for `u`. */
  function MetricsFor(font: Font, u: nat): Metrics
  {
    if Lookup(font, u).Some? then Lookup(font, u).value.metrics else ZeroMetrics
  }

  /** Pass 2 marks `u` for fallback: a scalar value missing from the font
      that is alphanumeric. */
  predicate MarkedFor(font: Font, isAlphanumeric: nat -> bool, u: nat)
  {
    IsScalarValue(u) && u !in font && isAlphanumeric(u)
  }

  /** The three buffers and the fallback marks. */
  datatype Tables = Tables(glyphs: seq<Curve>, info: seq<GlyphInfo>, metrics: seq<Metrics>, replace: seq<bool>)

  /** `t` holds one record per code point below `n`, index = code point. */
  predicate IsPass2(t: Tables, font: Font, isAlphanumeric: nat -> bool, n: nat)
  {
    t.glyphs == CurvesBefore(font, n)
    && |t.info| == n && |t.metrics| == n && |t.replace| == n
    && forall u :: 0 <= u < n ==>
         t.info[u] == InfoFor(font, u)
         && t.metrics[u] == MetricsFor(font, u)
         && t.replace[u] == MarkedFor(font, isAlphanumeric, u)
  }

  /** Earlier glyph buffers are prefixes of later ones. */
  lemma {:induction false} CurvesBeforePrefix(font: Font, k: nat, m: nat)
    requires k <= m
    ensures |CurvesBefore(font, k)| <= |CurvesBefore(font, m)|
    ensures CurvesBefore(font, m)[..|CurvesBefore(font, k)|] == CurvesBefore(font, k)
    decreases m
  {
    if k < m {
      CurvesBeforePrefix(font, k, m - 1);
      var a := CurvesBefore(font, k);
      var b := CurvesBefore(font, m - 1);
      assert (b + OutlineAt(font, m - 1))[..|a|] == b[..|a|];
    }
  }

  /** Pass 2 (src/main.rs:183-215). A buffer position that does not fit in a
      u32 is fatal: `u32::try_from(..).unwrap()` and the checked `+` of
      `info.end` both fail exactly when the buffer would grow past `U32Max`. */
  method AssembleTables(font: Font, isAlphanumeric: nat -> bool, n: nat) returns (r: Result<Tables>)
    ensures r.Ok? <==> |CurvesBefore(font, n)| <= U32Max
    ensures r.Ok? ==> IsPass2(r.value, font, isAlphanumeric, n)
    ensures r.Err? ==> r.error == IndexOverflow
  {
    var glyphBuffer: seq<Curve> := [];
    var infoBuffer: seq<GlyphInfo> := [];
    var metricsBuffer: seq<Metrics> := [];
    var replace: seq<bool> := [];
    var u := 0;
    while u < n
      invariant u <= n
      invariant glyphBuffer == CurvesBefore(font, u)
      invariant |glyphBuffer| <= U32Max
      invariant |infoBuffer| == u && |metricsBuffer| == u && |replace| == u
      invariant forall v :: 0 <= v < u ==>
        infoBuffer[v] == InfoFor(font, v)
        && metricsBuffer[v] == MetricsFor(font, v)
        && replace[v] == MarkedFor(font, isAlphanumeric, v)
    {
      var info := EmptyInfo;
      var metrics := ZeroMetrics;
      if !IsScalarValue(u) {
        metricsBuffer := metricsBuffer + [metrics];
        infoBuffer := infoBuffer + [info];
        replace := replace + [false];
        u := u + 1;
        continue;
      }
      var shouldReplaceMissing := isAlphanumeric(u);
      if u in font {
        var data := font[u];
        if data.outline.Some? {
          var outline := data.outline.value;
          if |glyphBuffer| + |outline| > U32Max {
            CurvesBeforePrefix(font, u + 1, n);
            return Err(IndexOverflow);
          }
          info := GlyphInfo(|glyphBuffer|, |glyphBuffer| + |outline|);
          glyphBuffer := glyphBuffer + outline;
        } else {
          info := GlyphInfo(0, 0);
        }
        metrics := data.metrics;
        replace := replace + [false];
      } else {
        replace := replace + [shouldReplaceMissing];
      }
      metricsBuffer := metricsBuffer + [metrics];
      infoBuffer := infoBuffer + [info];
      u := u + 1;
    }
    r := Ok(Tables(glyphBuffer, infoBuffer, metricsBuffer, replace));
  }

  /** A glyph with an outline owns the slice `[start, end)` of the final
      buffer: `start` is the buffer length before it, the slice is exactly
      its curves. */
  lemma {:induction false} InfoSlice(font: Font, n: nat, u: nat)
    requires u < n && HasOutline(font, u)
    ensures InfoFor(font, u).start == |CurvesBefore(font, u)|
    ensures InfoFor(font, u).end - InfoFor(font, u).start == |OutlineAt(font, u)|
    ensures InfoFor(font, u).end <= |CurvesBefore(font, n)|
    ensures CurvesBefore(font, n)[InfoFor(font, u).start..InfoFor(font, u).end] == OutlineAt(font, u)
  {
    CurvesBeforePrefix(font, u + 1, n);
    var before := CurvesBefore(font, u);
    var after := CurvesBefore(font, u + 1);
    assert after[|before|..] == OutlineAt(font, u);
  }

  /** Slices are handed out in code-point order and never overlap. */
  lemma InfoRangesOrdered(font: Font, u: nat, v: nat)
    requires u < v && HasOutline(font, u) && HasOutline(font, v)
    ensures InfoFor(font, u).end <= InfoFor(font, v).start
  {
    CurvesBeforePrefix(font, u + 1, v);
  }

  /** Every position of the buffer belongs to some glyph's slice, so the
      slices tile the buffer exactly. */
  lemma {:induction false} InfoRangesCover(font: Font, n: nat, j: nat)
    requires j < |CurvesBefore(font, n)|
    ensures exists u ::
              0 <= u < n && HasOutline(font, u) && InfoFor(font, u).start <= j < InfoFor(font, u).end
    decreases n
  {
    if j < |CurvesBefore(font, n - 1)| {
      InfoRangesCover(font, n - 1, j);
    } else {
      assert HasOutline(font, n - 1);
      assert InfoFor(font, n - 1).start <= j < InfoFor(font, n - 1).end;
    }
  }

  /** What pass 2 emits for each kind of code point. */
  lemma Pass2Entry(font: Font, isAlphanumeric: nat -> bool, u: nat)
    ensures !IsScalarValue(u) ==>
      InfoFor(font, u) == EmptyInfo && MetricsFor(font, u) == ZeroMetrics && !MarkedFor(font, isAlphanumeric, u)
    ensures IsScalarValue(u) && u !in font ==>
      InfoFor(font, u) == EmptyInfo && MetricsFor(font, u) == ZeroMetrics
      && (MarkedFor(font, isAlphanumeric, u) <==> isAlphanumeric(u))
    ensures IsScalarValue(u) && u in font ==>
      MetricsFor(font, u) == font[u].metrics && !MarkedFor(font, isAlphanumeric, u)
      && (font[u].outline.None? ==> InfoFor(font, u) == EmptyInfo)
  {
  }

  /** Pass 3 (src/main.rs:217-222): every marked entry takes the records at
      U+FFFD. Indexing the tables at U+FFFD panics when they are shorter. */
  method PatchFallback(t: Tables) returns (r: Result<Tables>)
    requires |t.info| == |t.replace| && |t.metrics| == |t.replace|
    ensures r.Err? <==> ReplacementCharacter >= |t.replace| && true in t.replace
    ensures r.Err? ==> r.error == IndexOutOfBounds
    ensures r.Ok? ==>
      r.value.glyphs == t.glyphs && r.value.replace == t.replace
      && |r.value.info| == |t.info| && |r.value.metrics| == |t.metrics|
    ensures r.Ok? ==> forall i :: 0 <= i < |t.replace| && t.replace[i] ==>
      r.value.info[i] == t.info[ReplacementCharacter] && r.value.metrics[i] == t.metrics[ReplacementCharacter]
    ensures r.Ok? ==> forall i :: 0 <= i < |t.replace| && !t.replace[i] ==>
      r.value.info[i] == t.info[i] && r.value.metrics[i] == t.metrics[i]
    ensures r.Ok? && ReplacementCharacter < |t.replace| ==>
      r.value.info[ReplacementCharacter] == t.info[ReplacementCharacter]
      && r.value.metrics[ReplacementCharacter] == t.metrics[ReplacementCharacter]
  {
    var info := t.info;
    var metrics := t.metrics;
    var i := 0;
    while i < |t.replace|
      invariant i <= |t.replace|
      invariant |info| == |t.info| && |metrics| == |t.metrics|
      invariant ReplacementCharacter >= |t.replace| ==> forall k :: 0 <= k < i ==> !t.replace[k]
      invariant ReplacementCharacter < |t.replace| ==>
        info[ReplacementCharacter] == t.info[ReplacementCharacter]
        && metrics[ReplacementCharacter] == t.metrics[ReplacementCharacter]
      invariant forall k :: 0 <= k < i && t.replace[k] ==>
        ReplacementCharacter < |t.replace|
        && info[k] == t.info[ReplacementCharacter] && metrics[k] == t.metrics[ReplacementCharacter]
      invariant forall k :: 0 <= k < |t.replace| && !(k < i && t.replace[k]) ==>
        info[k] == t.info[k] && metrics[k] == t.metrics[k]
    {
      if t.replace[i] {
        if ReplacementCharacter >= |info| {
          return Err(IndexOutOfBounds);
        }
        info := info[i := info[ReplacementCharacter]];
        metrics := metrics[i := metrics[ReplacementCharacter]];
      }
      i := i + 1;
    }
    r := Ok(Tables(t.glyphs, info, metrics, t.replace));
  }

  /** The final info record of `u`: its own, or the one of U+FFFD when `u`
      is marked for fallback. */
  function FinalInfo(font: Font, isAlphanumeric: nat -> bool, u: nat): GlyphInfo
  {
    if MarkedFor(font, isAlphanumeric, u) then InfoFor(font, ReplacementCharacter) else InfoFor(font, u)
  }

  function FinalMetrics(font: Font, isAlphanumeric: nat -> bool, u: nat): Metrics
  {
    if MarkedFor(font, isAlphanumeric, u) then MetricsFor(font, ReplacementCharacter) else MetricsFor(font, u)
  }

  /** When passes 2 and 3 over the code points below `n` succeed: every
      buffer position fits in a u32, and the tables reach U+FFFD whenever some
      entry needs it. */
  predicate AtlasBuilds(font: Font, isAlphanumeric: nat -> bool, n: nat)
  {
    |CurvesBefore(font, n)| <= U32Max
    && (n <= ReplacementCharacter ==> forall u :: 0 <= u < n ==> !MarkedFor(font, isAlphanumeric, u))
  }

  /** Passes 2 and 3 over the code points below `n`. */
  method BuildAtlas(font: Font, isAlphanumeric: nat -> bool, n: nat) returns (r: Result<Tables>)
    ensures r.Ok? <==> AtlasBuilds(font, isAlphanumeric, n)
    ensures r.Ok? ==>
      r.value.glyphs == CurvesBefore(font, n) && |r.value.info| == n && |r.value.metrics| == n
      && forall u :: 0 <= u < n ==>
           r.value.info[u] == FinalInfo(font, isAlphanumeric, u)
           && r.value.metrics[u] == FinalMetrics(font, isAlphanumeric, u)
  {
    var pass2 := AssembleTables(font, isAlphanumeric, n);
    if pass2.Err? {
      return pass2;
    }
    var t := pass2.value;
    if n <= ReplacementCharacter && true in t.replace {
      var k :| 0 <= k < n && t.replace[k];
      assert MarkedFor(font, isAlphanumeric, k);
    }
    r := PatchFallback(t);
    if r.Ok? {
      forall u | 0 <= u < n
        ensures r.value.info[u] == FinalInfo(font, isAlphanumeric, u)
        ensures r.value.metrics[u] == FinalMetrics(font, isAlphanumeric, u)
      {
        assert t.replace[u] == MarkedFor(font, isAlphanumeric, u);
      }
    }
  }

  /** An alphanumeric code point missing from the font ends up with exactly
      the records of U+FFFD, which fallback never changes. */
  lemma FallbackCopiesReplacement(font: Font, isAlphanumeric: nat -> bool, u: nat)
    requires IsScalarValue(u) && u !in font && isAlphanumeric(u)
    ensures FinalInfo(font, isAlphanumeric, u) == FinalInfo(font, isAlphanumeric, ReplacementCharacter)
    ensures FinalMetrics(font, isAlphanumeric, u) == FinalMetrics(font, isAlphanumeric, ReplacementCharacter)
  {
  }

  /** A missing code point that is not alphanumeric, and any value that is
      not a scalar value, stays blank: `[0, 0)` and advance 0. */
  lemma BlankEntries(font: Font, isAlphanumeric: nat -> bool, u: nat)
    requires !IsScalarValue(u) || (u !in font && !isAlphanumeric(u))
    ensures FinalInfo(font, isAlphanumeric, u) == EmptyInfo
    ensures FinalMetrics(font, isAlphanumeric, u) == ZeroMetrics
  {
  }

  /** Over the program's full range the tables always reach U+FFFD, so the
      only way the assembly can fail is a glyph buffer too long for u32. */
  lemma FullRangeBuilds(font: Font, isAlphanumeric: nat -> bool)
    ensures AtlasBuilds(font, isAlphanumeric, CodePointCount) <==> |CurvesBefore(font, CodePointCount)| <= U32Max
  {
  }

  /** Every final info record, fallback copies included, is a valid slice of
      the final glyph buffer whose bounds fit in a u32. */
  lemma FinalInfoInBuffer(font: Font, isAlphanumeric: nat -> bool, n: nat, u: nat)
    requires AtlasBuilds(font, isAlphanumeric, n) && u < n
    ensures FinalInfo(font, isAlphanumeric, u).start <= FinalInfo(font, isAlphanumeric, u).end
    ensures FinalInfo(font, isAlphanumeric, u).end <= |CurvesBefore(font, n)| <= U32Max
  {
    var v := if MarkedFor(font, isAlphanumeric, u) then ReplacementCharacter else u;
    assert v < n;
    if HasOutline(font, v) {
      InfoSlice(font, n, v);
    }
  }
}
