/** Small pieces of ui.c's layout and parameter logic: `validate_ui_parameters`,
    `table_skip_rows` and `clamp_text_to_width`. Glyph widths are given as integers, one per
    byte value. */
module UiLayout {
  import opened Base

  /** The output region of `BeamformerUIParameters`: four components of each corner. */
  datatype Corners = Corners(min: seq<real>, max: seq<real>)

  predicate ValidCorners(p: Corners) { |p.min| == 4 && |p.max| == 4 }

  /** Components 0 and 2 are ordered min <= max. */
  predicate Ordered(p: Corners)
    requires ValidCorners(p)
  {
    p.min[0] <= p.max[0] && p.min[2] <= p.max[2]
  }

  /** Component k of r holds the two values of component k of p, in either order. */
  predicate SamePair(r: Corners, p: Corners, k: nat)
    requires ValidCorners(r) && ValidCorners(p) && k < 4
  {
    || (r.min[k] == p.min[k] && r.max[k] == p.max[k])
    || (r.min[k] == p.max[k] && r.max[k] == p.min[k])
  }

  /** `validate_ui_parameters` (ui.c:2868-2875): swap the lateral and the axial bounds when
      they are reversed. */
  function ValidateUiParameters(p: Corners): (r: Corners)
    requires ValidCorners(p)
    ensures ValidCorners(r) && Ordered(r)
    ensures SamePair(r, p, 0) && SamePair(r, p, 2)
    ensures r.min[1] == p.min[1] && r.max[1] == p.max[1]
    ensures r.min[3] == p.min[3] && r.max[3] == p.max[3]
    ensures Ordered(p) ==> r == p
  {
    var p0 := if p.min[0] > p.max[0] then Corners(p.min[0 := p.max[0]], p.max[0 := p.min[0]]) else p;
    if p0.min[2] > p0.max[2] then Corners(p0.min[2 := p0.max[2]], p0.max[2 := p0.min[2]]) else p0
  }

  /** Validating twice is validating once. */
  lemma ValidateIdempotent(p: Corners)
    requires ValidCorners(p)
    ensures ValidateUiParameters(ValidateUiParameters(p)) == ValidateUiParameters(p)
  {
  }

  const TABLE_CELL_PAD_HEIGHT: real := 2.0

  /** The whole rows of height `text_height` + 2 that fit in `draw_height`. */
  function MaxRows(drawHeight: real, textHeight: real): int
    requires textHeight + TABLE_CELL_PAD_HEIGHT != 0.0
  {
    Truncate(drawHeight / (textHeight + TABLE_CELL_PAD_HEIGHT))
  }

  /** `table_skip_rows` (ui.c:533-539): how many leading rows to skip so that the rest fit. */
  function TableSkipRows(rows: int, drawHeight: real, textHeight: real): (r: int)
    requires textHeight + TABLE_CELL_PAD_HEIGHT != 0.0
    ensures var m := MaxRows(drawHeight, textHeight);
            r == if rows <= m then 0 else rows - m
  {
    var maxRows := MaxRows(drawHeight, textHeight);
    rows - (if rows < maxRows then rows else maxRows)
  }

  /** With a non-negative height and row count the result lies in [0, rows], the rows kept fit
      in the height, and one more row would not when any are skipped. */
  lemma TableSkipRowsFits(rows: int, drawHeight: real, textHeight: real)
    requires textHeight + TABLE_CELL_PAD_HEIGHT > 0.0 && drawHeight >= 0.0 && rows >= 0
    ensures var r := TableSkipRows(rows, drawHeight, textHeight);
            && 0 <= r <= rows
            && (rows - r) as real * (textHeight + TABLE_CELL_PAD_HEIGHT) <= drawHeight
            && (r > 0 ==> (rows - r + 1) as real * (textHeight + TABLE_CELL_PAD_HEIGHT) > drawHeight)
  {
    var h := textHeight + TABLE_CELL_PAD_HEIGHT;
    var q := drawHeight / h;
    var m := MaxRows(drawHeight, textHeight);
    assert 0 <= m && m as real <= q < m as real + 1.0;
    assert q * h == drawHeight;
    var r := TableSkipRows(rows, drawHeight, textHeight);
    RowsFit((rows - r) as real, q, h, drawHeight);
    if r > 0 {
      RowsOverflow((rows - r + 1) as real, q, h, drawHeight);
    }
  }

  /** kept rows of height h, kept <= q with q = d / h, fit in d. */
  lemma RowsFit(kept: real, q: real, h: real, d: real)
    requires h > 0.0 && q * h == d && kept <= q
    ensures kept * h <= d
  {
    MulMonotone(kept, q, h);
  }

  /** n rows of height h, n > q with q = d / h, do not fit in d. */
  lemma RowsOverflow(n: real, q: real, h: real, d: real)
    requires h > 0.0 && q * h == d && q < n
    ensures n * h > d
  {
    MulStrict(q, n, h);
  }

  lemma MulMonotone(a: real, b: real, h: real)
    requires a <= b && h > 0.0
    ensures a * h <= b * h
  {
  }

  lemma MulStrict(a: real, b: real, h: real)
    requires a < b && h > 0.0
    ensures a * h < b * h
  {
  }

  /** The width of the first n characters of `text`. */
  function Width(glyph: seq<real>, text: seq<byte>, n: nat): real
    requires |glyph| == 256 && n <= |text|
  {
    if n == 0 then 0.0 else Width(glyph, text, n - 1) + glyph[text[n - 1]]
  }

  /** `clamp_text_to_width` (ui.c:468-482): cut `text` before the first character whose
      width would take the running total past `limit`. */
  method ClampTextToWidth(glyph: seq<real>, text: seq<byte>, limit: real) returns (r: seq<byte>)
    requires |glyph| == 256
    ensures r <= text
    ensures forall n | 1 <= n <= |r| :: Width(glyph, text, n) <= limit
    ensures |r| < |text| ==> Width(glyph, text, |r| + 1) > limit
  {
    var width := 0.0;
    var i := 0;
    r := text;
    while i < |text|
      invariant 0 <= i <= |text| && width == Width(glyph, text, i)
      invariant forall n | 1 <= n <= i :: Width(glyph, text, n) <= limit
    {
      var next := glyph[text[i]];
      if width + next > limit {
        r := text[..i];
        return;
      }
      width := width + next;
      i := i + 1;
    }
  }

  /** With glyphs of non-negative width, once a prefix is wider than the limit every longer
      one is too, so the clamped text is the longest prefix within the limit. */
  lemma {:induction false} ClampIsLongest(glyph: seq<real>, text: seq<byte>, limit: real, k: nat, n: nat)
    requires |glyph| == 256 && forall c: byte :: glyph[c] >= 0.0
    requires k < n <= |text| && Width(glyph, text, k + 1) > limit
    ensures Width(glyph, text, n) > limit
    decreases n
  {
    if n > k + 1 {
      ClampIsLongest(glyph, text, limit, k, n - 1);
    }
  }
}
