/**
 Post-processing of the SCRFD face detector: validation of its nine output tensors, decoding of candidates and
 the memory the daemon charges for both.
 */
module Scrfd {
  import Grid
  import opened Nms
  import Preprocess
  import opened Wrappers

  const STRIDES: seq<nat> := [8, 16, 32]
  const ANCHORS_PER_CELL: nat := 2
  const GROUP_WIDTHS: seq<nat> := [1, 4, 10]
  const OUTPUT_COUNT: nat := 9
  const NMS_THRESHOLD: real := 0.4

  const USIZE: nat := 0x1_0000_0000_0000_0000
  const MAX_I32: int := 0x7FFF_FFFF
  const F32_BYTES: nat := 4
  const FACE_BYTES: nat := 88
  const EMBEDDING: nat := 512

  datatype Float = Finite(v: real) | NonFinite

  /** An output tensor; `data` is absent when it is not contiguous. */
  datatype Tensor = Tensor(shape: seq<nat>, data: Option<seq<Float>>)

  datatype ScrfdError = OutputCount | OutputIndex | Dimensions | Overflow | Shape | NotContiguous | Length | NotFinite

  type Checked<T> = Result<T, ScrfdError>

  function CheckedMul(a: nat, b: nat): Checked<nat> { if a * b < USIZE then Ok(a * b) else Err(Overflow) }

  function CheckedAdd(a: nat, b: nat): Checked<nat> { if a + b < USIZE then Ok(a + b) else Err(Overflow) }

  // ----- anchors -----

  predicate Aligned(detW: nat, detH: nat, stride: nat)
    requires stride > 0
  {
    detW > 0 && detH > 0 && detW % stride == 0 && detH % stride == 0
  }

  function Cells(detW: nat, detH: nat, stride: nat): nat
    requires stride > 0
  {
    (detW / stride) * (detH / stride)
  }

  function LevelAnchors(detW: nat, detH: nat, level: nat): nat
    requires level < 3
  {
    Cells(detW, detH, STRIDES[level]) * ANCHORS_PER_CELL
  }

  /** Anchors of the first `levels` strides. */
  function Anchors(detW: nat, detH: nat, levels: nat): nat
    requires levels <= 3
  {
    if levels == 0 then 0 else Anchors(detW, detH, levels - 1) + LevelAnchors(detW, detH, levels - 1)
  }

  // ----- output validation -----

  predicate AllFinite(data: seq<Float>) { forall i :: 0 <= i < |data| ==> data[i].Finite? }

  method ScanFinite(data: seq<Float>) returns (finite: bool)
    ensures finite <==> AllFinite(data)
  {
    for i := 0 to |data|
      invariant forall k :: 0 <= k < i ==> data[k].Finite?
    {
      if data[i].NonFinite? { return false; }
    }
    return true;
  }

  /** What validation establishes of output `index`. */
  predicate OutputFits(index: nat, detW: nat, detH: nat, t: Tensor)
    requires index < OUTPUT_COUNT
  {
    var width := GROUP_WIDTHS[index / 3];
    var anchors := LevelAnchors(detW, detH, index % 3);
    && Aligned(detW, detH, STRIDES[index % 3])
    && (t.shape == [anchors, width] || t.shape == [1, anchors, width])
    && t.data.Some? && |t.data.value| == anchors * width < USIZE
    && AllFinite(t.data.value)
  }

  method ValidateOutput(index: nat, detW: nat, detH: nat, t: Tensor) returns (r: Checked<()>)
    ensures r.Ok? <==> index < OUTPUT_COUNT && OutputFits(index, detW, detH, t)
  {
    if index / 3 >= |GROUP_WIDTHS| { return Err(OutputIndex); }
    var stride, width := STRIDES[index % 3], GROUP_WIDTHS[index / 3];
    if detW == 0 || detH == 0 || detW % stride != 0 || detH % stride != 0 { return Err(Dimensions); }
    var cells :- CheckedMul(detW / stride, detH / stride);
    var anchors :- CheckedMul(cells, ANCHORS_PER_CELL);
    if t.shape != [anchors, width] && t.shape != [1, anchors, width] { return Err(Shape); }
    if t.data.None? { return Err(NotContiguous); }
    var expected :- CheckedMul(anchors, width);
    if |t.data.value| != expected { return Err(Length); }
    var finite := ScanFinite(t.data.value);
    if !finite { return Err(NotFinite); }
    return Ok(());
  }

  ghost predicate Validated(outputs: seq<Tensor>, detW: nat, detH: nat) {
    && |outputs| == OUTPUT_COUNT
    && forall i: nat :: i < OUTPUT_COUNT ==> OutputFits(i, detW, detH, outputs[i])
  }

  /** All nine outputs are accepted exactly when each fits its stride and its group. */
  method ValidateOutputs(outputs: seq<Tensor>, detW: nat, detH: nat) returns (r: Checked<()>)
    ensures r.Ok? <==> Validated(outputs, detW, detH)
  {
    hide OutputFits;
    if |outputs| != OUTPUT_COUNT { return Err(OutputCount); }
    for i := 0 to OUTPUT_COUNT
      invariant forall k: nat :: k < i ==> OutputFits(k, detW, detH, outputs[k])
    {
      var fits := ValidateOutput(i, detW, detH, outputs[i]);
      if fits.Err? { return fits; }
    }
    return Ok(());
  }

  // ----- decoding -----

  /** Validated outputs together with the frame they were computed from. */
  datatype Detection = Detection(
    outputs: seq<Tensor>, detW: nat, detH: nat, scale: real, imgW: nat, imgH: nat, threshold: real) {

    ghost predicate Valid() { Validated(outputs, detW, detH) && scale > 0.0 }
  }

  lemma DataFits(d: Detection, level: nat, group: nat)
    requires d.Valid() && level < 3 && group < 3
    ensures d.outputs[level + 3 * group].data.Some?
    ensures |d.outputs[level + 3 * group].data.value| == LevelAnchors(d.detW, d.detH, level) * GROUP_WIDTHS[group]
    ensures AllFinite(d.outputs[level + 3 * group].data.value)
    ensures Aligned(d.detW, d.detH, STRIDES[level])
  {
    var index := level + 3 * group;
    assert index / 3 == group && index % 3 == level;
    assert OutputFits(index, d.detW, d.detH, d.outputs[index]);
  }

  /** Element `j` of anchor `i` in a group of a level: scores, boxes and landmarks are groups 0, 1 and 2. */
  function Value(d: Detection, level: nat, group: nat, i: nat, j: nat): real
    requires d.Valid() && level < 3 && group < 3
    requires i < LevelAnchors(d.detW, d.detH, level) && j < GROUP_WIDTHS[group]
  {
    DataFits(d, level, group);
    Grid.InRange(i, j, GROUP_WIDTHS[group], LevelAnchors(d.detW, d.detH, level));
    d.outputs[level + 3 * group].data.value[i * GROUP_WIDTHS[group] + j].v
  }

  lemma CellInRange(d: Detection, level: nat, i: nat)
    requires d.Valid() && level < 3 && i < LevelAnchors(d.detW, d.detH, level)
    ensures d.detW / STRIDES[level] > 0
    ensures i / ANCHORS_PER_CELL < Cells(d.detW, d.detH, STRIDES[level])
  {
    DataFits(d, level, 0);
  }

  function AnchorX(d: Detection, level: nat, i: nat): real
    requires d.Valid() && level < 3 && i < LevelAnchors(d.detW, d.detH, level)
  {
    CellInRange(d, level, i);
    (i / ANCHORS_PER_CELL % (d.detW / STRIDES[level])) as real * STRIDES[level] as real
  }

  function AnchorY(d: Detection, level: nat, i: nat): real
    requires d.Valid() && level < 3 && i < LevelAnchors(d.detW, d.detH, level)
  {
    CellInRange(d, level, i);
    (i / ANCHORS_PER_CELL / (d.detW / STRIDES[level])) as real * STRIDES[level] as real
  }

  /** A box edge clamped to `[0, limit]`, truncated and saturated to a signed 32-bit integer. */
  function Edge(v: real, limit: nat): int {
    var low := if v > 0.0 then v else 0.0;
    var clamped := if low < limit as real then low else limit as real;
    Min(clamped.Floor, MAX_I32)
  }

  /** The detector coordinate of landmark value `j`: x for even, y for odd. */
  function Spot(d: Detection, level: nat, i: nat, j: nat): real
    requires d.Valid() && level < 3 && i < LevelAnchors(d.detW, d.detH, level) && j < 10
  {
    var origin := if j % 2 == 0 then AnchorX(d, level, i) else AnchorY(d, level, i);
    Value(d, level, 2, i, j) * STRIDES[level] as real + origin
  }

  function Landmark(d: Detection, level: nat, i: nat, j: nat): real
    requires d.Valid() && level < 3 && i < LevelAnchors(d.detW, d.detH, level) && j < 10
  {
    Spot(d, level, i, j) / d.scale
  }

  function Landmarks(d: Detection, level: nat, i: nat): seq<real>
    requires d.Valid() && level < 3 && i < LevelAnchors(d.detW, d.detH, level)
  {
    seq(10, j requires 0 <= j < 10 => Landmark(d, level, i, j))
  }

  /** The detector coordinate of a side of the box: left, top, right, bottom. */
  function Side(d: Detection, level: nat, i: nat, j: nat): real
    requires d.Valid() && level < 3 && i < LevelAnchors(d.detW, d.detH, level) && j < 4
  {
    var origin := if j % 2 == 0 then AnchorX(d, level, i) else AnchorY(d, level, i);
    var reach := Value(d, level, 1, i, j) * STRIDES[level] as real;
    if j < 2 then origin - reach else origin + reach
  }

  function Box(d: Detection, level: nat, i: nat): (int, int, int, int)
    requires d.Valid() && level < 3 && i < LevelAnchors(d.detW, d.detH, level)
  {
    (Edge(Side(d, level, i, 0) / d.scale, d.imgW), Edge(Side(d, level, i, 1) / d.scale, d.imgH),
     Edge(Side(d, level, i, 2) / d.scale, d.imgW), Edge(Side(d, level, i, 3) / d.scale, d.imgH))
  }

  /** The candidate an anchor stands for: distances and landmarks are in strides from the anchor's cell. */
  ghost function Decode(d: Detection, level: nat, i: nat): Face
    requires d.Valid() && level < 3 && i < LevelAnchors(d.detW, d.detH, level)
  {
    var (x1, y1, x2, y2) := Box(d, level, i);
    Face(x1, y1, x2, y2, Landmarks(d, level, i), Value(d, level, 0, i, 0))
  }

  ghost function LevelFaces(d: Detection, level: nat, n: nat): (fs: seq<Face>)
    requires d.Valid() && level < 3 && n <= LevelAnchors(d.detW, d.detH, level)
    ensures |fs| <= n
  {
    if n == 0 then []
    else if Value(d, level, 0, n - 1, 0) > d.threshold then LevelFaces(d, level, n - 1) + [Decode(d, level, n - 1)]
    else LevelFaces(d, level, n - 1)
  }

  /** The candidates of the first `levels` strides, in anchor order. */
  ghost function Candidates(d: Detection, levels: nat): (fs: seq<Face>)
    requires d.Valid() && levels <= 3
    ensures |fs| <= Anchors(d.detW, d.detH, levels)
  {
    if levels == 0 then []
    else Candidates(d, levels - 1) + LevelFaces(d, levels - 1, LevelAnchors(d.detW, d.detH, levels - 1))
  }

  predicate InImage(f: Face, imgW: nat, imgH: nat) {
    0 <= f.x1 <= imgW && 0 <= f.x2 <= imgW && 0 <= f.y1 <= imgH && 0 <= f.y2 <= imgH
  }

  predicate Sound(fs: seq<Face>, d: Detection) {
    forall k :: 0 <= k < |fs| ==> InImage(fs[k], d.imgW, d.imgH) && fs[k].score > d.threshold
  }

  lemma {:induction false} LevelFacesSound(d: Detection, level: nat, n: nat)
    requires d.Valid() && level < 3 && n <= LevelAnchors(d.detW, d.detH, level)
    ensures Sound(LevelFaces(d, level, n), d)
  {
    if n > 0 { LevelFacesSound(d, level, n - 1); }
  }

  /** Every candidate lies inside the image and scores above the threshold. */
  lemma {:induction false} CandidatesSound(d: Detection, levels: nat)
    requires d.Valid() && levels <= 3
    ensures Sound(Candidates(d, levels), d)
  {
    if levels > 0 {
      CandidatesSound(d, levels - 1);
      LevelFacesSound(d, levels - 1, LevelAnchors(d.detW, d.detH, levels - 1));
    }
  }

  /** `f` is decoded from an anchor of this level, below `n`, that scores above the threshold. */
  ghost predicate FromAnchor(d: Detection, level: nat, n: nat, f: Face)
    requires d.Valid() && level < 3 && n <= LevelAnchors(d.detW, d.detH, level)
  {
    exists i: nat :: i < n && Decode(d, level, i) == f && Value(d, level, 0, i, 0) > d.threshold
  }

  lemma {:induction false} LevelFacesExact(d: Detection, level: nat, n: nat, f: Face)
    requires d.Valid() && level < 3 && n <= LevelAnchors(d.detW, d.detH, level)
    ensures f in LevelFaces(d, level, n) <==> FromAnchor(d, level, n, f)
  {
    hide Decode, Value, LevelAnchors;
    if n > 0 {
      LevelFacesExact(d, level, n - 1, f);
      if FromAnchor(d, level, n - 1, f) {
        var i: nat :| i < n - 1 && Decode(d, level, i) == f && Value(d, level, 0, i, 0) > d.threshold;
      }
      if Value(d, level, 0, n - 1, 0) > d.threshold {
        assert LevelFaces(d, level, n) == LevelFaces(d, level, n - 1) + [Decode(d, level, n - 1)];
      }
    }
  }

  // ----- what a decoded face says about the tensors -----

  /** Cell `(cx, cy)` of a level's feature map, and one of the two anchors on it. */
  ghost predicate OnMap(d: Detection, level: nat, cx: nat, cy: nat, k: nat) {
    level < 3 && cx < d.detW / [8, 16, 32][level] && cy < d.detH / [8, 16, 32][level] && k < 2
  }

  /** Anchors are numbered row by row, two to a cell. */
  ghost function AnchorAt(d: Detection, level: nat, cx: nat, cy: nat, k: nat): nat
    requires level < 3
  {
    2 * (cy * (d.detW / [8, 16, 32][level]) + cx) + k
  }

  /** Every cell has its two anchors, and they sit at its upper-left corner. */
  lemma AnchorPlaced(d: Detection, level: nat, cx: nat, cy: nat, k: nat)
    requires d.Valid() && OnMap(d, level, cx, cy, k)
    ensures AnchorAt(d, level, cx, cy, k) < LevelAnchors(d.detW, d.detH, level)
    ensures AnchorX(d, level, AnchorAt(d, level, cx, cy, k)) == (cx * [8, 16, 32][level]) as real
    ensures AnchorY(d, level, AnchorAt(d, level, cx, cy, k)) == (cy * [8, 16, 32][level]) as real
  {
    var w := d.detW / STRIDES[level];
    Grid.InRange(cy, cx, w, d.detH / STRIDES[level]);
    var cell := cy * w + cx;
    assert AnchorAt(d, level, cx, cy, k) / 2 == cell;
    CellIs(cell, w, cx, cy);
  }

  lemma CellIs(cell: nat, w: nat, cx: nat, cy: nat)
    requires cell == cy * w + cx && cx < w
    ensures cell % w == cx && cell / w == cy
  {
    Grid.Coordinates(cell, w, cy + 1) by { assert w * (cy + 1) == cy * w + w; }
    Grid.Injective(cell / w, cell % w, cy, cx, w);
  }

  /** Every anchor is one of a cell's two. */
  lemma AnchorOnMap(d: Detection, level: nat, i: nat) returns (cx: nat, cy: nat, k: nat)
    requires d.Valid() && level < 3 && i < LevelAnchors(d.detW, d.detH, level)
    ensures OnMap(d, level, cx, cy, k) && AnchorAt(d, level, cx, cy, k) == i
  {
    var w, h := d.detW / STRIDES[level], d.detH / STRIDES[level];
    Grid.Coordinates(i / 2, w, h);
    cx, cy, k := i / 2 % w, i / 2 / w, i % 2;
  }

  /** The pixel edge of detector coordinate `v`: clamped to the image, else the pixel that holds it, and never beyond
      the signed 32-bit range. */
  predicate EdgeAt(edge: int, v: real, scale: real, limit: nat) {
    if v <= 0.0 then edge == 0
    else if v >= limit as real * scale then edge == Min(limit, 0x7FFF_FFFF)
    else if v >= 2_147_483_647.0 * scale then edge == 0x7FFF_FFFF
    else edge as real * scale <= v < (edge + 1) as real * scale
  }

  /** The box is at the distances that the second tensor gives, in strides, from the corner of the anchor's cell. */
  ghost predicate BoxStands(d: Detection, level: nat, cx: nat, cy: nat, k: nat, f: Face)
    requires d.Valid() && OnMap(d, level, cx, cy, k)
  {
    TensorsReach(d, level, cx, cy, k);
    var (i, boxes, stride) :=
        (AnchorAt(d, level, cx, cy, k), d.outputs[level + 3].data.value, [8.0, 16.0, 32.0][level]);
    && EdgeAt(f.x1, (cx as real - boxes[4 * i].v) * stride, d.scale, d.imgW)
    && EdgeAt(f.y1, (cy as real - boxes[4 * i + 1].v) * stride, d.scale, d.imgH)
    && EdgeAt(f.x2, (cx as real + boxes[4 * i + 2].v) * stride, d.scale, d.imgW)
    && EdgeAt(f.y2, (cy as real + boxes[4 * i + 3].v) * stride, d.scale, d.imgH)
  }

  /** Landmark `p`, scaled back, is where the third tensor puts it relative to the same corner. */
  ghost predicate PointStands(d: Detection, level: nat, cx: nat, cy: nat, k: nat, f: Face, p: nat)
    requires d.Valid() && OnMap(d, level, cx, cy, k) && p < 5 && |f.landmarks| == 10
  {
    TensorsReach(d, level, cx, cy, k);
    var (i, points, stride) :=
        (AnchorAt(d, level, cx, cy, k), d.outputs[level + 6].data.value, [8.0, 16.0, 32.0][level]);
    && f.landmarks[2 * p] * d.scale == (cx as real + points[10 * i + 2 * p].v) * stride
    && f.landmarks[2 * p + 1] * d.scale == (cy as real + points[10 * i + 2 * p + 1].v) * stride
  }

  ghost predicate PointsStand(d: Detection, level: nat, cx: nat, cy: nat, k: nat, f: Face)
    requires d.Valid() && OnMap(d, level, cx, cy, k)
  {
    |f.landmarks| == 10 && forall p: nat :: p < 5 ==> PointStands(d, level, cx, cy, k, f, p)
  }

  /** `f` is what the three tensors of the level say of this anchor. */
  ghost predicate Stands(d: Detection, level: nat, cx: nat, cy: nat, k: nat, f: Face)
    requires d.Valid() && OnMap(d, level, cx, cy, k)
  {
    TensorsReach(d, level, cx, cy, k);
    && f.score == d.outputs[level].data.value[AnchorAt(d, level, cx, cy, k)].v
    && BoxStands(d, level, cx, cy, k, f)
    && PointsStand(d, level, cx, cy, k, f)
  }

  lemma SidesAre(d: Detection, level: nat, cx: nat, cy: nat, k: nat)
    requires d.Valid() && OnMap(d, level, cx, cy, k)
    ensures AnchorAt(d, level, cx, cy, k) < LevelAnchors(d.detW, d.detH, level)
    ensures |d.outputs| == 9 && Reaches(d.outputs[level + 3], 4, AnchorAt(d, level, cx, cy, k))
    ensures var (i, boxes, stride) :=
                (AnchorAt(d, level, cx, cy, k), d.outputs[level + 3].data.value, [8.0, 16.0, 32.0][level]);
            && Side(d, level, i, 0) == (cx as real - boxes[4 * i].v) * stride
            && Side(d, level, i, 1) == (cy as real - boxes[4 * i + 1].v) * stride
            && Side(d, level, i, 2) == (cx as real + boxes[4 * i + 2].v) * stride
            && Side(d, level, i, 3) == (cy as real + boxes[4 * i + 3].v) * stride
  {
    hide Value, AnchorX, AnchorY, AnchorAt, LevelAnchors, OutputFits, AllFinite;
    AnchorPlaced(d, level, cx, cy, k);
    TensorsReach(d, level, cx, cy, k);
    var i := AnchorAt(d, level, cx, cy, k);
    ValueIs(d, level, 1, i, 0);
    ValueIs(d, level, 1, i, 1);
    ValueIs(d, level, 1, i, 2);
    ValueIs(d, level, 1, i, 3);
    if level == 0 {
    } else if level == 1 {
    } else {
    }
  }

  lemma BoxExact(d: Detection, level: nat, cx: nat, cy: nat, k: nat, f: Face)
    requires d.Valid() && OnMap(d, level, cx, cy, k)
    ensures AnchorAt(d, level, cx, cy, k) < LevelAnchors(d.detW, d.detH, level)
    ensures BoxStands(d, level, cx, cy, k, f) <==>
      (f.x1, f.y1, f.x2, f.y2) == Box(d, level, AnchorAt(d, level, cx, cy, k))
  {
    hide Side, AnchorAt, LevelAnchors, EdgeAt, Edge, OutputFits, AllFinite;
    SidesAre(d, level, cx, cy, k);
    var i := AnchorAt(d, level, cx, cy, k);
    EdgeExact(f.x1, Side(d, level, i, 0), d.scale, d.imgW);
    EdgeExact(f.y1, Side(d, level, i, 1), d.scale, d.imgH);
    EdgeExact(f.x2, Side(d, level, i, 2), d.scale, d.imgW);
    EdgeExact(f.y2, Side(d, level, i, 3), d.scale, d.imgH);
  }

  lemma SpotsAre(d: Detection, level: nat, cx: nat, cy: nat, k: nat, p: nat)
    requires d.Valid() && OnMap(d, level, cx, cy, k) && p < 5
    ensures AnchorAt(d, level, cx, cy, k) < LevelAnchors(d.detW, d.detH, level)
    ensures |d.outputs| == 9 && Reaches(d.outputs[level + 6], 10, AnchorAt(d, level, cx, cy, k))
    ensures var (i, points, stride) :=
                (AnchorAt(d, level, cx, cy, k), d.outputs[level + 6].data.value, [8.0, 16.0, 32.0][level]);
            && Spot(d, level, i, 2 * p) == (cx as real + points[10 * i + 2 * p].v) * stride
            && Spot(d, level, i, 2 * p + 1) == (cy as real + points[10 * i + 2 * p + 1].v) * stride
  {
    hide Value, AnchorX, AnchorY, AnchorAt, LevelAnchors, OutputFits, AllFinite;
    AnchorPlaced(d, level, cx, cy, k);
    TensorsReach(d, level, cx, cy, k);
    var i := AnchorAt(d, level, cx, cy, k);
    ValueIs(d, level, 2, i, 2 * p);
    ValueIs(d, level, 2, i, 2 * p + 1);
    if level == 0 {
    } else if level == 1 {
    } else {
    }
  }

  lemma PairExact(d: Detection, level: nat, cx: nat, cy: nat, k: nat, f: Face, p: nat)
    requires d.Valid() && OnMap(d, level, cx, cy, k) && p < 5 && |f.landmarks| == 10
    ensures AnchorAt(d, level, cx, cy, k) < LevelAnchors(d.detW, d.detH, level)
    ensures var i := AnchorAt(d, level, cx, cy, k);
            PointStands(d, level, cx, cy, k, f, p) <==>
              && f.landmarks[2 * p] == Landmark(d, level, i, 2 * p)
              && f.landmarks[2 * p + 1] == Landmark(d, level, i, 2 * p + 1)
  {
    hide Spot, AnchorAt, LevelAnchors, OutputFits, AllFinite;
    SpotsAre(d, level, cx, cy, k, p);
    var i := AnchorAt(d, level, cx, cy, k);
    QuotientExact(f.landmarks[2 * p], Spot(d, level, i, 2 * p), d.scale);
    QuotientExact(f.landmarks[2 * p + 1], Spot(d, level, i, 2 * p + 1), d.scale);
  }

  lemma PointsExact(d: Detection, level: nat, cx: nat, cy: nat, k: nat, f: Face)
    requires d.Valid() && OnMap(d, level, cx, cy, k)
    ensures AnchorAt(d, level, cx, cy, k) < LevelAnchors(d.detW, d.detH, level)
    ensures PointsStand(d, level, cx, cy, k, f) <==>
      f.landmarks == Landmarks(d, level, AnchorAt(d, level, cx, cy, k))
  {
    hide PointStands, Landmark, AnchorAt, LevelAnchors, OutputFits, AnchorX, AnchorY;
    AnchorPlaced(d, level, cx, cy, k);
    var i := AnchorAt(d, level, cx, cy, k);
    if |f.landmarks| == 10 {
      PairExact(d, level, cx, cy, k, f, 0);
      PairExact(d, level, cx, cy, k, f, 1);
      PairExact(d, level, cx, cy, k, f, 2);
      PairExact(d, level, cx, cy, k, f, 3);
      PairExact(d, level, cx, cy, k, f, 4);
    }
  }

  lemma TensorsReach(d: Detection, level: nat, cx: nat, cy: nat, k: nat)
    requires d.Valid() && OnMap(d, level, cx, cy, k)
    ensures |d.outputs| == 9
    ensures Reaches(d.outputs[level], 1, AnchorAt(d, level, cx, cy, k))
    ensures Reaches(d.outputs[level + 3], 4, AnchorAt(d, level, cx, cy, k))
    ensures Reaches(d.outputs[level + 6], 10, AnchorAt(d, level, cx, cy, k))
  {
    hide LevelAnchors, AnchorX, AnchorY, AnchorAt;
    AnchorPlaced(d, level, cx, cy, k);
    DataFits(d, level, 0);
    DataFits(d, level, 1);
    DataFits(d, level, 2);
  }

  /** The tensor holds `width` finite values for anchor `i`. */
  ghost predicate Reaches(t: Tensor, width: nat, i: nat) {
    t.data.Some? && width * i + width <= |t.data.value| && AllFinite(t.data.value)
  }

  /** The same in image coordinates. */
  predicate EdgeIn(edge: int, w: real, limit: nat) {
    if w <= 0.0 then edge == 0
    else if w >= limit as real then edge == Min(limit, 0x7FFF_FFFF)
    else if w >= 2_147_483_647.0 then edge == 0x7FFF_FFFF
    else edge as real <= w < (edge + 1) as real
  }

  lemma EdgeInExact(edge: int, w: real, limit: nat)
    ensures EdgeIn(edge, w, limit) <==> edge == Edge(w, limit)
  {}

  lemma Compared(w: real, x: real, scale: real, v: real)
    requires scale > 0.0 && v == w * scale
    ensures (w < x <==> v < x * scale) && (w >= x <==> v >= x * scale)
    ensures w <= 0.0 <==> v <= 0.0
  {
    Preprocess.ScaledOrder(w, x, scale);
    Preprocess.ScaledOrder(0.0, w, scale);
    assert 0.0 * scale == 0.0;
  }

  lemma EdgeExact(edge: int, v: real, scale: real, limit: nat)
    requires scale > 0.0
    ensures EdgeAt(edge, v, scale, limit) <==> edge == Edge(v / scale, limit)
  {
    hide Edge;
    var w := v / scale;
    assert w * scale == v;
    Compared(w, limit as real, scale, v);
    Compared(w, 2_147_483_647.0, scale, v);
    Compared(w, edge as real, scale, v);
    Compared(w, (edge + 1) as real, scale, v);
    EdgeInExact(edge, w, limit);
  }

  lemma QuotientExact(q: real, v: real, scale: real)
    requires scale > 0.0
    ensures q * scale == v <==> q == v / scale
  {
    assert v / scale * scale == v;
    Preprocess.ScaledOrder(q, v / scale, scale);
    Preprocess.ScaledOrder(v / scale, q, scale);
  }

  /** The values of an anchor are consecutive in its tensors. */
  lemma ValueIs(d: Detection, level: nat, group: nat, i: nat, j: nat)
    requires d.Valid() && level < 3 && group < 3
    requires i < LevelAnchors(d.detW, d.detH, level) && j < [1, 4, 10][group]
    ensures |d.outputs| == 9 && d.outputs[level + 3 * group].data.Some?
    ensures [1, 4, 10][group] * i + j < |d.outputs[level + 3 * group].data.value|
    ensures d.outputs[level + 3 * group].data.value[[1, 4, 10][group] * i + j].Finite?
    ensures Value(d, level, group, i, j) == d.outputs[level + 3 * group].data.value[[1, 4, 10][group] * i + j].v
  {
    hide LevelAnchors, OutputFits;
    DataFits(d, level, group);
    Grid.InRange(i, j, GROUP_WIDTHS[group], LevelAnchors(d.detW, d.detH, level));
  }

  /** Decoding yields exactly the face that the anchor's values stand for. */
  lemma DecodedExactly(d: Detection, level: nat, cx: nat, cy: nat, k: nat, f: Face)
    requires d.Valid() && OnMap(d, level, cx, cy, k)
    ensures AnchorAt(d, level, cx, cy, k) < LevelAnchors(d.detW, d.detH, level)
    ensures Stands(d, level, cx, cy, k, f) <==> f == Decode(d, level, AnchorAt(d, level, cx, cy, k))
  {
    hide Value, AnchorX, AnchorY, AnchorAt, LevelAnchors, EdgeAt, Edge, OutputFits, AllFinite;
    AnchorPlaced(d, level, cx, cy, k);
    var i, stride := AnchorAt(d, level, cx, cy, k), STRIDES[level];
    ValueIs(d, level, 0, i, 0);
    BoxExact(d, level, cx, cy, k, f);
    PointsExact(d, level, cx, cy, k, f);
  }

  lemma CandidatesByAnchor(d: Detection, f: Face)
    requires d.Valid()
    ensures f in Candidates(d, 3) <==> exists level: nat ::
      level < 3 && FromAnchor(d, level, LevelAnchors(d.detW, d.detH, level), f)
  {
    hide FromAnchor, LevelAnchors, LevelFaces;
    LevelFacesExact(d, 0, LevelAnchors(d.detW, d.detH, 0), f);
    LevelFacesExact(d, 1, LevelAnchors(d.detW, d.detH, 1), f);
    LevelFacesExact(d, 2, LevelAnchors(d.detW, d.detH, 2), f);
    assert Candidates(d, 1) == LevelFaces(d, 0, LevelAnchors(d.detW, d.detH, 0));
    assert Candidates(d, 2) == Candidates(d, 1) + LevelFaces(d, 1, LevelAnchors(d.detW, d.detH, 1));
    assert Candidates(d, 3) == Candidates(d, 2) + LevelFaces(d, 2, LevelAnchors(d.detW, d.detH, 2));
  }

  /** A face stands for one of this level's anchors, with a score above the threshold. */
  ghost predicate FromCell(d: Detection, level: nat, f: Face)
    requires d.Valid() && level < 3
  {
    f.score > d.threshold
    && exists cx: nat, cy: nat, k: nat :: OnMap(d, level, cx, cy, k) && Stands(d, level, cx, cy, k, f)
  }

  lemma FromCellExact(d: Detection, level: nat, f: Face)
    requires d.Valid() && level < 3
    ensures FromCell(d, level, f) <==> FromAnchor(d, level, LevelAnchors(d.detW, d.detH, level), f)
  {
    hide Value, LevelAnchors, OutputFits, Box, Landmarks, OnMap, Stands, AnchorAt;
    if FromCell(d, level, f) {
      var cx: nat, cy: nat, k: nat :| OnMap(d, level, cx, cy, k) && Stands(d, level, cx, cy, k, f);
      DecodedExactly(d, level, cx, cy, k, f);
      assert Decode(d, level, AnchorAt(d, level, cx, cy, k)) == f;
    }
    if FromAnchor(d, level, LevelAnchors(d.detW, d.detH, level), f) {
      var i: nat :| i < LevelAnchors(d.detW, d.detH, level) && Decode(d, level, i) == f
        && Value(d, level, 0, i, 0) > d.threshold;
      var cx, cy, k := AnchorOnMap(d, level, i);
      DecodedExactly(d, level, cx, cy, k, f);
    }
  }

  /** The candidates are exactly the faces that the cells of the three feature maps stand for, above the threshold:
      none is missed, none is added. */
  lemma CandidatesExact(d: Detection, f: Face)
    requires d.Valid()
    ensures f in Candidates(d, 3) <==> exists level: nat :: level < 3 && FromCell(d, level, f)
  {
    hide FromAnchor, FromCell, LevelAnchors, LevelFaces;
    CandidatesByAnchor(d, f);
    FromCellExact(d, 0, f);
    FromCellExact(d, 1, f);
    FromCellExact(d, 2, f);
    forall level: nat | level < 3
      ensures FromCell(d, level, f) <==> FromAnchor(d, level, LevelAnchors(d.detW, d.detH, level), f)
    {
      assert level == 0 || level == 1 || level == 2;
    }
  }

  /** Distances that do not point inward decode to a box whose corners are in order. */
  lemma DecodedIsBoxed(d: Detection, level: nat, i: nat)
    requires d.Valid() && level < 3 && i < LevelAnchors(d.detW, d.detH, level)
    requires forall j: nat :: j < 4 ==> Value(d, level, 1, i, j) >= 0.0
    ensures Boxed(Decode(d, level, i))
  {
    hide Value, AnchorX, AnchorY, LevelAnchors, Landmarks;
    var stride := STRIDES[level] as real;
    SpanOrdered(AnchorX(d, level, i), Value(d, level, 1, i, 0), Value(d, level, 1, i, 2), stride, d.scale);
    SpanOrdered(AnchorY(d, level, i), Value(d, level, 1, i, 1), Value(d, level, 1, i, 3), stride, d.scale);
  }

  lemma SpanOrdered(x: real, before: real, after: real, stride: real, scale: real)
    requires before >= 0.0 && after >= 0.0 && stride > 0.0 && scale > 0.0
    ensures (x - before * stride) / scale <= (x + after * stride) / scale
  {
    assert before * stride >= 0.0 && after * stride >= 0.0;
    var a, b := (x - before * stride) / scale, (x + after * stride) / scale;
    assert a * scale <= b * scale;
  }

  method DecodeLandmarks(d: Detection, level: nat, i: nat) returns (lm: seq<real>)
    requires d.Valid() && level < 3 && i < LevelAnchors(d.detW, d.detH, level)
    ensures lm == Landmarks(d, level, i)
  {
    var values := new real[10](_ => 0.0);
    for k := 0 to 5
      invariant forall j :: 0 <= j < k * 2 ==> values[j] == Landmark(d, level, i, j)
    {
      values[k * 2] := Landmark(d, level, i, k * 2);
      values[k * 2 + 1] := Landmark(d, level, i, k * 2 + 1);
    }
    return values[..];
  }

  method DecodeFace(d: Detection, level: nat, i: nat) returns (f: Face)
    requires d.Valid() && level < 3 && i < LevelAnchors(d.detW, d.detH, level)
    ensures f == Decode(d, level, i)
  {
    hide Value, Box, Landmarks, LevelAnchors;
    var (x1, y1, x2, y2) := Box(d, level, i);
    var lm := DecodeLandmarks(d, level, i);
    return Face(x1, y1, x2, y2, lm, Value(d, level, 0, i, 0));
  }

  /** One stride's scores, in order; candidates above the threshold are pushed. */
  method PushLevel(d: Detection, level: nat, faces: seq<Face>) returns (out: seq<Face>)
    requires d.Valid() && level < 3
    ensures out == faces + LevelFaces(d, level, LevelAnchors(d.detW, d.detH, level))
  {
    hide Decode, Value, LevelAnchors;
    out := faces;
    for i := 0 to LevelAnchors(d.detW, d.detH, level)
      invariant out == faces + LevelFaces(d, level, i)
    {
      var score := Value(d, level, 0, i, 0);
      if score <= d.threshold { continue; }
      var f := DecodeFace(d, level, i);
      out := out + [f];
    }
  }

  /** The capacity reserved for candidates. */
  method MaximumCandidates(detW: nat, detH: nat) returns (r: Checked<nat>)
    ensures r == if Anchors(detW, detH, 3) < USIZE then Ok(Anchors(detW, detH, 3)) else Err(Overflow)
  {
    var total := 0;
    for level := 0 to 3
      invariant total == Anchors(detW, detH, level) < USIZE
    {
      AnchorsGrow(detW, detH, level + 1);
      var cells :- CheckedMul(detW / STRIDES[level], detH / STRIDES[level]);
      var anchors :- CheckedMul(cells, ANCHORS_PER_CELL);
      total :- CheckedAdd(total, anchors);
    }
    return Ok(total);
  }

  lemma {:induction false} AnchorsGrow(detW: nat, detH: nat, levels: nat)
    requires levels <= 3
    ensures Anchors(detW, detH, levels) <= Anchors(detW, detH, 3)
    decreases 3 - levels
  {
    if levels < 3 { AnchorsGrow(detW, detH, levels + 1); }
  }

  lemma ThreeLevels(detW: nat, detH: nat)
    ensures Anchors(detW, detH, 3) == LevelAnchors(detW, detH, 0) + LevelAnchors(detW, detH, 1)
      + LevelAnchors(detW, detH, 2)
  {
    hide LevelAnchors;
    assert Anchors(detW, detH, 1) == LevelAnchors(detW, detH, 0);
    assert Anchors(detW, detH, 2) == Anchors(detW, detH, 1) + LevelAnchors(detW, detH, 1);
  }

  /** Validated outputs are small enough that the reserved capacity cannot overflow. */
  lemma CapacityFits(d: Detection)
    requires d.Valid()
    ensures Anchors(d.detW, d.detH, 3) < USIZE
  {
    forall level: nat | level < 3 ensures LevelAnchors(d.detW, d.detH, level) * 10 < USIZE {
      assert OutputFits(level + 6, d.detW, d.detH, d.outputs[level + 6]);
    }
    ThreeLevels(d.detW, d.detH);
  }

  /** Faces reported for a frame: the candidates that survive suppression. */
  method PostprocessScrfd(d: Detection) returns (faces: seq<Face>)
    requires d.Valid()
    ensures |faces| <= |Candidates(d, 3)| <= Anchors(d.detW, d.detH, 3)
    ensures faces == if |Candidates(d, 3)| > 1 then Greedy(SortByScore(Candidates(d, 3)), [], NMS_THRESHOLD)
      else Candidates(d, 3)
    ensures Sound(faces, d) && Descending(faces) && PairwiseApart(faces, NMS_THRESHOLD)
    ensures multiset(faces) <= multiset(Candidates(d, 3))
    ensures forall f | f in multiset(Candidates(d, 3)) - multiset(faces) :: Covered(f, faces, NMS_THRESHOLD)
  {
    hide PairwiseApart, Covered, LevelFaces, Sound, Greedy, SortByScore;
    var capacity := MaximumCandidates(d.detW, d.detH);
    CapacityFits(d);
    assert capacity == Ok(Anchors(d.detW, d.detH, 3));
    faces := [];
    for level := 0 to 3
      invariant faces == Candidates(d, level)
    {
      faces := PushLevel(d, level, faces);
    }
    CandidatesSound(d, 3);
    ghost var candidates := faces;
    SingleApart(faces);
    if |faces| > 1 {
      faces := Suppressed(faces, NMS_THRESHOLD);
      SubsetSound(d, candidates, faces);
    }
  }

  lemma SingleApart(fs: seq<Face>)
    ensures |fs| <= 1 ==> PairwiseApart(fs, NMS_THRESHOLD)
  {}

  lemma SubsetSound(d: Detection, all: seq<Face>, some: seq<Face>)
    requires multiset(some) <= multiset(all) && Sound(all, d)
    ensures Sound(some, d)
  {
    forall k | 0 <= k < |some| ensures InImage(some[k], d.imgW, d.imgH) && some[k].score > d.threshold {
      assert some[k] in multiset(some);
      assert some[k] in all;
    }
  }

  // ----- memory accounting -----

  function InputBytes(detW: nat, detH: nat): nat { detW * detH * 3 * F32_BYTES + 3 * 112 * 112 * F32_BYTES }

  /** The plaintext scratch charged for one inference: both inputs and the larger of the two phases. */
  function Scratch(detW: nat, detH: nat): nat {
    var anchors := Anchors(detW, detH, 3);
    var detector := anchors * 15 * F32_BYTES + anchors * (2 * FACE_BYTES + 1);
    var recognizer := anchors * FACE_BYTES + 2 * EMBEDDING * F32_BYTES;
    InputBytes(detW, detH) + Max(detector, recognizer)
  }

  lemma LevelTotal(detW: nat, detH: nat, level: nat)
    requires level < 3 && detW % 32 == 0 && detH % 32 == 0
    ensures LevelAnchors(detW, detH, level) == [32, 8, 2][level] * ((detW / 32) * (detH / 32))
  {
    var (w, h) := (detW / 32, detH / 32);
    assert detW == 32 * w && detH == 32 * h;
    if level == 0 {
      assert detW / 8 == 4 * w && detH / 8 == 4 * h && (4 * w) * (4 * h) == 16 * (w * h);
    } else if level == 1 {
      assert detW / 16 == 2 * w && detH / 16 == 2 * h && (2 * w) * (2 * h) == 4 * (w * h);
    }
  }

  /** Every 32 by 32 block of an aligned detector input has 42 anchors, and the charge is exactly the two inputs and
      the larger phase at its fullest: every anchor a candidate and every candidate a face. */
  lemma ScratchTight(detW: nat, detH: nat)
    requires detW % 32 == 0 && detH % 32 == 0
    ensures var n := 42 * ((detW / 32) * (detH / 32));
            && Anchors(detW, detH, 3) == n
            && Scratch(detW, detH) == 12 * (detW * detH) + 150_528 + Max(60 * n + 88 * n + 88 * n + n, 88 * n + 4_096)
  {
    hide LevelAnchors, Anchors;
    ThreeLevels(detW, detH);
    LevelTotal(detW, detH, 0);
    LevelTotal(detW, detH, 1);
    LevelTotal(detW, detH, 2);
  }

  predicate AllAligned(detW: nat, detH: nat, levels: nat)
    requires levels <= 3
  {
    forall level: nat :: level < levels ==> Aligned(detW, detH, STRIDES[level])
  }

  /** Anchors and output values charged stride by stride. */
  method CountAnchors(detW: nat, detH: nat) returns (r: Checked<(nat, nat)>)
    ensures r.Ok? <==> AllAligned(detW, detH, 3) && Anchors(detW, detH, 3) * 15 < USIZE
    ensures r.Ok? ==> r.value == (Anchors(detW, detH, 3), Anchors(detW, detH, 3) * 15)
  {
    hide LevelAnchors;
    var anchors, values := 0, 0;
    for level := 0 to 3
      invariant anchors == Anchors(detW, detH, level) && values == anchors * 15 < USIZE
      invariant AllAligned(detW, detH, level)
    {
      var stride := STRIDES[level];
      if detW == 0 || detH == 0 || detW % stride != 0 || detH % stride != 0 { return Err(Dimensions); }
      AnchorsGrow(detW, detH, level + 1);
      var counted := CountLevel(detW, detH, level);
      if counted.Err? { return Err(Overflow); }
      anchors :- CheckedAdd(anchors, counted.value);
      var outputs := CountOutputs(counted.value);
      if outputs.Err? { return Err(Overflow); }
      values :- CheckedAdd(values, outputs.value);
    }
    return Ok((anchors, values));
  }

  method CountLevel(detW: nat, detH: nat, level: nat) returns (r: Checked<nat>)
    requires level < 3
    ensures r == if LevelAnchors(detW, detH, level) < USIZE then Ok(LevelAnchors(detW, detH, level)) else Err(Overflow)
  {
    var cells :- CheckedMul(detW / STRIDES[level], detH / STRIDES[level]);
    r := CheckedMul(cells, ANCHORS_PER_CELL);
  }

  method CountOutputs(anchors: nat) returns (r: Checked<nat>)
    ensures r == if anchors * 15 < USIZE then Ok(anchors * 15) else Err(Overflow)
  {
    var total := 0;
    for group := 0 to 3
      invariant total == anchors * [0, 1, 5, 15][group] < USIZE || (group == 0 && total == 0)
    {
      var values :- CheckedMul(anchors, GROUP_WIDTHS[group]);
      total :- CheckedAdd(total, values);
    }
    return Ok(total);
  }

  /** The charge is defined exactly for aligned dimensions whose total fits the machine word. */
  method InferenceScratch(detW: nat, detH: nat) returns (r: Checked<nat>)
    ensures r.Ok? <==> AllAligned(detW, detH, 3) && Scratch(detW, detH) < USIZE
    ensures r.Ok? ==> r.value == Scratch(detW, detH)
  {
    hide Anchors, AllAligned;
    var pixels :- CheckedMul(detW, detH);
    var values :- CheckedMul(pixels, 3);
    var detectorInput :- CheckedMul(values, F32_BYTES);
    var inputs :- CheckedAdd(detectorInput, 3 * 112 * 112 * F32_BYTES);
    var counted :- CountAnchors(detW, detH);
    var outputs :- CheckedMul(counted.1, F32_BYTES);
    var candidates :- CheckedMul(counted.0, 2 * FACE_BYTES + 1);
    var detector :- CheckedAdd(outputs, candidates);
    var faces :- CheckedMul(counted.0, FACE_BYTES);
    var recognizer :- CheckedAdd(faces, 2 * EMBEDDING * F32_BYTES);
    r := CheckedAdd(inputs, Max(detector, recognizer));
  }

  /** Values held by the first `n` outputs. */
  ghost function Values(outputs: seq<Tensor>, n: nat): nat
    requires n <= |outputs|
  {
    if n == 0 then 0
    else Values(outputs, n - 1) + match outputs[n - 1].data { case Some(data) => |data| case None => 0 }
  }

  lemma GroupValues(d: Detection, group: nat)
    requires d.Valid() && group < 3
    ensures Values(d.outputs, 3 * group + 3) == Values(d.outputs, 3 * group)
      + Anchors(d.detW, d.detH, 3) * GROUP_WIDTHS[group]
  {
    hide LevelAnchors, OutputFits;
    DataFits(d, 0, group);
    DataFits(d, 1, group);
    DataFits(d, 2, group);
    assert Values(d.outputs, 3 * group + 1)
        == Values(d.outputs, 3 * group) + LevelAnchors(d.detW, d.detH, 0) * GROUP_WIDTHS[group];
    assert Values(d.outputs, 3 * group + 2)
        == Values(d.outputs, 3 * group + 1) + LevelAnchors(d.detW, d.detH, 1) * GROUP_WIDTHS[group];
    assert Values(d.outputs, 3 * group + 3)
        == Values(d.outputs, 3 * group + 2) + LevelAnchors(d.detW, d.detH, 2) * GROUP_WIDTHS[group];
    ThreeLevels(d.detW, d.detH);
  }

  lemma ValuesCharged(d: Detection)
    requires d.Valid()
    ensures Values(d.outputs, 9) == Anchors(d.detW, d.detH, 3) * 15
  {
    hide Anchors;
    GroupValues(d, 0);
    GroupValues(d, 1);
    GroupValues(d, 2);
  }

  /** Everything the daemon holds for one frame fits the charge: during detection the inputs, all nine outputs,
      every candidate, every reported face and one suppression byte per candidate; during recognition the inputs,
      the reported faces and two embeddings. */
  lemma ScratchCovers(d: Detection, faces: seq<Face>)
    requires d.Valid() && |faces| <= |Candidates(d, 3)|
    ensures InputBytes(d.detW, d.detH) + Values(d.outputs, 9) * F32_BYTES
         + |Candidates(d, 3)| * FACE_BYTES + |faces| * FACE_BYTES + |Candidates(d, 3)| <= Scratch(d.detW, d.detH)
    ensures InputBytes(d.detW, d.detH) + |faces| * FACE_BYTES + 2 * EMBEDDING * F32_BYTES <= Scratch(d.detW, d.detH)
  {
    hide Anchors, Candidates, Values, InputBytes;
    ValuesCharged(d);
  }
}
