/**
 Greedy non-maximum suppression of detected faces, over exact arithmetic.
 */
module Nms {

  datatype Face = Face(x1: int, y1: int, x2: int, y2: int, landmarks: seq<real>, score: real)

  function Max(a: int, b: int): int { if a > b then a else b }

  function Min(a: int, b: int): int { if a < b then a else b }

  function Area(f: Face): int { (f.x2 - f.x1) * (f.y2 - f.y1) }

  function Intersection(a: Face, b: Face): int {
    var left, top := Max(a.x1, b.x1), Max(a.y1, b.y1);
    (Max(Min(a.x2, b.x2), left) - left) * (Max(Min(a.y2, b.y2), top) - top)
  }

  /** Intersection over union of two boxes; 0 when the union is not positive. */
  function Iou(a: Face, b: Face): real {
    var inter := Intersection(a, b);
    var union := Area(a) + Area(b) - inter;
    if union <= 0 then 0.0 else inter as real / union as real
  }

  predicate Boxed(f: Face) { f.x1 <= f.x2 && f.y1 <= f.y2 }

  lemma ProductMonotone(a: int, b: int, c: int, d: int)
    requires 0 <= a <= c && 0 <= b <= d
    ensures 0 <= a * b <= c * d
  {
    assert a * b <= c * b <= c * d;
  }

  /** The overlap measure is symmetric, and lies in [0, 1] for boxes whose corners are in order. */
  lemma IouIsOverlap(a: Face, b: Face)
    ensures Iou(a, b) == Iou(b, a)
    ensures Boxed(a) && Boxed(b) ==> 0.0 <= Iou(a, b) <= 1.0
  {
    assert Intersection(a, b) == Intersection(b, a);
    if Boxed(a) && Boxed(b) {
      var left, top := Max(a.x1, b.x1), Max(a.y1, b.y1);
      var width, height := Max(Min(a.x2, b.x2), left) - left, Max(Min(a.y2, b.y2), top) - top;
      ProductMonotone(width, height, a.x2 - a.x1, a.y2 - a.y1);
      ProductMonotone(width, height, b.x2 - b.x1, b.y2 - b.y1);
      var inter, union := Intersection(a, b), Area(a) + Area(b) - Intersection(a, b);
      if union > 0 {
        assert 0 <= inter <= union;
        QuotientInUnit(inter as real, union as real);
      }
    }
  }

  lemma QuotientInUnit(x: real, y: real)
    requires 0.0 <= x <= y && y > 0.0
    ensures 0.0 <= x / y <= 1.0
  {}

  // ----- the overlap, counted in cells -----

  /** The unit cells of a box, by their upper-left corners. */
  ghost function UnitCells(f: Face): set<(int, int)> {
    set x: int, y: int | f.x1 <= x < f.x2 && f.y1 <= y < f.y2 :: (x, y)
  }

  ghost function Column(x: int, y1: int, y2: int): set<(int, int)> { set y: int | y1 <= y < y2 :: (x, y) }

  ghost function Rectangle(x1: int, x2: int, y1: int, y2: int): set<(int, int)> {
    set x: int, y: int | x1 <= x < x2 && y1 <= y < y2 :: (x, y)
  }

  lemma {:induction false} ColumnCount(x: int, y1: int, y2: int)
    requires y1 <= y2
    ensures |Column(x, y1, y2)| == y2 - y1
    decreases y2 - y1
  {
    if y1 == y2 {
      assert Column(x, y1, y2) == {};
    } else {
      ColumnCount(x, y1, y2 - 1);
      assert Column(x, y1, y2) == Column(x, y1, y2 - 1) + {(x, y2 - 1)};
    }
  }

  lemma {:induction false} RectangleCount(x1: int, x2: int, y1: int, y2: int)
    requires x1 <= x2 && y1 <= y2
    ensures |Rectangle(x1, x2, y1, y2)| == (x2 - x1) * (y2 - y1)
    decreases x2 - x1
  {
    if x1 == x2 {
      assert Rectangle(x1, x2, y1, y2) == {};
    } else {
      RectangleCount(x1, x2 - 1, y1, y2);
      ColumnCount(x2 - 1, y1, y2);
      var front, last := Rectangle(x1, x2 - 1, y1, y2), Column(x2 - 1, y1, y2);
      assert Rectangle(x1, x2, y1, y2) == front + last && front !! last;
      assert (x2 - 1 - x1) * (y2 - y1) + (y2 - y1) == (x2 - x1) * (y2 - y1);
    }
  }

  lemma AreaCounts(f: Face)
    requires Boxed(f)
    ensures |UnitCells(f)| == Area(f)
  {
    RectangleCount(f.x1, f.x2, f.y1, f.y2);
    assert UnitCells(f) == Rectangle(f.x1, f.x2, f.y1, f.y2);
  }

  lemma IntersectionCounts(a: Face, b: Face)
    ensures |UnitCells(a) * UnitCells(b)| == Intersection(a, b)
  {
    var left, top := Max(a.x1, b.x1), Max(a.y1, b.y1);
    var right, bottom := Max(Min(a.x2, b.x2), left), Max(Min(a.y2, b.y2), top);
    RectangleCount(left, right, top, bottom);
    assert UnitCells(a) * UnitCells(b) == Rectangle(left, right, top, bottom);
  }

  /** The overlap of two boxes whose corners are in order is the number of cells in both over the number in either. */
  lemma IouCountsCells(a: Face, b: Face)
    requires Boxed(a) && Boxed(b)
    ensures var (both, either) := (|UnitCells(a) * UnitCells(b)|, |UnitCells(a) + UnitCells(b)|);
            Iou(a, b) == if either == 0 then 0.0 else both as real / either as real
  {
    hide UnitCells, Area, Intersection;
    AreaCounts(a);
    AreaCounts(b);
    IntersectionCounts(a, b);
    assert |UnitCells(a) + UnitCells(b)| == |UnitCells(a)| + |UnitCells(b)| - |UnitCells(a) * UnitCells(b)|;
  }

  lemma SelfCells(a: Face)
    requires a.x1 < a.x2 && a.y1 < a.y2
    ensures UnitCells(a) * UnitCells(a) == UnitCells(a) == UnitCells(a) + UnitCells(a) && |UnitCells(a)| > 0
  {
    assert (a.x1, a.y1) in UnitCells(a);
  }

  lemma WholeQuotient(n: int)
    requires n > 0
    ensures n as real / n as real == 1.0
  {}

  lemma NothingOver(n: int)
    requires n > 0
    ensures 0 as real / n as real == 0.0
  {}

  /** A box that is not empty overlaps itself entirely. */
  lemma IouOfItself(a: Face)
    requires a.x1 < a.x2 && a.y1 < a.y2
    ensures Iou(a, a) == 1.0
  {
    hide Iou, UnitCells;
    IouCountsCells(a, a);
    SelfCells(a);
    WholeQuotient(|UnitCells(a)|);
  }

  /** Boxes without a common cell do not overlap at all. */
  lemma IouOfDisjoint(a: Face, b: Face)
    requires Boxed(a) && Boxed(b) && UnitCells(a) !! UnitCells(b)
    ensures Iou(a, b) == 0.0
  {
    hide Iou, UnitCells;
    IouCountsCells(a, b);
    assert UnitCells(a) * UnitCells(b) == {};
    if |UnitCells(a) + UnitCells(b)| > 0 { NothingOver(|UnitCells(a) + UnitCells(b)|); }
  }

  // ----- sorting -----

  predicate Descending(fs: seq<Face>) { forall i, j :: 0 <= i < j < |fs| ==> fs[i].score >= fs[j].score }

  function Insert(f: Face, fs: seq<Face>): seq<Face> {
    if fs == [] || f.score >= fs[0].score then [f] + fs else [fs[0]] + Insert(f, fs[1..])
  }

  /** Stable sort by descending score. */
  function SortByScore(fs: seq<Face>): seq<Face> {
    if fs == [] then [] else Insert(fs[0], SortByScore(fs[1..]))
  }

  function WithScore(fs: seq<Face>, v: real): seq<Face> {
    if fs == [] then []
    else if fs[0].score == v then [fs[0]] + WithScore(fs[1..], v)
    else WithScore(fs[1..], v)
  }

  lemma {:induction false} InsertPermutes(f: Face, fs: seq<Face>)
    ensures multiset(Insert(f, fs)) == multiset{f} + multiset(fs)
  {
    if fs == [] || f.score >= fs[0].score {
    } else {
      InsertPermutes(f, fs[1..]);
      assert fs == [fs[0]] + fs[1..];
    }
  }

  lemma {:induction false} InsertDescends(f: Face, fs: seq<Face>)
    requires Descending(fs)
    ensures Descending(Insert(f, fs))
  {
    if fs == [] || f.score >= fs[0].score {
    } else {
      var rest := Insert(f, fs[1..]);
      InsertDescends(f, fs[1..]);
      InsertPermutes(f, fs[1..]);
      forall k | 0 <= k < |rest| ensures rest[k].score <= fs[0].score {
        assert rest[k] in multiset(rest);
        assert rest[k] == f || rest[k] in fs[1..];
      }
    }
  }

  lemma {:induction false} InsertIsStable(f: Face, fs: seq<Face>, v: real)
    ensures WithScore(Insert(f, fs), v) == if f.score == v then [f] + WithScore(fs, v) else WithScore(fs, v)
  {
    if fs == [] || f.score >= fs[0].score {
      assert ([f] + fs)[1..] == fs;
    } else {
      var rest := Insert(f, fs[1..]);
      InsertIsStable(f, fs[1..], v);
      assert ([fs[0]] + rest)[1..] == rest;
    }
  }

  /** Sorting yields a descending permutation that keeps equal scores in their original order. */
  lemma {:induction false} SortSorts(fs: seq<Face>, v: real)
    ensures Descending(SortByScore(fs))
    ensures multiset(SortByScore(fs)) == multiset(fs)
    ensures WithScore(SortByScore(fs), v) == WithScore(fs, v)
  {
    if fs != [] {
      SortSorts(fs[1..], v);
      InsertPermutes(fs[0], SortByScore(fs[1..]));
      InsertDescends(fs[0], SortByScore(fs[1..]));
      InsertIsStable(fs[0], SortByScore(fs[1..]), v);
      assert fs == [fs[0]] + fs[1..];
    }
  }

  // ----- suppression -----

  /** Some kept face that scores at least as high overlaps `f` beyond the threshold. */
  predicate Covered(f: Face, kept: seq<Face>, threshold: real) {
    exists k :: 0 <= k < |kept| && kept[k].score >= f.score && Iou(kept[k], f) > threshold
  }

  predicate PairwiseApart(kept: seq<Face>, threshold: real) {
    forall i, j :: 0 <= i < j < |kept| ==> Iou(kept[i], kept[j]) <= threshold
  }

  predicate Overlapped(f: Face, kept: seq<Face>, threshold: real) {
    exists k :: 0 <= k < |kept| && Iou(kept[k], f) > threshold
  }

  /** Greedy selection: a face is kept exactly when no face kept before it overlaps it. */
  function Greedy(faces: seq<Face>, kept: seq<Face>, threshold: real): seq<Face> {
    if faces == [] then kept
    else Greedy(faces[1..], if Overlapped(faces[0], kept, threshold) then kept else kept + [faces[0]], threshold)
  }

  /** `flags` after the faces `kept` have suppressed what follows them. */
  ghost predicate Flags(sorted: seq<Face>, flags: seq<bool>, from: nat, kept: seq<Face>, threshold: real)
    requires |flags| == |sorted|
  {
    forall j :: from <= j < |sorted| ==>
      (flags[j] <==> Overlapped(sorted[j], kept, threshold))
  }

  /** The inner loop: the newly kept face suppresses every later face it overlaps. */
  method Suppress(sorted: seq<Face>, suppressed: array<bool>, i: nat, threshold: real)
    requires suppressed.Length == |sorted| && i < |sorted|
    modifies suppressed
    ensures forall j :: i < j < |sorted| ==>
      (suppressed[j] <==> old(suppressed[j]) || Iou(sorted[i], sorted[j]) > threshold)
    ensures forall j :: 0 <= j <= i ==> suppressed[j] == old(suppressed[j])
  {
    for j := i + 1 to |sorted|
      invariant forall k :: i < k < j ==>
        (suppressed[k] <==> old(suppressed[k]) || Iou(sorted[i], sorted[k]) > threshold)
      invariant forall k :: j <= k < |sorted| ==> suppressed[k] == old(suppressed[k])
      invariant forall k :: 0 <= k <= i ==> suppressed[k] == old(suppressed[k])
    {
      if suppressed[j] { continue; }
      if Iou(sorted[i], sorted[j]) > threshold {
        suppressed[j] := true;
      }
    }
  }

  /** What holds once the first `i` sorted faces have been decided. */
  ghost predicate Decided(sorted: seq<Face>, i: nat, flags: seq<bool>, kept: seq<Face>, dropped: seq<Face>,
                          threshold: real) {
    && i <= |sorted| == |flags|
    && multiset(sorted[..i]) == multiset(kept) + multiset(dropped)
    && Descending(kept) && PairwiseApart(kept, threshold)
    && (forall k, j :: 0 <= k < |kept| && i <= j < |sorted| ==> kept[k].score >= sorted[j].score)
    && (forall k :: 0 <= k < |dropped| ==> Covered(dropped[k], kept, threshold))
    && Flags(sorted, flags, i, kept, threshold)
    && Greedy(sorted[i..], kept, threshold) == Greedy(sorted, [], threshold)
  }

  lemma KeptFlags(sorted: seq<Face>, flags: seq<bool>, flags': seq<bool>, i: nat, kept: seq<Face>, threshold: real)
    requires |flags| == |flags'| == |sorted| && i < |sorted|
    requires Flags(sorted, flags, i, kept, threshold)
    requires forall j :: i < j < |sorted| ==> (flags'[j] <==> flags[j] || Iou(sorted[i], sorted[j]) > threshold)
    ensures Flags(sorted, flags', i + 1, kept + [sorted[i]], threshold)
  {
    hide Iou;
    var kept' := kept + [sorted[i]];
    forall j | i + 1 <= j < |sorted|
      ensures flags'[j] <==> Overlapped(sorted[j], kept', threshold)
    {
      assert kept'[|kept|] == sorted[i];
      if flags[j] {
        var k :| 0 <= k < |kept| && Iou(kept[k], sorted[j]) > threshold;
        assert kept'[k] == kept[k];
      }
    }
  }

  lemma CoveredStays(dropped: seq<Face>, kept: seq<Face>, f: Face, threshold: real)
    requires forall k :: 0 <= k < |dropped| ==> Covered(dropped[k], kept, threshold)
    ensures forall k :: 0 <= k < |dropped| ==> Covered(dropped[k], kept + [f], threshold)
  {
    hide Iou;
    forall k | 0 <= k < |dropped| ensures Covered(dropped[k], kept + [f], threshold) {
      var i :| 0 <= i < |kept| && kept[i].score >= dropped[k].score && Iou(kept[i], dropped[k]) > threshold;
      assert (kept + [f])[i] == kept[i];
    }
  }

  lemma KeepDecided(sorted: seq<Face>, i: nat, flags: seq<bool>, flags': seq<bool>, kept: seq<Face>,
                    dropped: seq<Face>, threshold: real)
    requires Descending(sorted) && i < |sorted| == |flags'|
    requires Decided(sorted, i, flags, kept, dropped, threshold) && !flags[i]
    requires forall j :: i < j < |sorted| ==> (flags'[j] <==> flags[j] || Iou(sorted[i], sorted[j]) > threshold)
    ensures Decided(sorted, i + 1, flags', kept + [sorted[i]], dropped, threshold)
  {
    hide Iou, Covered, PairwiseApart, Descending, Overlapped;
    assert sorted[i..][1..] == sorted[i + 1..];
    assert !Overlapped(sorted[i], kept, threshold);
    hide Flags;
    KeptFlags(sorted, flags, flags', i, kept, threshold);
    CoveredStays(dropped, kept, sorted[i], threshold);
    KeptApart(sorted, i, flags, kept, threshold);
    KeptDescends(sorted, i, kept);
    assert sorted[..i + 1] == sorted[..i] + [sorted[i]];
  }

  lemma KeptDescends(sorted: seq<Face>, i: nat, kept: seq<Face>)
    requires Descending(sorted) && Descending(kept) && i < |sorted|
    requires forall k, j :: 0 <= k < |kept| && i <= j < |sorted| ==> kept[k].score >= sorted[j].score
    ensures Descending(kept + [sorted[i]])
    ensures forall k, j :: 0 <= k < |kept| + 1 && i + 1 <= j < |sorted| ==>
      (kept + [sorted[i]])[k].score >= sorted[j].score
  {}

  lemma KeptApart(sorted: seq<Face>, i: nat, flags: seq<bool>, kept: seq<Face>, threshold: real)
    requires i < |sorted| == |flags| && Flags(sorted, flags, i, kept, threshold) && !flags[i]
    requires PairwiseApart(kept, threshold)
    ensures PairwiseApart(kept + [sorted[i]], threshold)
  {
    hide Iou;
  }

  lemma DropDecided(sorted: seq<Face>, i: nat, flags: seq<bool>, kept: seq<Face>, dropped: seq<Face>, threshold: real)
    requires i < |sorted|
    requires Decided(sorted, i, flags, kept, dropped, threshold) && flags[i]
    ensures Decided(sorted, i + 1, flags, kept, dropped + [sorted[i]], threshold)
  {
    hide Iou, PairwiseApart, Descending;
    assert Overlapped(sorted[i], kept, threshold);
    assert Covered(sorted[i], kept, threshold);
    FlagsLater(sorted, flags, i, kept, threshold);
    hide Covered, Overlapped, Flags;
    assert sorted[i..][1..] == sorted[i + 1..];
    assert Greedy(sorted[i..], kept, threshold) == Greedy(sorted[i + 1..], kept, threshold);
    hide Greedy;
    assert sorted[..i + 1] == sorted[..i] + [sorted[i]];
  }

  lemma FlagsLater(sorted: seq<Face>, flags: seq<bool>, i: nat, kept: seq<Face>, threshold: real)
    requires |flags| == |sorted| && Flags(sorted, flags, i, kept, threshold)
    ensures Flags(sorted, flags, i + 1, kept, threshold)
  {
    hide Overlapped;
  }

  /** Kept faces are a descending sub-multiset of the input, overlapping pairwise by at most `threshold`, and every face
      that was dropped is covered by a kept one. */
  method Suppressed(faces: seq<Face>, threshold: real) returns (result: seq<Face>)
    ensures Descending(result)
    ensures multiset(result) <= multiset(faces)
    ensures PairwiseApart(result, threshold)
    ensures forall f | f in multiset(faces) - multiset(result) :: Covered(f, result, threshold)
    ensures |result| <= |faces|
    ensures result == Greedy(SortByScore(faces), [], threshold)
  {
    hide Iou, Covered, Flags, SortByScore, Overlapped;
    SortSorts(faces, 0.0);
    var sorted := SortByScore(faces);
    var suppressed := new bool[|sorted|](i => false);
    result := [];
    ghost var dropped: seq<Face> := [];
    NothingDecided(sorted, suppressed[..], threshold);
    for i := 0 to |sorted|
      invariant Decided(sorted, i, suppressed[..], result, dropped, threshold)
    {
      if suppressed[i] {
        DropDecided(sorted, i, suppressed[..], result, dropped, threshold);
        dropped := dropped + [sorted[i]];
        continue;
      }
      ghost var flags := suppressed[..];
      Suppress(sorted, suppressed, i, threshold);
      KeepDecided(sorted, i, flags, suppressed[..], result, dropped, threshold);
      result := result + [sorted[i]];
    }
    AllDecided(faces, sorted, suppressed[..], result, dropped, threshold);
  }

  lemma NothingDecided(sorted: seq<Face>, flags: seq<bool>, threshold: real)
    requires |flags| == |sorted| && forall j :: 0 <= j < |flags| ==> !flags[j]
    ensures Decided(sorted, 0, flags, [], [], threshold)
  {
    assert sorted[0..] == sorted;
  }

  lemma AllDecided(faces: seq<Face>, sorted: seq<Face>, flags: seq<bool>, kept: seq<Face>, dropped: seq<Face>,
                   threshold: real)
    requires multiset(sorted) == multiset(faces)
    requires Decided(sorted, |sorted|, flags, kept, dropped, threshold)
    ensures multiset(kept) <= multiset(faces) && |kept| <= |faces|
    ensures kept == Greedy(sorted, [], threshold)
    ensures forall f | f in multiset(faces) - multiset(kept) :: Covered(f, kept, threshold)
  {
    hide Iou, Covered, Flags, PairwiseApart;
    assert sorted[..|sorted|] == sorted;
    assert multiset(faces) - multiset(kept) == multiset(dropped);
    assert |multiset(faces)| == |faces| && |multiset(kept)| == |kept|;
  }
}
