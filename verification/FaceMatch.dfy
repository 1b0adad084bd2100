/**
 Best-match search over enrolled embeddings, with exact real arithmetic: the checked
 search over slices, the unchecked one over a flat buffer, and their agreement on
 normalised vectors.
 */
module FaceMatch {
  import opened Wrappers

  const FACE_EMBEDDING_DIM: nat := 512

  type Vector = seq<real>

  function Dot(a: Vector, b: Vector): real
    requires |a| == |b|
  {
    if a == [] then 0.0 else a[0] * b[0] + Dot(a[1..], b[1..])
  }

  /** Accumulates the products left to right. */
  method DotProduct(a: Vector, b: Vector) returns (sum: real)
    requires |a| == |b|
    ensures sum == Dot(a, b)
  {
    sum := 0.0;
    for i := 0 to |a|
      invariant sum + Dot(a[i..], b[i..]) == Dot(a, b)
    {
      assert a[i..][1..] == a[i + 1..] && b[i..][1..] == b[i + 1..];
      sum := sum + a[i] * b[i];
    }
  }

  // ----- the inner product by its laws -----

  function Sum(a: Vector, b: Vector): (s: Vector)
    requires |a| == |b|
    ensures |s| == |a|
  {
    seq(|a|, i requires 0 <= i < |a| => a[i] + b[i])
  }

  function Times(x: real, a: Vector): (s: Vector)
    ensures |s| == |a|
  {
    seq(|a|, i requires 0 <= i < |a| => x * a[i])
  }

  /** One at place `i`, zero elsewhere. */
  function Unit(n: nat, i: nat): (s: Vector)
    ensures |s| == n
  {
    seq(n, j requires 0 <= j < n => if j == i then 1.0 else 0.0)
  }

  lemma DotStep(a: Vector, b: Vector)
    requires |a| == |b| > 0
    ensures Dot(a, b) == a[0] * b[0] + Dot(a[1..], b[1..])
  {}

  lemma {:induction false} DotCommutes(a: Vector, b: Vector)
    requires |a| == |b|
    ensures Dot(a, b) == Dot(b, a)
  {
    if a != [] { DotCommutes(a[1..], b[1..]); }
  }

  lemma {:induction false} DotAdds(a: Vector, b: Vector, c: Vector)
    requires |a| == |b| == |c|
    ensures Dot(a, Sum(b, c)) == Dot(a, b) + Dot(a, c)
  {
    if a != [] {
      hide Dot;
      DotAdds(a[1..], b[1..], c[1..]);
      assert Sum(b, c)[1..] == Sum(b[1..], c[1..]);
      DotStep(a, Sum(b, c));
      DotStep(a, b);
      DotStep(a, c);
      Distributes(a[0], b[0], c[0]);
    }
  }

  lemma Distributes(a: real, b: real, c: real)
    ensures a * (b + c) == a * b + a * c
  {}

  lemma {:induction false} DotScales(a: Vector, x: real, b: Vector)
    requires |a| == |b|
    ensures Dot(a, Times(x, b)) == x * Dot(a, b)
  {
    if a != [] {
      hide Dot;
      DotScales(a[1..], x, b[1..]);
      TimesTail(x, b);
      DotStep(a, Times(x, b));
      DotStep(a, b);
      ScalesOver(a[0], b[0], x, Dot(a[1..], b[1..]));
    }
  }

  lemma TimesTail(x: real, b: Vector)
    requires b != []
    ensures Times(x, b)[1..] == Times(x, b[1..]) && Times(x, b)[0] == x * b[0]
  {
    forall i | 0 <= i < |b| - 1 ensures Times(x, b)[1..][i] == Times(x, b[1..])[i] {
      assert b[1..][i] == b[i + 1];
    }
  }

  lemma ScalesOver(a: real, b: real, x: real, d: real)
    ensures a * (x * b) + x * d == x * (a * b + d)
  {}

  /** The product is symmetric and linear. */
  lemma DotIsLinear(a: Vector, b: Vector, c: Vector, x: real)
    requires |a| == |b| == |c|
    ensures Dot(a, b) == Dot(b, a)
    ensures Dot(a, Sum(b, c)) == Dot(a, b) + Dot(a, c)
    ensures Dot(a, Times(x, b)) == x * Dot(a, b)
  {
    hide Dot;
    DotCommutes(a, b);
    DotAdds(a, b, c);
    DotScales(a, x, b);
  }

  /** It picks components out; with the laws above this determines it. */
  lemma {:induction false} DotOfUnit(a: Vector, i: nat)
    requires i < |a|
    ensures Dot(a, Unit(|a|, i)) == a[i]
  {
    var u := Unit(|a|, i);
    if i == 0 {
      DotOfZeros(a[1..], u[1..]);
    } else {
      DotOfUnit(a[1..], i - 1);
      assert u[1..] == Unit(|a| - 1, i - 1);
    }
  }

  lemma {:induction false} DotOfZeros(a: Vector, z: Vector)
    requires |a| == |z| && forall i :: 0 <= i < |z| ==> z[i] == 0.0
    ensures Dot(a, z) == 0.0
  {
    if a != [] { DotOfZeros(a[1..], z[1..]); }
  }

  predicate Normalised(v: Vector) { Dot(v, v) <= 1.0 }

  function Clamp(x: real): real { if x < -1.0 then -1.0 else if x > 1.0 then 1.0 else x }

  lemma SquareExpands(x: real, y: real)
    ensures 0.0 <= x * x + y * y - 2.0 * (x * y)
  {
    var d := x - y;
    assert d * d >= 0.0;
    assert d * d == x * x + y * y - 2.0 * (x * y);
  }

  lemma {:induction false} TwiceDotBounded(a: Vector, b: Vector)
    requires |a| == |b|
    ensures -(Dot(a, a) + Dot(b, b)) <= 2.0 * Dot(a, b) <= Dot(a, a) + Dot(b, b)
  {
    if a != [] {
      TwiceDotBounded(a[1..], b[1..]);
      SquareExpands(a[0], b[0]);
      SquareExpands(a[0], -b[0]);
    }
  }

  /** Normalised vectors have a similarity in [-1, 1], so clamping it changes nothing. */
  lemma ClampIsIdentity(a: Vector, b: Vector)
    requires |a| == |b| && Normalised(a) && Normalised(b)
    ensures Clamp(Dot(a, b)) == Dot(a, b)
  {
    TwiceDotBounded(a, b);
  }

  // ----- what a search returns -----

  datatype Match = Match(index: Option<nat>, score: real)

  /** The first of the largest scores. */
  ghost predicate FirstBest(scores: seq<real>, i: nat) {
    && i < |scores|
    && (forall j :: 0 <= j < |scores| ==> scores[j] <= scores[i])
    && (forall j :: 0 <= j < i ==> scores[j] < scores[i])
  }

  lemma FirstBestUnique(scores: seq<real>, i: nat, j: nat)
    requires FirstBest(scores, i) && FirstBest(scores, j)
    ensures i == j
  {
    assert scores[i] <= scores[j] && scores[j] <= scores[i];
  }

  /** `m` reports the first best score, with its index exactly when it reaches the threshold. */
  ghost predicate Reports(m: Match, scores: seq<real>, threshold: real) {
    if scores == [] then m == Match(None, 0.0)
    else
      exists i: nat ::
        FirstBest(scores, i) && m == Match(if scores[i] >= threshold then Some(i) else None, scores[i])
  }

  lemma ReportsUnique(m: Match, n: Match, scores: seq<real>, threshold: real)
    requires Reports(m, scores, threshold) && Reports(n, scores, threshold)
    ensures m == n
  {
    if scores != [] {
      var i: nat :| FirstBest(scores, i) && m == Match(if scores[i] >= threshold then Some(i) else None, scores[i]);
      var j: nat :| FirstBest(scores, j) && n == Match(if scores[j] >= threshold then Some(j) else None, scores[j]);
      FirstBestUnique(scores, i, j);
    }
  }

  /** The running best of a search: nothing yet, or the first best of the scores seen. */
  ghost predicate BestSoFar(scores: seq<real>, index: nat, best: Option<real>) {
    if scores == [] then best.None? else FirstBest(scores, index) && best == Some(scores[index])
  }

  /** A score that is strictly better takes over; any other leaves the first best in place. */
  lemma BestStep(scores: seq<real>, index: nat, best: Option<real>, score: real)
    requires BestSoFar(scores, index, best)
    ensures if best.None? || score > best.value then BestSoFar(scores + [score], |scores|, Some(score))
            else BestSoFar(scores + [score], index, best)
  {}

  lemma BestReports(scores: seq<real>, index: nat, best: Option<real>, threshold: real)
    requires BestSoFar(scores, index, best) && scores != []
    ensures best.Some?
    ensures Reports(Match(if best.value >= threshold then Some(index) else None, best.value), scores, threshold)
  {}

  lemma EmptyReports(threshold: real)
    ensures Reports(Match(None, 0.0), [], threshold) && BestSoFar([], 0, None)
  {}

  // ----- the checked search -----

  datatype MatchError = WrongLength(length: nat)

  predicate AllSized(vs: seq<Vector>) { forall i :: 0 <= i < |vs| ==> |vs[i]| == FACE_EMBEDDING_DIM }

  function ClampedScores(query: Vector, known: seq<Vector>): (s: seq<real>)
    requires |query| == FACE_EMBEDDING_DIM && AllSized(known)
    ensures |s| == |known|
    ensures forall i :: 0 <= i < |known| ==> s[i] == Clamp(Dot(query, known[i]))
  {
    if known == [] then [] else ClampedScores(query, known[..|known| - 1]) + [Clamp(Dot(query, known[|known| - 1]))]
  }

  method FindBestMatch(query: Vector, known: seq<Vector>, threshold: real) returns (r: Result<Match, MatchError>)
    ensures |query| != FACE_EMBEDDING_DIM ==> r == Err(WrongLength(|query|))
    ensures r.Ok? <==> |query| == FACE_EMBEDDING_DIM && AllSized(known)
    ensures r.Ok? ==> Reports(r.value, ClampedScores(query, known), threshold)
  {
    hide Dot, BestSoFar, Reports, Clamp;
    EmptyReports(threshold);
    if |query| != FACE_EMBEDDING_DIM { return Err(WrongLength(|query|)); }
    if known == [] { return Ok(Match(None, 0.0)); }
    var bestIndex, bestScore: Option<real> := 0, None;
    for i := 0 to |known|
      invariant AllSized(known[..i]) && BestSoFar(ClampedScores(query, known[..i]), bestIndex, bestScore)
    {
      if |known[i]| != FACE_EMBEDDING_DIM { return Err(WrongLength(|known[i]|)); }
      var product := DotProduct(query, known[i]);
      var score := Clamp(product);
      assert known[..i + 1][..i] == known[..i];
      BestStep(ClampedScores(query, known[..i]), bestIndex, bestScore, score);
      if bestScore.None? || score > bestScore.value {
        bestIndex, bestScore := i, Some(score);
      }
    }
    assert known[..|known|] == known;
    BestReports(ClampedScores(query, known), bestIndex, bestScore, threshold);
    return Ok(Match(if bestScore.value >= threshold then Some(bestIndex) else None, bestScore.value));
  }

  // ----- the flat search -----

  function Row(flat: seq<real>, n: nat, i: nat): (v: Vector)
    requires |flat| == n * FACE_EMBEDDING_DIM && i < n
    ensures |v| == FACE_EMBEDDING_DIM
  {
    flat[i * FACE_EMBEDDING_DIM..(i + 1) * FACE_EMBEDDING_DIM]
  }

  function Rows(flat: seq<real>, n: nat): (vs: seq<Vector>)
    requires |flat| == n * FACE_EMBEDDING_DIM
    ensures |vs| == n && AllSized(vs) && forall i :: 0 <= i < n ==> vs[i] == Row(flat, n, i)
  {
    seq(n, i requires 0 <= i < n => Row(flat, n, i))
  }

  function Scores(query: Vector, known: seq<Vector>): (s: seq<real>)
    requires |query| == FACE_EMBEDDING_DIM && AllSized(known)
    ensures |s| == |known|
    ensures forall i :: 0 <= i < |known| ==> s[i] == Dot(query, known[i])
  {
    if known == [] then [] else Scores(query, known[..|known| - 1]) + [Dot(query, known[|known| - 1])]
  }

  lemma RowSlice(flat: seq<real>, n: nat, i: nat)
    requires |flat| == n * FACE_EMBEDDING_DIM && i < n
    ensures 0 <= i * FACE_EMBEDDING_DIM <= i * FACE_EMBEDDING_DIM + FACE_EMBEDDING_DIM <= |flat|
    ensures flat[i * FACE_EMBEDDING_DIM..i * FACE_EMBEDDING_DIM + FACE_EMBEDDING_DIM] == Rows(flat, n)[i]
  {}

  lemma ScoresOfNothing(query: Vector)
    requires |query| == FACE_EMBEDDING_DIM
    ensures Scores(query, []) == []
  {}

  lemma ScoresStep(query: Vector, rows: seq<Vector>, i: nat)
    requires |query| == FACE_EMBEDDING_DIM && AllSized(rows) && i < |rows|
    ensures Scores(query, rows[..i + 1]) == Scores(query, rows[..i]) + [Dot(query, rows[i])]
  {
    hide Dot;
    assert rows[..i + 1][..i] == rows[..i];
  }

  method FindBestMatchFlat(query: Vector, flat: seq<real>, n: nat, threshold: real) returns (m: Match)
    requires |query| == FACE_EMBEDDING_DIM && |flat| == n * FACE_EMBEDDING_DIM
    ensures Reports(m, Scores(query, Rows(flat, n)), threshold)
  {
    hide Dot, BestSoFar, Reports, Rows, Scores;
    EmptyReports(threshold);
    ScoresOfNothing(query);
    if n == 0 { return Match(None, 0.0); }
    var bestIndex, bestScore: Option<real> := 0, None;
    ghost var rows := Rows(flat, n);
    for i := 0 to n
      invariant BestSoFar(Scores(query, rows[..i]), bestIndex, bestScore)
    {
      var offset := i * FACE_EMBEDDING_DIM;
      RowSlice(flat, n, i);
      var known := flat[offset..offset + FACE_EMBEDDING_DIM];
      var score := DotProduct(query, known);
      ScoresStep(query, rows, i);
      BestStep(Scores(query, rows[..i]), bestIndex, bestScore, score);
      if bestScore.None? || score > bestScore.value {
        bestIndex, bestScore := i, Some(score);
      }
    }
    assert rows[..n] == rows;
    BestReports(Scores(query, rows), bestIndex, bestScore, threshold);
    return Match(if bestScore.value >= threshold then Some(bestIndex) else None, bestScore.value);
  }

  /** On normalised vectors the flat search returns the same index and score as the checked one. */
  lemma FlatAgrees(query: Vector, flat: seq<real>, n: nat, threshold: real, m: Match, checked: Match)
    requires |query| == FACE_EMBEDDING_DIM && |flat| == n * FACE_EMBEDDING_DIM
    requires Normalised(query) && forall i :: 0 <= i < n ==> Normalised(Row(flat, n, i))
    requires Reports(m, Scores(query, Rows(flat, n)), threshold)
    requires Reports(checked, ClampedScores(query, Rows(flat, n)), threshold)
    ensures m == checked
  {
    var rows := Rows(flat, n);
    forall i | 0 <= i < n ensures Scores(query, rows)[i] == ClampedScores(query, rows)[i] {
      ClampIsIdentity(query, rows[i]);
    }
    assert Scores(query, rows) == ClampedScores(query, rows);
    ReportsUnique(m, checked, Scores(query, rows), threshold);
  }
}
