/**
 * What triangulating a primitive produces, as values: the candidate
 * triangles a triangle strip or a triangle fan yields, and the flat vertex
 * list the triangulators build from them, skipping degenerate ones.  The
 * vertex type is generic; all the triangulators need of it is equality.
 */
module Triangulation {

  /** EGXPrimitiveType, as far as this core distinguishes it. */
  datatype PrimitiveType = None | Triangles | TriangleStrips | TriangleFan | Other(code: int)

  datatype Triangle<V> = Triangle(v0: V, v1: V, v2: V)

  predicate PairwiseDistinct<V(==)>(vs: seq<V>) {
    forall i, j :: 0 <= i < j < |vs| ==> vs[i] != vs[j]
  }

  /** Two or more corners are the same vertex: the corners are not pairwise distinct. */
  predicate Degenerate<V(==)>(t: Triangle<V>)
    ensures Degenerate(t) <==> !PairwiseDistinct([t.v0, t.v1, t.v2])
  {
    var corners := [t.v0, t.v1, t.v2];
    assert corners[0] == t.v0 && corners[1] == t.v1 && corners[2] == t.v2;
    t.v0 == t.v1 || t.v0 == t.v2 || t.v1 == t.v2
  }

  /** The strip triangle ending at vertex i: the winding alternates with the parity of i. */
  function StripTriangle<V>(vs: seq<V>, i: nat): Triangle<V>
    requires 2 <= i < |vs|
  {
    if i % 2 != 0 then Triangle(vs[i - 2], vs[i], vs[i - 1])
    else Triangle(vs[i - 2], vs[i - 1], vs[i])
  }

  /** The fan triangle starting at vertex i: it closes on the pivot, vertex 0. */
  function FanTriangle<V>(vs: seq<V>, i: nat): Triangle<V>
    requires 1 <= i < |vs| - 1
  {
    Triangle(vs[i], vs[i + 1], vs[0])
  }

  /** One candidate per strip index i in [2, |vs|), in increasing i. */
  function StripCandidates<V>(vs: seq<V>): (r: seq<Triangle<V>>)
    ensures |r| == if |vs| < 2 then 0 else |vs| - 2
    ensures forall j :: 0 <= j < |r| ==> r[j] == StripTriangle(vs, j + 2)
  {
    if |vs| < 2 then [] else seq(|vs| - 2, j requires 0 <= j < |vs| - 2 => StripTriangle(vs, j + 2))
  }

  /** One candidate per fan index i in [1, |vs| - 1), in increasing i. */
  function FanCandidates<V>(vs: seq<V>): (r: seq<Triangle<V>>)
    ensures |r| == if |vs| < 2 then 0 else |vs| - 2
    ensures forall j :: 0 <= j < |r| ==> r[j] == FanTriangle(vs, j + 1)
  {
    if |vs| < 2 then [] else seq(|vs| - 2, j requires 0 <= j < |vs| - 2 => FanTriangle(vs, j + 1))
  }

  /** What one candidate contributes to the output: its three corners, or nothing when it is degenerate. */
  function Emit<V(==)>(t: Triangle<V>): seq<V> {
    if Degenerate(t) then [] else [t.v0, t.v1, t.v2]
  }

  /** The output once the first k candidates have been visited. */
  function EmitAll<V(==)>(ts: seq<Triangle<V>>, k: nat): seq<V>
    requires k <= |ts|
  {
    if k == 0 then [] else EmitAll(ts, k - 1) + Emit(ts[k - 1])
  }

  /** The strip output once every index below i has been visited. */
  function StripUpTo<V(==)>(vs: seq<V>, i: nat): seq<V>
    requires i <= |vs|
  {
    if i <= 2 then [] else StripUpTo(vs, i - 1) + Emit(StripTriangle(vs, i - 1))
  }

  /** The fan output once every index below i has been visited. */
  function FanUpTo<V(==)>(vs: seq<V>, i: nat): seq<V>
    requires i < |vs|
  {
    if i <= 1 then [] else FanUpTo(vs, i - 1) + Emit(FanTriangle(vs, i - 1))
  }

  /** The vertex list GXPrimitive::TriangulateTriangleStrip leaves behind. */
  function Strip<V(==)>(vs: seq<V>): seq<V> {
    StripUpTo(vs, |vs|)
  }

  /**
   * The vertex list GXPrimitive::TriangulateTriangleFan leaves behind.  The
   * source's loop bound `size() - 1` underflows on an empty list, so the
   * triangulator requires a vertex (see Triangulable); the empty case is given
   * the value [] here only so that the function is total.
   */
  function Fan<V(==)>(vs: seq<V>): seq<V> {
    if |vs| == 0 then [] else FanUpTo(vs, |vs| - 1)
  }

  /** The fan triangulator underflows `size() - 1` on an empty list: every other primitive is fine. */
  predicate Triangulable<V>(kind: PrimitiveType, vs: seq<V>) {
    kind == TriangleFan ==> |vs| >= 1
  }

  /** The vertex list GXPrimitive::TriangluatePrimitive leaves behind. */
  function Triangulated<V(==)>(kind: PrimitiveType, vs: seq<V>): seq<V>
  {
    match kind
    case TriangleStrips => Strip(vs)
    case TriangleFan => Fan(vs)
    case _ => vs
  }

  /** The triangle a flat triangle list holds at position k. */
  function TriangleAt<V>(out: seq<V>, k: nat): Triangle<V>
    requires 3 * k + 2 < |out|
  {
    Triangle(out[3 * k], out[3 * k + 1], out[3 * k + 2])
  }

  // ---------------------------------------------------------------------------
  // The filter, for any candidate list

  /** The output is whole triangles, at most one per candidate visited. */
  lemma {:induction false} EmitAllSize<V>(ts: seq<Triangle<V>>, k: nat)
    requires k <= |ts|
    ensures |EmitAll(ts, k)| % 3 == 0 && |EmitAll(ts, k)| <= 3 * k
  {
    if k > 0 {
      EmitAllSize(ts, k - 1);
    }
  }

  /** Appending to a flat list leaves the triangles already in it where they are. */
  lemma TriangleAtPrefix<V>(out: seq<V>, extra: seq<V>, m: nat)
    requires 3 * m + 2 < |out|
    ensures TriangleAt(out + extra, m) == TriangleAt(out, m)
  {
  }

  /** Every output triangle is a non-degenerate candidate. */
  lemma {:induction false} EmitAllSound<V>(ts: seq<Triangle<V>>, k: nat)
    requires k <= |ts|
    ensures forall m :: 0 <= m < |EmitAll(ts, k)| / 3 ==>
      exists j :: 0 <= j < k && !Degenerate(ts[j]) && TriangleAt(EmitAll(ts, k), m) == ts[j]
  {
    if k > 0 {
      var prev, out := EmitAll(ts, k - 1), EmitAll(ts, k);
      EmitAllSound(ts, k - 1);
      EmitAllSize(ts, k - 1);
      forall m | 0 <= m < |out| / 3
        ensures exists j :: 0 <= j < k && !Degenerate(ts[j]) && TriangleAt(out, m) == ts[j]
      {
        if m < |prev| / 3 {
          var j :| 0 <= j < k - 1 && !Degenerate(ts[j]) && TriangleAt(prev, m) == ts[j];
          TriangleAtPrefix(prev, Emit(ts[k - 1]), m);
        } else {
          assert !Degenerate(ts[k - 1]) && TriangleAt(out, m) == ts[k - 1];
        }
      }
    } else {
      assert EmitAll(ts, k) == [];
    }
  }

  /** How many of the first k candidates are not degenerate: the output position of candidate k when it is kept. */
  function Kept<V(==)>(ts: seq<Triangle<V>>, k: nat): nat
    requires k <= |ts|
  {
    if k == 0 then 0 else Kept(ts, k - 1) + (if Degenerate(ts[k - 1]) then 0 else 1)
  }

  /** The output holds exactly one triangle per kept candidate. */
  lemma {:induction false} EmitAllLength<V>(ts: seq<Triangle<V>>, k: nat)
    requires k <= |ts|
    ensures |EmitAll(ts, k)| == 3 * Kept(ts, k)
  {
    if k > 0 {
      EmitAllLength(ts, k - 1);
    }
  }

  /** A kept candidate j sits at output position Kept(ts, j), whatever follows it. */
  lemma {:induction false} EmitAllPlaces<V>(ts: seq<Triangle<V>>, k: nat, j: nat)
    requires j < k <= |ts| && !Degenerate(ts[j])
    ensures 3 * Kept(ts, j) + 2 < |EmitAll(ts, k)|
    ensures TriangleAt(EmitAll(ts, k), Kept(ts, j)) == ts[j]
  {
    EmitAllLength(ts, j);
    if j < k - 1 {
      EmitAllPlaces(ts, k - 1, j);
      TriangleAtPrefix(EmitAll(ts, k - 1), Emit(ts[k - 1]), Kept(ts, j));
    }
  }

  /** A kept candidate comes out before every later candidate's position. */
  lemma {:induction false} KeptIncreasing<V>(ts: seq<Triangle<V>>, j: nat, k: nat)
    requires j < k <= |ts| && !Degenerate(ts[j])
    ensures Kept(ts, j) < Kept(ts, k)
  {
    if j < k - 1 {
      KeptIncreasing(ts, j, k - 1);
    }
  }

  /** Two kept candidates come out in their input order. */
  lemma EmitAllInOrder<V>(ts: seq<Triangle<V>>, j1: nat, j2: nat)
    requires j1 < j2 < |ts| && !Degenerate(ts[j1]) && !Degenerate(ts[j2])
    ensures Kept(ts, j1) < Kept(ts, j2)
    ensures 3 * Kept(ts, j2) + 2 < |EmitAll(ts, |ts|)|
    ensures TriangleAt(EmitAll(ts, |ts|), Kept(ts, j1)) == ts[j1]
    ensures TriangleAt(EmitAll(ts, |ts|), Kept(ts, j2)) == ts[j2]
  {
    KeptIncreasing(ts, j1, j2);
    EmitAllPlaces(ts, |ts|, j1);
    EmitAllPlaces(ts, |ts|, j2);
  }

  /** With no degenerate candidate, output triangle m is candidate m. */
  lemma {:induction false} EmitAllOfProper<V>(ts: seq<Triangle<V>>, k: nat)
    requires k <= |ts|
    requires forall j :: 0 <= j < k ==> !Degenerate(ts[j])
    ensures |EmitAll(ts, k)| == 3 * k
    ensures forall m :: 0 <= m < k ==> TriangleAt(EmitAll(ts, k), m) == ts[m]
  {
    if k > 0 {
      var prev := EmitAll(ts, k - 1);
      EmitAllOfProper(ts, k - 1);
      forall m | 0 <= m < k ensures TriangleAt(EmitAll(ts, k), m) == ts[m] {
        if m < k - 1 {
          TriangleAtPrefix(prev, Emit(ts[k - 1]), m);
        }
      }
    }
  }

  /** A degenerate candidate costs the output a triangle. */
  lemma {:induction false} EmitAllDrops<V>(ts: seq<Triangle<V>>, k: nat, j: nat)
    requires j < k <= |ts| && Degenerate(ts[j])
    ensures |EmitAll(ts, k)| < 3 * k
  {
    EmitAllSize(ts, k - 1);
    if j < k - 1 {
      EmitAllDrops(ts, k - 1, j);
    }
  }

  // ---------------------------------------------------------------------------
  // Triangle strips

  /** The strip triangulator is the filter applied to the strip candidates. */
  lemma {:induction false} StripUpToIsEmitAll<V>(vs: seq<V>, i: nat)
    requires 2 <= i <= |vs|
    ensures StripUpTo(vs, i) == EmitAll(StripCandidates(vs), i - 2)
  {
    if i > 2 {
      StripUpToIsEmitAll(vs, i - 1);
      assert StripCandidates(vs)[i - 3] == StripTriangle(vs, i - 1);
    }
  }

  lemma StripIsEmitAll<V>(vs: seq<V>)
    ensures Strip(vs) == EmitAll(StripCandidates(vs), |StripCandidates(vs)|)
  {
    if |vs| >= 2 {
      StripUpToIsEmitAll(vs, |vs|);
    }
  }

  /** A strip leaves whole triangles, at most one per index in [2, n), and none for fewer than three vertices. */
  lemma StripSize<V>(vs: seq<V>)
    ensures |Strip(vs)| % 3 == 0
    ensures |vs| < 3 ==> Strip(vs) == []
    ensures |vs| >= 3 ==> |Strip(vs)| <= 3 * (|vs| - 2)
  {
    var cs := StripCandidates(vs);
    StripIsEmitAll(vs);
    EmitAllSize(cs, |cs|);
  }

  /** Every triangle of the strip output is the strip triangle of some index i, and is not degenerate. */
  lemma StripTrianglesAreCandidates<V>(vs: seq<V>)
    ensures forall k :: 0 <= k < |Strip(vs)| / 3 ==>
      !Degenerate(TriangleAt(Strip(vs), k)) &&
      exists i :: 2 <= i < |vs| && TriangleAt(Strip(vs), k) == StripTriangle(vs, i)
  {
    var cs := StripCandidates(vs);
    StripIsEmitAll(vs);
    var out := Strip(vs);
    EmitAllSound(cs, |cs|);
    assert out == EmitAll(cs, |cs|);
    forall k | 0 <= k < |out| / 3
      ensures !Degenerate(TriangleAt(out, k)) && exists i :: 2 <= i < |vs| && TriangleAt(out, k) == StripTriangle(vs, i)
    {
      assert 0 <= k < |EmitAll(cs, |cs|)| / 3;
      var j :| 0 <= j < |cs| && !Degenerate(cs[j]) && TriangleAt(EmitAll(cs, |cs|), k) == cs[j];
      assert TriangleAt(out, k) == StripTriangle(vs, j + 2);
    }
  }

  /** Every non-degenerate strip triangle is in the output. */
  lemma StripKeepsProperTriangles<V>(vs: seq<V>)
    ensures forall i :: 2 <= i < |vs| && !Degenerate(StripTriangle(vs, i)) ==>
      exists k :: 0 <= k < |Strip(vs)| / 3 && TriangleAt(Strip(vs), k) == StripTriangle(vs, i)
  {
    var cs := StripCandidates(vs);
    StripIsEmitAll(vs);
    var out := Strip(vs);
    forall i | 2 <= i < |vs|
      ensures !Degenerate(StripTriangle(vs, i)) ==> exists k :: 0 <= k < |out| / 3 && TriangleAt(out, k) == StripTriangle(vs, i)
    {
      if !Degenerate(StripTriangle(vs, i)) {
        assert cs[i - 2] == StripTriangle(vs, i);
        EmitAllPlaces(cs, |cs|, i - 2);
        var k := Kept(cs, i - 2);
        assert 0 <= k < |out| / 3 && TriangleAt(out, k) == StripTriangle(vs, i);
      }
    }
  }

  /** Kept strip triangles come out in increasing index order, whatever is rejected between them. */
  lemma StripInOrder<V>(vs: seq<V>, i1: nat, i2: nat)
    requires 2 <= i1 < i2 < |vs|
    requires !Degenerate(StripTriangle(vs, i1)) && !Degenerate(StripTriangle(vs, i2))
    ensures exists k1, k2 :: (0 <= k1 < k2 < |Strip(vs)| / 3 &&
      TriangleAt(Strip(vs), k1) == StripTriangle(vs, i1) && TriangleAt(Strip(vs), k2) == StripTriangle(vs, i2))
  {
    var cs := StripCandidates(vs);
    StripIsEmitAll(vs);
    assert cs[i1 - 2] == StripTriangle(vs, i1) && cs[i2 - 2] == StripTriangle(vs, i2);
    EmitAllInOrder(cs, i1 - 2, i2 - 2);
    var k1, k2 := Kept(cs, i1 - 2), Kept(cs, i2 - 2);
    assert TriangleAt(Strip(vs), k1) == StripTriangle(vs, i1);
    assert TriangleAt(Strip(vs), k2) == StripTriangle(vs, i2);
  }

  /**
   * With pairwise-distinct vertices nothing is rejected: output triangle k is
   * the strip triangle of index i = k + 2, namely (v[i-2], v[i-1], v[i]) for
   * even i and (v[i-2], v[i], v[i-1]) for odd i, so there are exactly n - 2
   * triangles, in increasing i.
   */
  lemma StripOfDistinct<V>(vs: seq<V>)
    requires |vs| >= 2 && PairwiseDistinct(vs)
    ensures |Strip(vs)| == 3 * (|vs| - 2)
    ensures forall k :: 0 <= k < |vs| - 2 ==>
      TriangleAt(Strip(vs), k) ==
        if k % 2 != 0 then Triangle(vs[k], vs[k + 2], vs[k + 1]) else Triangle(vs[k], vs[k + 1], vs[k + 2])
  {
    var cs := StripCandidates(vs);
    StripIsEmitAll(vs);
    forall j | 0 <= j < |cs| ensures !Degenerate(cs[j]) {
      assert vs[j] != vs[j + 1] && vs[j] != vs[j + 2] && vs[j + 1] != vs[j + 2];
    }
    EmitAllOfProper(cs, |cs|);
    forall k | 0 <= k < |vs| - 2
      ensures TriangleAt(Strip(vs), k) ==
        if k % 2 != 0 then Triangle(vs[k], vs[k + 2], vs[k + 1]) else Triangle(vs[k], vs[k + 1], vs[k + 2])
    {
      assert TriangleAt(Strip(vs), k) == cs[k] == StripTriangle(vs, k + 2);
    }
  }

  /** A strip with a degenerate candidate yields fewer than n - 2 triangles. */
  lemma StripRejectsDegenerate<V>(vs: seq<V>, i: nat)
    requires 2 <= i < |vs| && Degenerate(StripTriangle(vs, i))
    ensures |Strip(vs)| < 3 * (|vs| - 2)
  {
    var cs := StripCandidates(vs);
    StripIsEmitAll(vs);
    EmitAllDrops(cs, |cs|, i - 2);
  }

  /** The five-vertex strip A B C D E becomes A B C, B D C, C D E. */
  lemma StripOfFive<V>(a: V, b: V, c: V, d: V, e: V)
    requires PairwiseDistinct([a, b, c, d, e])
    ensures Strip([a, b, c, d, e]) == [a, b, c, b, d, c, c, d, e]
  {
    var vs := [a, b, c, d, e];
    StripOfDistinct(vs);
    assert vs[0] == a && vs[1] == b && vs[2] == c && vs[3] == d && vs[4] == e;
    assert TriangleAt(Strip(vs), 0) == Triangle(a, b, c);
    assert TriangleAt(Strip(vs), 1) == Triangle(b, d, c);
    assert TriangleAt(Strip(vs), 2) == Triangle(c, d, e);
  }

  // ---------------------------------------------------------------------------
  // Triangle fans

  /** The fan triangulator is the filter applied to the fan candidates. */
  lemma {:induction false} FanUpToIsEmitAll<V>(vs: seq<V>, i: nat)
    requires 1 <= i < |vs|
    ensures FanUpTo(vs, i) == EmitAll(FanCandidates(vs), i - 1)
  {
    if i > 1 {
      FanUpToIsEmitAll(vs, i - 1);
      assert FanCandidates(vs)[i - 2] == FanTriangle(vs, i - 1);
    }
  }

  lemma FanIsEmitAll<V>(vs: seq<V>)
    requires |vs| >= 1
    ensures Fan(vs) == EmitAll(FanCandidates(vs), |FanCandidates(vs)|)
  {
    if |vs| >= 2 {
      FanUpToIsEmitAll(vs, |vs| - 1);
    }
  }

  /** A fan leaves whole triangles, at most one per index in [1, n - 1), and none for fewer than three vertices. */
  lemma FanSize<V>(vs: seq<V>)
    requires |vs| >= 1
    ensures |Fan(vs)| % 3 == 0
    ensures |vs| < 3 ==> Fan(vs) == []
    ensures |vs| >= 3 ==> |Fan(vs)| <= 3 * (|vs| - 2)
  {
    var cs := FanCandidates(vs);
    FanIsEmitAll(vs);
    EmitAllSize(cs, |cs|);
  }

  /** Every triangle of the fan output is the fan triangle of some index i, and is not degenerate. */
  lemma FanTrianglesAreCandidates<V>(vs: seq<V>)
    requires |vs| >= 1
    ensures forall k :: 0 <= k < |Fan(vs)| / 3 ==>
      !Degenerate(TriangleAt(Fan(vs), k)) &&
      exists i :: 1 <= i < |vs| - 1 && TriangleAt(Fan(vs), k) == FanTriangle(vs, i)
  {
    var cs := FanCandidates(vs);
    FanIsEmitAll(vs);
    var out := Fan(vs);
    EmitAllSound(cs, |cs|);
    assert out == EmitAll(cs, |cs|);
    forall k | 0 <= k < |out| / 3
      ensures !Degenerate(TriangleAt(out, k)) && exists i :: 1 <= i < |vs| - 1 && TriangleAt(out, k) == FanTriangle(vs, i)
    {
      assert 0 <= k < |EmitAll(cs, |cs|)| / 3;
      var j :| 0 <= j < |cs| && !Degenerate(cs[j]) && TriangleAt(EmitAll(cs, |cs|), k) == cs[j];
      assert TriangleAt(out, k) == FanTriangle(vs, j + 1);
    }
  }

  /** Every non-degenerate fan triangle is in the output. */
  lemma FanKeepsProperTriangles<V>(vs: seq<V>)
    requires |vs| >= 1
    ensures forall i :: 1 <= i < |vs| - 1 && !Degenerate(FanTriangle(vs, i)) ==>
      exists k :: 0 <= k < |Fan(vs)| / 3 && TriangleAt(Fan(vs), k) == FanTriangle(vs, i)
  {
    var cs := FanCandidates(vs);
    FanIsEmitAll(vs);
    var out := Fan(vs);
    forall i | 1 <= i < |vs| - 1
      ensures !Degenerate(FanTriangle(vs, i)) ==> exists k :: 0 <= k < |out| / 3 && TriangleAt(out, k) == FanTriangle(vs, i)
    {
      if !Degenerate(FanTriangle(vs, i)) {
        assert cs[i - 1] == FanTriangle(vs, i);
        EmitAllPlaces(cs, |cs|, i - 1);
        var k := Kept(cs, i - 1);
        assert 0 <= k < |out| / 3 && TriangleAt(out, k) == FanTriangle(vs, i);
      }
    }
  }

  /** Kept fan triangles come out in increasing index order, whatever is rejected between them. */
  lemma FanInOrder<V>(vs: seq<V>, i1: nat, i2: nat)
    requires 1 <= i1 < i2 < |vs| - 1
    requires !Degenerate(FanTriangle(vs, i1)) && !Degenerate(FanTriangle(vs, i2))
    ensures exists k1, k2 :: (0 <= k1 < k2 < |Fan(vs)| / 3 &&
      TriangleAt(Fan(vs), k1) == FanTriangle(vs, i1) && TriangleAt(Fan(vs), k2) == FanTriangle(vs, i2))
  {
    var cs := FanCandidates(vs);
    FanIsEmitAll(vs);
    assert cs[i1 - 1] == FanTriangle(vs, i1) && cs[i2 - 1] == FanTriangle(vs, i2);
    EmitAllInOrder(cs, i1 - 1, i2 - 1);
    var k1, k2 := Kept(cs, i1 - 1), Kept(cs, i2 - 1);
    assert TriangleAt(Fan(vs), k1) == FanTriangle(vs, i1);
    assert TriangleAt(Fan(vs), k2) == FanTriangle(vs, i2);
  }

  /**
   * With pairwise-distinct vertices nothing is rejected: output triangle k is
   * the fan triangle of index i = k + 1, namely (v[i], v[i+1], v[0]), so there
   * are exactly n - 2 triangles, in increasing i.
   */
  lemma FanOfDistinct<V>(vs: seq<V>)
    requires |vs| >= 2 && PairwiseDistinct(vs)
    ensures |Fan(vs)| == 3 * (|vs| - 2)
    ensures forall k :: 0 <= k < |vs| - 2 ==> TriangleAt(Fan(vs), k) == Triangle(vs[k + 1], vs[k + 2], vs[0])
  {
    var cs := FanCandidates(vs);
    FanIsEmitAll(vs);
    forall j | 0 <= j < |cs| ensures !Degenerate(cs[j]) {
      assert vs[j + 1] != vs[j + 2] && vs[0] != vs[j + 1] && vs[0] != vs[j + 2];
    }
    EmitAllOfProper(cs, |cs|);
    forall k | 0 <= k < |vs| - 2
      ensures TriangleAt(Fan(vs), k) == Triangle(vs[k + 1], vs[k + 2], vs[0])
    {
      assert TriangleAt(Fan(vs), k) == cs[k] == FanTriangle(vs, k + 1);
    }
  }

  /** A fan with a degenerate candidate yields fewer than n - 2 triangles. */
  lemma FanRejectsDegenerate<V>(vs: seq<V>, i: nat)
    requires 1 <= i < |vs| - 1 && Degenerate(FanTriangle(vs, i))
    ensures |Fan(vs)| < 3 * (|vs| - 2)
  {
    var cs := FanCandidates(vs);
    FanIsEmitAll(vs);
    EmitAllDrops(cs, |cs|, i - 1);
  }

  /** The four-vertex fan A B C D becomes B C A, C D A. */
  lemma FanOfFour<V>(a: V, b: V, c: V, d: V)
    requires PairwiseDistinct([a, b, c, d])
    ensures Fan([a, b, c, d]) == [b, c, a, c, d, a]
  {
    var vs := [a, b, c, d];
    FanOfDistinct(vs);
    assert vs[0] == a && vs[1] == b && vs[2] == c && vs[3] == d;
    assert TriangleAt(Fan(vs), 0) == Triangle(b, c, a);
    assert TriangleAt(Fan(vs), 1) == Triangle(c, d, a);
  }

  // ---------------------------------------------------------------------------
  // The dispatcher

  /** Triangles, None and every other kind pass through; only strips and fans are rewritten. */
  lemma TriangulatedPassThrough<V>(kind: PrimitiveType, vs: seq<V>)
    requires kind != TriangleStrips && kind != TriangleFan
    ensures Triangulated(kind, vs) == vs
  {
  }

  /** Whatever the kind, a strip or a fan output is whole, non-degenerate triangles. */
  lemma TriangulatedIsTriangleList<V>(kind: PrimitiveType, vs: seq<V>)
    requires kind == TriangleStrips || kind == TriangleFan
    requires Triangulable(kind, vs)
    ensures var out := Triangulated(kind, vs);
      |out| % 3 == 0 && forall k :: 0 <= k < |out| / 3 ==> !Degenerate(TriangleAt(out, k))
  {
    if kind == TriangleStrips {
      StripSize(vs);
      StripTrianglesAreCandidates(vs);
    } else {
      FanSize(vs);
      FanTrianglesAreCandidates(vs);
    }
  }
}
