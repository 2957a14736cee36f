/** The index structure that the NGon mesh derives from its faces, stated as
    functions: fan triangulation from each face's first vertex, the flat
    triangle index list, the polygon boundary segments, the per-vertex sums
    of unnormalised triangle normals and the flat coordinate arrays.
    The NGon class computes each of these with loops; the lemmas here say
    what the results mean. */
module Fan {
  import opened Vectors

  /** A triangle as three vertex indices, in winding order. */
  datatype Tri = Tri(a: int, b: int, c: int)

  /** A wireframe line segment between two vertex indices. */
  datatype Seg = Seg(start: int, end: int)

  type Face = seq<int>

  function Max0(n: int): nat
  {
    if n > 0 then n else 0
  }

  /** The fan of a face: triangle i joins the first vertex to the edge
      (face[i + 1], face[i + 2]), so a face of k >= 3 indices gives k - 2
      triangles and a shorter face gives none. */
  function FanTriangles(face: Face): (r: seq<Tri>)
    ensures |r| == Max0(|face| - 2)
    ensures forall i :: 0 <= i < |r| ==> r[i].a == face[0] && r[i].b == face[i + 1] && r[i].c == face[i + 2]
  {
    seq(Max0(|face| - 2), i requires 0 <= i < Max0(|face| - 2) => Tri(face[0], face[i + 1], face[i + 2]))
  }

  /** Consecutive fan triangles share the diagonal from the first vertex, and
      every corner of every fan triangle is an index of the face. */
  lemma FanShape(face: Face, i: nat)
    requires i < |FanTriangles(face)|
    ensures var t := FanTriangles(face)[i]; t.a in face && t.b in face && t.c in face
    ensures i + 1 < |FanTriangles(face)| ==> FanTriangles(face)[i].c == FanTriangles(face)[i + 1].b
  {
    var t := FanTriangles(face)[i];
    assert t.a == face[0] && t.b == face[i + 1] && t.c == face[i + 2];
  }

  /** Number of fan triangles of all faces: the sum of max(0, k - 2). */
  function TriangleCount(faces: seq<Face>): nat
  {
    if |faces| == 0 then 0 else TriangleCount(faces[..|faces| - 1]) + Max0(|faces[|faces| - 1]| - 2)
  }

  /** Number of indices of all faces: the sum of k. */
  function TotalArity(faces: seq<Face>): nat
  {
    if |faces| == 0 then 0 else TotalArity(faces[..|faces| - 1]) + |faces[|faces| - 1]|
  }

  /** The fans of all faces, face after face. */
  function MeshTriangles(faces: seq<Face>): (r: seq<Tri>)
    ensures |r| == TriangleCount(faces)
  {
    if |faces| == 0 then [] else MeshTriangles(faces[..|faces| - 1]) + FanTriangles(faces[|faces| - 1])
  }

  lemma {:induction false} MeshTrianglesAppend(f1: seq<Face>, f2: seq<Face>)
    ensures MeshTriangles(f1 + f2) == MeshTriangles(f1) + MeshTriangles(f2)
  {
    if |f2| > 0 {
      var last := |f2| - 1;
      assert (f1 + f2)[..|f1 + f2| - 1] == f1 + f2[..last];
      MeshTrianglesAppend(f1, f2[..last]);
    } else {
      assert f1 + f2 == f1;
    }
  }

  /** A mesh made only of triangles has exactly one fan triangle per face. */
  lemma {:induction false} AllTrianglesCount(faces: seq<Face>)
    requires forall f :: 0 <= f < |faces| ==> |faces[f]| == 3
    ensures TriangleCount(faces) == |faces|
  {
    if |faces| > 0 {
      AllTrianglesCount(faces[..|faces| - 1]);
    }
  }

  /** The corners of a triangle in the order they are emitted: (a, b, c), or
      (c, b, a) when the winding is flipped. */
  function Corners(t: Tri, flip: bool): seq<int>
  {
    if flip then [t.c, t.b, t.a] else [t.a, t.b, t.c]
  }

  /** The flat index list: three indices per triangle, triangles in order. */
  function IndexList(tris: seq<Tri>, flip: bool): (r: seq<int>)
    ensures |r| == 3 * |tris|
  {
    if |tris| == 0 then [] else IndexList(tris[..|tris| - 1], flip) + Corners(tris[|tris| - 1], flip)
  }

  lemma IndexListStep(done: seq<Tri>, t: Tri, flip: bool)
    ensures IndexList(done + [t], flip) == IndexList(done, flip) + Corners(t, flip)
  {
    assert (done + [t])[..|done|] == done;
  }

  /** Triangle j occupies entries 3j, 3j + 1 and 3j + 2 of the index list:
      entry 3j + c is its c-th corner in emission order. */
  lemma {:induction false} IndexListAt(tris: seq<Tri>, flip: bool, j: nat, c: nat)
    requires j < |tris| && c < 3
    ensures IndexList(tris, flip)[3 * j + c] == Corners(tris[j], flip)[c]
  {
    var n := |tris| - 1;
    var init := tris[..n];
    assert IndexList(tris, flip) == IndexList(init, flip) + Corners(tris[n], flip);
    if j < n {
      assert init[j] == tris[j];
      IndexListAt(init, flip, j, c);
    }
  }

  /** Flipping the winding reverses each triangle's three indices and keeps
      the triangles in the same order. */
  lemma FlipReversesEachTriangle(tris: seq<Tri>, j: nat, c: nat)
    requires j < |tris| && c < 3
    ensures IndexList(tris, true)[3 * j + c] == IndexList(tris, false)[3 * j + 2 - c]
  {
    IndexListAt(tris, true, j, c);
    IndexListAt(tris, false, j, 2 - c);
  }

  /** A quad is drawn as the two triangles that share its diagonal from the
      first vertex. */
  lemma QuadFan()
    ensures IndexList(MeshTriangles([[0, 1, 2, 3]]), false) == [0, 1, 2, 0, 2, 3]
    ensures IndexList(MeshTriangles([[0, 1, 2, 3]]), true) == [2, 1, 0, 3, 2, 0]
  {
    var faces: seq<Face> := [[0, 1, 2, 3]];
    assert faces[..0] == [];
    var tris := MeshTriangles(faces);
    assert tris == [Tri(0, 1, 2), Tri(0, 2, 3)];
    assert tris[..1] == [Tri(0, 1, 2)];
    assert tris[..1][..0] == [];
  }

  predicate InRange(t: Tri, n: int)
  {
    0 <= t.a < n && 0 <= t.b < n && 0 <= t.c < n
  }

  predicate TrisInRange(tris: seq<Tri>, n: int)
  {
    forall j :: 0 <= j < |tris| ==> InRange(tris[j], n)
  }

  /** Every index of every face of three or more indices names one of n
      vertices: what the normal computation reads without failing. */
  predicate FanFacesInRange(faces: seq<Face>, n: int)
  {
    forall f, j :: 0 <= f < |faces| && |faces[f]| >= 3 && 0 <= j < |faces[f]| ==> 0 <= faces[f][j] < n
  }

  /** Every index of every face names one of n vertices. */
  predicate FacesInRange(faces: seq<Face>, n: int)
  {
    forall f, j :: 0 <= f < |faces| && 0 <= j < |faces[f]| ==> 0 <= faces[f][j] < n
  }

  /** The fan triangles stay within n vertices exactly when the faces that
      have a fan do: each of their indices is a corner of some triangle. */
  lemma {:induction false} FanRangeIff(faces: seq<Face>, n: int)
    ensures FanFacesInRange(faces, n) <==> TrisInRange(MeshTriangles(faces), n)
  {
    if |faces| > 0 {
      var last := |faces| - 1;
      var init := faces[..last];
      FanRangeIff(init, n);
      LastFaceInRange(faces, n);
      OneFanInRange(faces[last], n);
      ConcatInRange(MeshTriangles(init), FanTriangles(faces[last]), n);
    }
  }

  /** The indices of one face, when it has a fan, name vertices below n. */
  predicate FanInRange(face: Face, n: int)
  {
    |face| >= 3 ==> forall j :: 0 <= j < |face| ==> 0 <= face[j] < n
  }

  lemma LastFaceInRange(faces: seq<Face>, n: int)
    requires |faces| > 0
    ensures FanFacesInRange(faces, n) <==>
      FanFacesInRange(faces[..|faces| - 1], n) && FanInRange(faces[|faces| - 1], n)
  {
    var init := faces[..|faces| - 1];
    assert forall f :: 0 <= f < |init| ==> init[f] == faces[f];
  }

  lemma OneFanInRange(face: Face, n: int)
    ensures FanInRange(face, n) <==> TrisInRange(FanTriangles(face), n)
  {
    var fan := FanTriangles(face);
    if TrisInRange(fan, n) && |face| >= 3 {
      forall j | 0 <= j < |face| ensures 0 <= face[j] < n {
        var i := if j == 0 then 0 else if j < |face| - 1 then j - 1 else |face| - 3;
        assert InRange(fan[i], n);
      }
    }
  }

  lemma ConcatInRange(t1: seq<Tri>, t2: seq<Tri>, n: int)
    ensures TrisInRange(t1 + t2, n) <==> TrisInRange(t1, n) && TrisInRange(t2, n)
  {
    if TrisInRange(t1 + t2, n) {
      SplitInRange(t1, t2, n);
    }
    if TrisInRange(t1, n) && TrisInRange(t2, n) {
      forall j | 0 <= j < |t1 + t2| ensures InRange((t1 + t2)[j], n) {
        if j >= |t1| {
          assert (t1 + t2)[j] == t2[j - |t1|];
        }
      }
    }
  }

  /** Every index the surface builder emits is a vertex of the mesh when the
      faces that have a fan name vertices of the mesh. */
  lemma IndicesInRange(faces: seq<Face>, n: int, flip: bool)
    requires FanFacesInRange(faces, n)
    ensures forall k :: 0 <= k < |IndexList(MeshTriangles(faces), flip)| ==>
      0 <= IndexList(MeshTriangles(faces), flip)[k] < n
  {
    FanRangeIff(faces, n);
    var tris := MeshTriangles(faces);
    var r := IndexList(tris, flip);
    forall k | 0 <= k < |r| ensures 0 <= r[k] < n {
      var j := k / 3;
      IndexListAt(tris, flip, j, k - 3 * j);
      assert InRange(tris[j], n);
    }
  }

  /** The boundary of a face: one segment per index, from each index to the
      next, the last one closing back to the first. */
  function FaceSegments(face: Face): (r: seq<Seg>)
    ensures |r| == |face|
  {
    seq(|face|, i requires 0 <= i < |face| => Seg(face[i], face[(i + 1) % |face|]))
  }

  /** The segments of a face walk its outline once: their starts are the face
      in order, each ends where the next starts, and the last ends at the
      first index: each segment joins consecutive indices of the face. */
  lemma FaceSegmentsOutline(face: Face)
    requires |face| > 0
    ensures forall i :: 0 <= i < |face| ==> FaceSegments(face)[i].start == face[i]
    ensures forall i :: 0 <= i < |face| - 1 ==> FaceSegments(face)[i].end == FaceSegments(face)[i + 1].start
    ensures FaceSegments(face)[|face| - 1].end == face[0]
  {
    var k := |face|;
    var segs := FaceSegments(face);
    forall i | 0 <= i < k - 1 ensures segs[i].end == segs[i + 1].start {
      NextIndex(i, k);
    }
    NextIndex(k - 1, k);
  }

  /** The index after i on a polygon of k indices. */
  lemma NextIndex(i: nat, k: nat)
    requires i < k
    ensures (i + 1) % k == if i + 1 < k then i + 1 else 0
  {
  }

  /** The segments of all faces, face after face. */
  function MeshSegments(faces: seq<Face>): (r: seq<Seg>)
    ensures |r| == TotalArity(faces)
  {
    if |faces| == 0 then [] else MeshSegments(faces[..|faces| - 1]) + FaceSegments(faces[|faces| - 1])
  }

  /** The wireframe of a face depends on that face alone: the segments of a
      mesh are those of its faces, whatever the faces around them. */
  lemma {:induction false} MeshSegmentsAppend(f1: seq<Face>, f2: seq<Face>)
    ensures MeshSegments(f1 + f2) == MeshSegments(f1) + MeshSegments(f2)
  {
    if |f2| > 0 {
      var last := |f2| - 1;
      assert (f1 + f2)[..|f1 + f2| - 1] == f1 + f2[..last];
      MeshSegmentsAppend(f1, f2[..last]);
    } else {
      assert f1 + f2 == f1;
    }
  }

  /** The unnormalised normal of a triangle of vertex positions:
      (C - B) x (A - B). It is perpendicular to both edges at B. */
  function TriNormal(verts: seq<Vec3>, t: Tri): (r: Vec3)
    requires InRange(t, |verts|)
    ensures Dot(r, Sub(verts[t.c], verts[t.b])) == 0.0 && Dot(r, Sub(verts[t.a], verts[t.b])) == 0.0
  {
    Cross(Sub(verts[t.c], verts[t.b]), Sub(verts[t.a], verts[t.b]))
  }

  /** Taken at B, the normal equals the usual face normal (B - A) x (C - A):
      it points to the side from which A, B, C run counter-clockwise, and its
      length is twice the triangle's area. */
  lemma TriNormalAtFirstCorner(verts: seq<Vec3>, t: Tri)
    requires InRange(t, |verts|)
    ensures TriNormal(verts, t) == Cross(Sub(verts[t.b], verts[t.a]), Sub(verts[t.c], verts[t.a]))
  {
  }

  function Flipped(t: Tri): Tri
  {
    Tri(t.c, t.b, t.a)
  }

  /** Flipping a triangle's winding turns its normal around. */
  lemma FlippedNormal(verts: seq<Vec3>, t: Tri)
    requires InRange(t, |verts|)
    ensures TriNormal(verts, Flipped(t)) == Neg(TriNormal(verts, t))
  {
    CrossAntiCommutes(Sub(verts[t.c], verts[t.b]), Sub(verts[t.a], verts[t.b]));
  }

  function AddIf(p: Vec3, cond: bool, q: Vec3): Vec3
  {
    if cond then Add(p, q) else p
  }

  /** The normal accumulator of vertex v after the triangles `tris`: each
      triangle adds its normal once for every one of its corners that is v. */
  function NormalSum(verts: seq<Vec3>, tris: seq<Tri>, v: int): Vec3
    requires TrisInRange(tris, |verts|)
  {
    if |tris| == 0 then Zero
    else
      var t := tris[|tris| - 1];
      var n := TriNormal(verts, t);
      AddIf(AddIf(AddIf(NormalSum(verts, tris[..|tris| - 1], v), t.a == v, n), t.b == v, n), t.c == v, n)
  }

  /** One more triangle adds its normal to each of its corners. */
  lemma NormalSumStep(verts: seq<Vec3>, done: seq<Tri>, t: Tri, v: int)
    requires TrisInRange(done + [t], |verts|)
    ensures TrisInRange(done, |verts|) && InRange(t, |verts|)
    ensures var n := TriNormal(verts, t);
      NormalSum(verts, done + [t], v) == AddIf(AddIf(AddIf(NormalSum(verts, done, v), t.a == v, n), t.b == v, n), t.c == v, n)
  {
    assert (done + [t])[..|done|] == done;
    assert forall j :: 0 <= j < |done| ==> (done + [t])[j] == done[j];
    assert (done + [t])[|done|] == t;
  }

  /** A vertex that is a corner of no triangle keeps the zero vector. */
  lemma {:induction false} NormalSumUntouched(verts: seq<Vec3>, tris: seq<Tri>, v: int)
    requires TrisInRange(tris, |verts|)
    requires forall j :: 0 <= j < |tris| ==> tris[j].a != v && tris[j].b != v && tris[j].c != v
    ensures NormalSum(verts, tris, v) == Zero
  {
    if |tris| > 0 {
      NormalSumUntouched(verts, tris[..|tris| - 1], v);
    }
  }

  /** Accumulating two runs of triangles one after the other adds their sums. */
  lemma {:induction false} NormalSumAppend(verts: seq<Vec3>, t1: seq<Tri>, t2: seq<Tri>, v: int)
    requires TrisInRange(t1 + t2, |verts|)
    ensures TrisInRange(t1, |verts|) && TrisInRange(t2, |verts|)
    ensures NormalSum(verts, t1 + t2, v) == Add(NormalSum(verts, t1, v), NormalSum(verts, t2, v))
  {
    SplitInRange(t1, t2, |verts|);
    if |t2| == 0 {
      assert t1 + t2 == t1;
      AddZero(NormalSum(verts, t1, v));
    } else {
      var m := |t2| - 1;
      var init, t := t2[..m], t2[m];
      assert t1 + t2 == (t1 + init) + [t];
      assert t2 == init + [t];
      SplitInRange(t1 + init, [t], |verts|);
      NormalSumAppend(verts, t1, init, v);
      AppendOneMore(verts, t1, init, t, v);
    }
  }

  /** The inductive step of NormalSumAppend: one more triangle at the end of
      the second run. */
  lemma AppendOneMore(verts: seq<Vec3>, t1: seq<Tri>, init: seq<Tri>, t: Tri, v: int)
    requires TrisInRange(t1, |verts|) && TrisInRange(init, |verts|) && InRange(t, |verts|)
    requires TrisInRange(t1 + init + [t], |verts|) && TrisInRange(init + [t], |verts|)
    requires TrisInRange(t1 + init, |verts|)
    requires NormalSum(verts, t1 + init, v) == Add(NormalSum(verts, t1, v), NormalSum(verts, init, v))
    ensures NormalSum(verts, t1 + init + [t], v) == Add(NormalSum(verts, t1, v), NormalSum(verts, init + [t], v))
  {
    NormalSumStep(verts, t1 + init, t, v);
    NormalSumStep(verts, init, t, v);
    var n := TriNormal(verts, t);
    var p := NormalSum(verts, t1, v);
    var q := NormalSum(verts, init, v);
    var qa := AddIf(q, t.a == v, n);
    var qb := AddIf(qa, t.b == v, n);
    calc {
      NormalSum(verts, t1 + init + [t], v);
      AddIf(AddIf(AddIf(Add(p, q), t.a == v, n), t.b == v, n), t.c == v, n);
      { AddIfShifts(p, q, t.a == v, n); }
      AddIf(AddIf(Add(p, qa), t.b == v, n), t.c == v, n);
      { AddIfShifts(p, qa, t.b == v, n); }
      AddIf(Add(p, qb), t.c == v, n);
      { AddIfShifts(p, qb, t.c == v, n); }
      Add(p, AddIf(qb, t.c == v, n));
    }
  }

  /** Adding to a sum can be done on its second term. */
  lemma AddIfShifts(p: Vec3, q: Vec3, cond: bool, n: Vec3)
    ensures AddIf(Add(p, q), cond, n) == Add(p, AddIf(q, cond, n))
  {
    if cond {
      AddAssociates(p, q, n);
    }
  }

  /** Both halves of a run of triangles within range are within range. */
  lemma SplitInRange(t1: seq<Tri>, t2: seq<Tri>, n: int)
    requires TrisInRange(t1 + t2, n)
    ensures TrisInRange(t1, n) && TrisInRange(t2, n)
  {
    assert forall j :: 0 <= j < |t1| ==> t1[j] == (t1 + t2)[j];
    assert forall j :: 0 <= j < |t2| ==> t2[j] == (t1 + t2)[|t1| + j];
  }

  /** The order in which runs of triangles are accumulated does not change
      any vertex's sum. */
  lemma NormalSumOrderFree(verts: seq<Vec3>, t1: seq<Tri>, t2: seq<Tri>, v: int)
    requires TrisInRange(t1 + t2, |verts|)
    ensures TrisInRange(t2 + t1, |verts|)
    ensures NormalSum(verts, t1 + t2, v) == NormalSum(verts, t2 + t1, v)
  {
    NormalSumAppend(verts, t1, t2, v);
    SwapInRange(t1, t2, |verts|);
    NormalSumAppend(verts, t2, t1, v);
    AddCommutes(NormalSum(verts, t1, v), NormalSum(verts, t2, v));
  }

  lemma SwapInRange(t1: seq<Tri>, t2: seq<Tri>, n: int)
    requires TrisInRange(t1, n) && TrisInRange(t2, n)
    ensures TrisInRange(t2 + t1, n)
  {
    forall j | 0 <= j < |t2 + t1| ensures InRange((t2 + t1)[j], n) {
      if j < |t2| {
        assert (t2 + t1)[j] == t2[j];
      } else {
        assert (t2 + t1)[j] == t1[j - |t2|];
      }
    }
  }

  /** The smooth normals do not depend on the order of the faces: swapping
      two groups of faces gives every vertex the same accumulated normal. */
  lemma FaceOrderFree(verts: seq<Vec3>, f1: seq<Face>, f2: seq<Face>, v: int)
    requires FanFacesInRange(f1 + f2, |verts|)
    ensures FanFacesInRange(f2 + f1, |verts|)
    ensures TrisInRange(MeshTriangles(f1 + f2), |verts|) && TrisInRange(MeshTriangles(f2 + f1), |verts|)
    ensures NormalSum(verts, MeshTriangles(f1 + f2), v) == NormalSum(verts, MeshTriangles(f2 + f1), v)
  {
    FanRangeIff(f1 + f2, |verts|);
    MeshTrianglesAppend(f1, f2);
    MeshTrianglesAppend(f2, f1);
    NormalSumOrderFree(verts, MeshTriangles(f1), MeshTriangles(f2), v);
    FanRangeIff(f2 + f1, |verts|);
  }

  function Coords(v: Vec3): seq<real>
  {
    [v.x, v.y, v.z]
  }

  function Channels(c: Rgb): seq<real>
  {
    [c.r, c.g, c.b]
  }

  /** Per-vertex (x, y, z) triples, flattened in vertex order. */
  function FlattenVecs(vs: seq<Vec3>): (r: seq<real>)
    ensures |r| == 3 * |vs|
  {
    if |vs| == 0 then [] else FlattenVecs(vs[..|vs| - 1]) + Coords(vs[|vs| - 1])
  }

  /** Vertex i's coordinates are entries 3i, 3i + 1 and 3i + 2. */
  lemma {:induction false} FlattenVecsAt(vs: seq<Vec3>, i: nat)
    requires i < |vs|
    ensures FlattenVecs(vs)[3 * i .. 3 * i + 3] == Coords(vs[i])
  {
    var n := |vs| - 1;
    if i < n {
      FlattenVecsAt(vs[..n], i);
      assert FlattenVecs(vs)[3 * i .. 3 * i + 3] == FlattenVecs(vs[..n])[3 * i .. 3 * i + 3];
    } else {
      assert FlattenVecs(vs)[3 * i ..] == Coords(vs[i]);
    }
  }

  /** Per-vertex (r, g, b) triples, flattened in vertex order. */
  function FlattenColors(cs: seq<Rgb>): (r: seq<real>)
    ensures |r| == 3 * |cs|
  {
    if |cs| == 0 then [] else FlattenColors(cs[..|cs| - 1]) + Channels(cs[|cs| - 1])
  }

  /** Vertex i's colour is entries 3i, 3i + 1 and 3i + 2. */
  lemma {:induction false} FlattenColorsAt(cs: seq<Rgb>, i: nat)
    requires i < |cs|
    ensures FlattenColors(cs)[3 * i .. 3 * i + 3] == Channels(cs[i])
  {
    var n := |cs| - 1;
    if i < n {
      FlattenColorsAt(cs[..n], i);
      assert FlattenColors(cs)[3 * i .. 3 * i + 3] == FlattenColors(cs[..n])[3 * i .. 3 * i + 3];
    } else {
      assert FlattenColors(cs)[3 * i ..] == Channels(cs[i]);
    }
  }

  predicate SegsInRange(segs: seq<Seg>, n: int)
  {
    forall s :: 0 <= s < |segs| ==> 0 <= segs[s].start < n && 0 <= segs[s].end < n
  }

  /** The wireframe positions: six numbers per segment, the start vertex's
      coordinates followed by the end vertex's. */
  function SegmentPositions(verts: seq<Vec3>, segs: seq<Seg>): (r: seq<real>)
    requires SegsInRange(segs, |verts|)
    ensures |r| == 6 * |segs|
  {
    if |segs| == 0 then []
    else
      var n := |segs| - 1;
      assert SegsInRange(segs[..n], |verts|) by {
        assert forall s :: 0 <= s < n ==> segs[..n][s] == segs[s];
      }
      SegmentPositions(verts, segs[..n]) + Coords(verts[segs[n].start]) + Coords(verts[segs[n].end])
  }

  lemma SegmentPositionsStep(verts: seq<Vec3>, done: seq<Seg>, s: Seg)
    requires SegsInRange(done + [s], |verts|)
    ensures SegsInRange(done, |verts|)
    ensures 0 <= s.start < |verts| && 0 <= s.end < |verts|
    ensures SegmentPositions(verts, done + [s]) ==
      SegmentPositions(verts, done) + Coords(verts[s.start]) + Coords(verts[s.end])
  {
    assert (done + [s])[..|done|] == done;
    assert forall j :: 0 <= j < |done| ==> (done + [s])[j] == done[j];
    assert (done + [s])[|done|] == s;
  }

  /** Segment s occupies entries 6s to 6s + 5: its start vertex's coordinates,
      then its end vertex's. */
  lemma {:induction false} SegmentPositionsAt(verts: seq<Vec3>, segs: seq<Seg>, s: nat)
    requires SegsInRange(segs, |verts|) && s < |segs|
    ensures SegmentPositions(verts, segs)[6 * s .. 6 * s + 6] == Coords(verts[segs[s].start]) + Coords(verts[segs[s].end])
  {
    var n := |segs| - 1;
    assert segs == segs[..n] + [segs[n]];
    SegmentPositionsStep(verts, segs[..n], segs[n]);
    var r := SegmentPositions(verts, segs);
    if s < n {
      SegmentPositionsAt(verts, segs[..n], s);
      assert r[6 * s .. 6 * s + 6] == SegmentPositions(verts, segs[..n])[6 * s .. 6 * s + 6];
    } else {
      assert r[6 * s ..] == Coords(verts[segs[s].start]) + Coords(verts[segs[s].end]);
    }
  }

  /** When every face names vertices of the mesh, so does every segment. */
  lemma {:induction false} MeshSegmentsInRange(faces: seq<Face>, n: int)
    requires FacesInRange(faces, n)
    ensures SegsInRange(MeshSegments(faces), n)
  {
    if |faces| > 0 {
      var last := |faces| - 1;
      var init := faces[..last];
      assert FacesInRange(init, n) by {
        forall f, j | 0 <= f < |init| && 0 <= j < |init[f]| ensures 0 <= init[f][j] < n {
          assert init[f] == faces[f];
        }
      }
      MeshSegmentsInRange(init, n);
      var face := faces[last];
      var fs := FaceSegments(face);
      assert forall i :: 0 <= i < |fs| ==> fs[i] == Seg(face[i], face[(i + 1) % |face|]);
      var all := MeshSegments(faces);
      var m := |MeshSegments(init)|;
      assert all == MeshSegments(init) + fs;
      forall s | 0 <= s < |all| ensures 0 <= all[s].start < n && 0 <= all[s].end < n {
        if s >= m {
          assert all[s] == fs[s - m];
        } else {
          assert all[s] == MeshSegments(init)[s];
        }
      }
    }
  }
}
