/** The NGon mesh: vertices, polygon faces of any arity, optional vertex
    colours and per-vertex normals, and the three computations the mesh
    performs on them (media/three/loaders/NGonOBJLoader.js, class NGon). */
module NGonMesh {
  import opened Vectors
  import opened Fan

  /** The flat arrays the surface builder hands to the renderer: positions,
      normals and colours as (x, y, z) / (r, g, b) triples per vertex, and
      three vertex indices per triangle. */
  datatype Geometry = Geometry(positions: seq<real>, normals: seq<real>, colors: seq<real>, indices: seq<int>)

  class NGon {
    var verts: seq<Vec3>
    var faces: seq<Face>
    var normals: seq<Vec3>
    var colors: seq<Rgb>

    /** Every vertex holds the sum of the unnormalised normals of the fan
        triangles it is a corner of. */
    ghost predicate NormalsAccumulated()
      reads this
    {
      Accumulates(normals, verts, MeshTriangles(faces))
    }

    /** A mesh over the given vertices, faces and colours, with no normals yet. */
    constructor (verts: seq<Vec3>, faces: seq<Face>, colors: seq<Rgb>)
      ensures this.verts == verts && this.faces == faces && this.colors == colors
      ensures normals == []
    {
      this.verts := verts;
      this.faces := faces;
      this.normals := [];
      this.colors := colors;
    }

    /** Smooth normals: start every vertex at zero, fan-triangulate every face
        from its first index and add each triangle's (C - B) x (A - B) to all
        three of its corners. Reading a vertex that does not exist fails in the
        source, so every face with a fan must name existing vertices. The
        final normalisation is not modelled. */
    method CalculateNormals()
      requires FanFacesInRange(faces, |verts|)
      modifies this
      ensures verts == old(verts) && faces == old(faces) && colors == old(colors)
      ensures NormalsAccumulated()
    {
      var verts := this.verts;
      var faces := this.faces;
      var vertCount := |verts|;

      normals := seq(vertCount, _ => Zero);

      var f := 0;
      while f < |faces|
        invariant 0 <= f <= |faces|
        invariant this.verts == verts && this.faces == faces && this.colors == old(colors)
        invariant Accumulates(normals, verts, MeshTriangles(faces[..f]))
      {
        AccumulateFace(f);
        f := f + 1;
      }
      assert faces[..|faces|] == faces;
    }

    /** The body of the per-face callback of CalculateNormals: add the normal
        of each fan triangle of face f to the accumulators of its corners. */
    method AccumulateFace(f: nat)
      requires FanFacesInRange(faces, |verts|) && f < |faces|
      requires Accumulates(normals, verts, MeshTriangles(faces[..f]))
      modifies this
      ensures verts == old(verts) && faces == old(faces) && colors == old(colors)
      ensures Accumulates(normals, verts, MeshTriangles(faces[..f + 1]))
    {
      var verts := this.verts;
      var face := faces[f];
      FanOfNextFace(faces, f);

      var i := 1;
      while i < |face| - 1
        invariant 1 <= i && i - 1 <= |FanTriangles(face)|
        invariant |face| >= 2 ==> i <= |face| - 1
        invariant this.verts == old(this.verts) && faces == old(faces) && colors == old(colors)
        invariant Accumulates(normals, verts, FanSoFar(faces, f, i - 1))
      {
        AccumulateStep(verts, faces, f, i, normals);
        var vA := verts[face[0]];
        var vB := verts[face[i]];
        var vC := verts[face[i + 1]];
        var cb := Cross(Sub(vC, vB), Sub(vA, vB));
        ghost var t := Tri(face[0], face[i], face[i + 1]);
        assert cb == TriNormal(verts, t);

        ghost var prev := normals;
        normals := normals[face[0] := Add(normals[face[0]], cb)];
        normals := normals[face[i] := Add(normals[face[i]], cb)];
        normals := normals[face[i + 1] := Add(normals[face[i + 1]], cb)];
        assert normals == Bump(prev, t, cb);
        i := i + 1;
      }
      assert i - 1 == |FanTriangles(face)|;
    }

    /** The surface geometry: the faces' fan triangles as a flat index list
        (each triangle reversed when the winding is flipped), and positions,
        normals and colours flattened per vertex in vertex order. Normals and
        colours are emitted only when the mesh has some, and then the source
        reads one for every vertex. */
    method MakeGeometry(flipWinding: bool) returns (g: Geometry)
      requires |normals| == 0 || |verts| <= |normals|
      requires |colors| == 0 || |verts| <= |colors|
      ensures g.indices == IndexList(MeshTriangles(faces), flipWinding)
      ensures |g.indices| == 3 * TriangleCount(faces)
      ensures g.positions == FlattenVecs(verts) && |g.positions| == 3 * |verts|
      ensures g.normals == if |normals| == 0 then [] else FlattenVecs(normals[..|verts|])
      ensures g.colors == if |colors| == 0 then [] else FlattenColors(colors[..|verts|])
    {
      var faces, verts, normals, colors := this.faces, this.verts, this.normals, this.colors;
      var positions: seq<real> := [];
      var normalsOut: seq<real> := [];
      var colorsOut: seq<real> := [];
      var indices: seq<int> := [];

      var f := 0;
      while f < |faces|
        invariant 0 <= f <= |faces|
        invariant indices == IndexList(MeshTriangles(faces[..f]), flipWinding)
      {
        indices := AppendFanIndices(faces, f, flipWinding, indices);
        f := f + 1;
      }
      assert faces[..|faces|] == faces;

      var idx := 0;
      while idx < |verts|
        invariant 0 <= idx <= |verts|
        invariant positions == FlattenVecs(verts[..idx])
        invariant normalsOut == if |normals| == 0 then [] else FlattenVecs(normals[..idx])
        invariant colorsOut == if |colors| == 0 then [] else FlattenColors(colors[..idx])
      {
        var vert := verts[idx];
        FlattenVecsPrefix(verts, idx);
        positions := positions + [vert.x, vert.y, vert.z];

        if |normals| > 0 {
          var normal := normals[idx];
          FlattenVecsPrefix(normals, idx);
          normalsOut := normalsOut + [normal.x, normal.y, normal.z];
        }

        if |colors| > 0 {
          var color := colors[idx];
          FlattenColorsPrefix(colors, idx);
          colorsOut := colorsOut + [color.r, color.g, color.b];
        }
        idx := idx + 1;
      }
      assert verts[..|verts|] == verts;

      g := Geometry(positions, normalsOut, colorsOut, indices);
    }

    /** The wireframe: for every face, one segment per polygon edge, the last
        edge closing the polygon, each contributing the coordinates of its two
        end vertices. Every face index is read as a vertex, so every face must
        name existing vertices. */
    method MakeWireGeometry() returns (positions: seq<real>)
      requires FacesInRange(faces, |verts|)
      ensures SegsInRange(MeshSegments(faces), |verts|)
      ensures positions == SegmentPositions(verts, MeshSegments(faces))
      ensures |positions| == 6 * TotalArity(faces)
    {
      var faces, verts := this.faces, this.verts;
      positions := [];
      var f := 0;
      while f < |faces|
        invariant 0 <= f <= |faces|
        invariant SegsInRange(MeshSegments(faces[..f]), |verts|)
        invariant positions == SegmentPositions(verts, MeshSegments(faces[..f]))
      {
        var face := faces[f];
        var faceVertCount := |face|;
        SegmentsOfNextFace(faces, f);
        PartialSegsInRange(faces, |verts|, f, 0);

        for i := 0 to faceVertCount
          invariant SegsInRange(SegmentsSoFar(faces, f, i), |verts|)
          invariant positions == SegmentPositions(verts, SegmentsSoFar(faces, f, i))
        {
          WireStep(verts, faces, f, i);
          var a := face[i];
          var b := face[(i + 1) % faceVertCount];
          var vertA := verts[a];
          var vertB := verts[b];
          positions := positions + [vertA.x, vertA.y, vertA.z];
          positions := positions + [vertB.x, vertB.y, vertB.z];
        }
        assert SegmentsSoFar(faces, f, faceVertCount) == MeshSegments(faces[..f + 1]);
        f := f + 1;
      }
      assert faces[..|faces|] == faces;
    }
  }

  /** The index callback of the surface builder for face `f`: appends the
      corners of each fan triangle of the face, reversed under
      `flipWinding`, to the indices of the faces before it. */
  method AppendFanIndices(faces: seq<Face>, f: nat, flipWinding: bool, indices: seq<int>)
    returns (out: seq<int>)
    requires f < |faces|
    requires indices == IndexList(MeshTriangles(faces[..f]), flipWinding)
    ensures out == IndexList(MeshTriangles(faces[..f + 1]), flipWinding)
  {
    var face := faces[f];
    FanOfNextFace(faces, f);
    out := indices;
    var i := 1;
    while i < |face| - 1
      invariant 1 <= i && i - 1 <= |FanTriangles(face)|
      invariant |face| >= 2 ==> i <= |face| - 1
      invariant out == IndexList(FanSoFar(faces, f, i - 1), flipWinding)
    {
      IndexStep(faces, f, i, flipWinding);
      var a := face[0];
      var b := face[i];
      var c := face[i + 1];
      if flipWinding {
        out := out + [c, b, a];
      } else {
        out := out + [a, b, c];
      }
      i := i + 1;
    }
    assert i - 1 == |FanTriangles(face)|;
  }

  /** The normals hold, for every vertex, the sum of the normals of the
      given triangles that have that vertex as a corner. */
  ghost predicate Accumulates(normals: seq<Vec3>, verts: seq<Vec3>, tris: seq<Tri>)
  {
    TrisInRange(tris, |verts|) &&
    |normals| == |verts| &&
    forall v :: 0 <= v < |verts| ==> normals[v] == NormalSum(verts, tris, v)
  }

  /** Add n to the normals of the three corners of t, one after the other
      (a corner named twice receives n twice). */
  function Bump(normals: seq<Vec3>, t: Tri, n: Vec3): (r: seq<Vec3>)
    requires InRange(t, |normals|)
    ensures |r| == |normals|
    ensures forall v :: 0 <= v < |r| ==> r[v] == AddIf(AddIf(AddIf(normals[v], t.a == v, n), t.b == v, n), t.c == v, n)
  {
    var n1 := normals[t.a := Add(normals[t.a], n)];
    var n2 := n1[t.b := Add(n1[t.b], n)];
    n2[t.c := Add(n2[t.c], n)]
  }

  /** The fan triangles of the faces before f and the first m of face f. */
  ghost function FanSoFar(faces: seq<Face>, f: nat, m: nat): seq<Tri>
    requires f < |faces| && m <= |FanTriangles(faces[f])|
  {
    MeshTriangles(faces[..f]) + FanTriangles(faces[f])[..m]
  }

  /** The boundary segments of the faces before f and the first m of face f. */
  ghost function SegmentsSoFar(faces: seq<Face>, f: nat, m: nat): seq<Seg>
    requires f < |faces| && m <= |faces[f]|
  {
    MeshSegments(faces[..f]) + FaceSegments(faces[f])[..m]
  }

  lemma FanOfNextFace(faces: seq<Face>, f: nat)
    requires f < |faces|
    ensures FanSoFar(faces, f, 0) == MeshTriangles(faces[..f])
    ensures FanSoFar(faces, f, |FanTriangles(faces[f])|) == MeshTriangles(faces[..f + 1])
  {
    assert faces[..f + 1][..f] == faces[..f];
    assert FanTriangles(faces[f])[..|FanTriangles(faces[f])|] == FanTriangles(faces[f]);
  }

  lemma SegmentsOfNextFace(faces: seq<Face>, f: nat)
    requires f < |faces|
    ensures SegmentsSoFar(faces, f, 0) == MeshSegments(faces[..f])
    ensures SegmentsSoFar(faces, f, |faces[f]|) == MeshSegments(faces[..f + 1])
  {
    assert faces[..f + 1][..f] == faces[..f];
    assert FaceSegments(faces[f])[..|faces[f]|] == FaceSegments(faces[f]);
  }

  /** The i-th fan triangle of face f is (face[0], face[i], face[i + 1]). */
  lemma NextFanTriangle(faces: seq<Face>, f: nat, i: nat)
    requires f < |faces| && 1 <= i < |faces[f]| - 1
    ensures FanSoFar(faces, f, i) == FanSoFar(faces, f, i - 1) + [Tri(faces[f][0], faces[f][i], faces[f][i + 1])]
  {
    var fan := FanTriangles(faces[f]);
    assert fan[..i] == fan[..i - 1] + [fan[i - 1]];
  }

  /** Adding fan triangle i of face f to the accumulators. */
  lemma AccumulateStep(verts: seq<Vec3>, faces: seq<Face>, f: nat, i: nat, normals: seq<Vec3>)
    requires FanFacesInRange(faces, |verts|)
    requires f < |faces| && 1 <= i < |faces[f]| - 1
    requires Accumulates(normals, verts, FanSoFar(faces, f, i - 1))
    ensures var t := Tri(faces[f][0], faces[f][i], faces[f][i + 1]);
      InRange(t, |verts|) &&
      Accumulates(Bump(normals, t, TriNormal(verts, t)), verts, FanSoFar(faces, f, i))
  {
    var t := Tri(faces[f][0], faces[f][i], faces[f][i + 1]);
    var done := FanSoFar(faces, f, i - 1);
    NextFanTriangle(faces, f, i);
    PartialFanInRange(faces, |verts|, f, i);
    var r := Bump(normals, t, TriNormal(verts, t));
    forall v | 0 <= v < |verts| ensures r[v] == NormalSum(verts, done + [t], v) {
      NormalSumStep(verts, done, t, v);
    }
  }

  /** Emitting fan triangle i of face f appends its three corners. */
  lemma IndexStep(faces: seq<Face>, f: nat, i: nat, flip: bool)
    requires f < |faces| && 1 <= i < |faces[f]| - 1
    ensures var face := faces[f];
      IndexList(FanSoFar(faces, f, i), flip) == IndexList(FanSoFar(faces, f, i - 1), flip) +
        (if flip then [face[i + 1], face[i], face[0]] else [face[0], face[i], face[i + 1]])
  {
    NextFanTriangle(faces, f, i);
    IndexListStep(FanSoFar(faces, f, i - 1), Tri(faces[f][0], faces[f][i], faces[f][i + 1]), flip);
  }

  lemma FlattenVecsPrefix(vs: seq<Vec3>, i: nat)
    requires i < |vs|
    ensures FlattenVecs(vs[..i + 1]) == FlattenVecs(vs[..i]) + [vs[i].x, vs[i].y, vs[i].z]
  {
    assert vs[..i + 1][..i] == vs[..i];
  }

  lemma FlattenColorsPrefix(cs: seq<Rgb>, i: nat)
    requires i < |cs|
    ensures FlattenColors(cs[..i + 1]) == FlattenColors(cs[..i]) + [cs[i].r, cs[i].g, cs[i].b]
  {
    assert cs[..i + 1][..i] == cs[..i];
  }

  /** Emitting boundary segment i of face f appends the coordinates of its
      two ends. */
  lemma WireStep(verts: seq<Vec3>, faces: seq<Face>, f: nat, i: nat)
    requires FacesInRange(faces, |verts|)
    requires f < |faces| && i < |faces[f]|
    ensures SegsInRange(SegmentsSoFar(faces, f, i), |verts|) && SegsInRange(SegmentsSoFar(faces, f, i + 1), |verts|)
    ensures var face := faces[f];
      var a, b := face[i], face[(i + 1) % |face|];
      0 <= a < |verts| && 0 <= b < |verts| &&
      SegmentPositions(verts, SegmentsSoFar(faces, f, i + 1)) ==
        SegmentPositions(verts, SegmentsSoFar(faces, f, i)) + Coords(verts[a]) + Coords(verts[b])
  {
    var face := faces[f];
    var s := Seg(face[i], face[(i + 1) % |face|]);
    NextSegment(faces, f, i);
    PartialSegsInRange(faces, |verts|, f, i);
    PartialSegsInRange(faces, |verts|, f, i + 1);
    SegmentPositionsStep(verts, SegmentsSoFar(faces, f, i), s);
  }

  /** Boundary segment i of face f runs from its i-th index to the next one,
      wrapping around to the first. */
  lemma NextSegment(faces: seq<Face>, f: nat, i: nat)
    requires f < |faces| && i < |faces[f]|
    ensures var face := faces[f];
      SegmentsSoFar(faces, f, i + 1) == SegmentsSoFar(faces, f, i) + [Seg(face[i], face[(i + 1) % |face|])]
  {
    var segs := FaceSegments(faces[f]);
    assert segs[..i + 1] == segs[..i] + [segs[i]];
  }

  /** The triangles up to the m-th of face f stay within n vertices. */
  lemma PartialFanInRange(faces: seq<Face>, n: int, f: nat, m: nat)
    requires FanFacesInRange(faces, n)
    requires f < |faces| && m <= |FanTriangles(faces[f])|
    ensures TrisInRange(MeshTriangles(faces[..f]) + FanTriangles(faces[f])[..m], n)
  {
    var upto := faces[..f + 1];
    assert FanFacesInRange(upto, n) by {
      forall g, j | 0 <= g < |upto| && |upto[g]| >= 3 && 0 <= j < |upto[g]| ensures 0 <= upto[g][j] < n {
        assert upto[g] == faces[g];
      }
    }
    FanRangeIff(upto, n);
    assert upto[..f] == faces[..f];
    var all := MeshTriangles(upto);
    var p := MeshTriangles(faces[..f]) + FanTriangles(faces[f])[..m];
    assert all == MeshTriangles(faces[..f]) + FanTriangles(faces[f]);
    assert p == all[..|p|];
  }

  /** The segments up to the m-th of face f stay within n vertices. */
  lemma PartialSegsInRange(faces: seq<Face>, n: int, f: nat, m: nat)
    requires FacesInRange(faces, n)
    requires f < |faces| && m <= |faces[f]|
    ensures SegsInRange(MeshSegments(faces[..f]) + FaceSegments(faces[f])[..m], n)
  {
    var upto := faces[..f + 1];
    assert FacesInRange(upto, n) by {
      forall g, j | 0 <= g < |upto| && 0 <= j < |upto[g]| ensures 0 <= upto[g][j] < n {
        assert upto[g] == faces[g];
      }
    }
    MeshSegmentsInRange(upto, n);
    assert upto[..f] == faces[..f];
    var all := MeshSegments(upto);
    var p := MeshSegments(faces[..f]) + FaceSegments(faces[f])[..m];
    assert all == MeshSegments(faces[..f]) + FaceSegments(faces[f]);
    assert p == all[..|p|];
  }
}
