/** The OBJ reader of media/three/loaders/NGonOBJLoader.js (class
    NGonOBJLoader, method parse): it keeps `v` vertex statements (with an
    optional colour), keeps `f` faces as whole polygons of 0-based vertex
    indices, ignores every other line, and hands the result to an NGon whose
    normals it then computes.

    The number parser of the host (`parseFloat`) is a parameter `num`; a
    missing token is passed to it as the empty string, which `parseFloat`
    reads as NaN just as it reads the missing token. */
module ObjLoader {
  import opened Wrappers
  import opened Text
  import opened Vectors
  import opened Fan
  import opened NGonMesh

  /** What the line loop collects before the mesh is built. */
  datatype ObjData = ObjData(verts: seq<Vec3>, faces: seq<Face>, colors: seq<Rgb>)

  /** The only way parsing fails: the normal computation reads a vertex that
      a face names but the file does not define. */
  datatype LoadError = MissingVertex

  /** The 0-based vertex index an OBJ index token stands for when `len`
      vertices have been read: a non-negative index counts from one, a
      negative one counts back from the latest vertex. A token with no
      number in it gives NaN in the source; here it gives -1, which like NaN
      names no vertex. The index names one of the `len` vertices read so far
      exactly when the token is a number from 1 to len or from -len to -1. */
  function ParseVertexIndex(value: string, len: nat): (r: int)
    ensures 0 <= r < len <==>
      ParseInt(value).Some? && (1 <= ParseInt(value).value <= len || -(len as int) <= ParseInt(value).value <= -1)
  {
    match ParseInt(value)
    case None => -1
    case Some(index) => if index >= 0 then index - 1 else len + index
  }

  /** The index field of a face token `v/vt/vn`: the text before the first
      slash. */
  function FirstField(token: string): (r: string)
    ensures r <= token && '/' !in r
  {
    SplitOn(token, '/')[0]
  }

  /** A token followed by a texture or normal reference keeps only the
      vertex reference. */
  lemma FirstFieldOfReference(vertex: string, rest: string)
    requires '/' !in vertex
    ensures FirstField(vertex + "/" + rest) == vertex
  {
    var token := vertex + "/" + rest;
    assert token[|vertex|] == '/';
  }

  /** A token without a slash is all vertex reference. */
  lemma FirstFieldWhole(token: string)
    requires '/' !in token
    ensures FirstField(token) == token
  {
  }

  lemma NumeralHasNoSlash(n: int)
    ensures '/' !in ShowInt(n)
  {
    var ds := ShowNat(if n < 0 then -n else n);
    assert forall i :: 0 <= i < |ds| ==> ds[i] != '/';
  }

  /** Token i of a statement, or the empty string when the line is shorter. */
  function Field(tokens: seq<string>, i: nat): string
  {
    if i < |tokens| then tokens[i] else ""
  }

  /** The whitespace-separated words of a line. */
  function Tokens(line: string): (r: seq<string>)
    ensures |r| >= 1
  {
    SplitSpaces(Trim(line))
  }

  /** The tokens are the words of the trimmed line: the first is the text up
      to the first whitespace, none is empty on a non-blank line, and joined
      with single spaces they give the trimmed line with its whitespace runs
      squeezed. */
  lemma TokensAreWords(line: string)
    ensures var t, w := Trim(line), Tokens(line)[0]; w <= t && (|w| == |t| || IsSpace(t[|w|]))
    ensures |Trim(line)| > 0 ==> forall k :: 0 <= k < |Tokens(line)| ==> |Tokens(line)[k]| > 0
    ensures Join(Tokens(line), ' ') == Squeeze(Trim(line))
  {
    var t := Trim(line);
    JoinSplitSpaces(t);
    if |t| > 0 {
      SplitSpacesWords(t);
    }
  }

  /** The line is a statement with the given keyword: not blank, not a
      comment, and its first word is the keyword. */
  predicate IsStatement(line: string, keyword: string)
  {
    var t := Trim(line);
    |t| > 0 && t[0] != '#' && Tokens(line)[0] == keyword
  }

  /** A vertex statement with at least six fields after the keyword
      carries a colour; the fields are not checked to be numbers. */
  predicate HasColor(line: string)
  {
    IsStatement(line, "v") && |Tokens(line)| >= 7
  }

  /** The vertex a `v` statement defines. */
  function VertexOf(tokens: seq<string>, num: string -> real): Vec3
  {
    Vec3(num(Field(tokens, 1)), num(Field(tokens, 2)), num(Field(tokens, 3)))
  }

  /** The colour a `v` statement with a colour defines. */
  function ColorOf(tokens: seq<string>, num: string -> real): Rgb
  {
    Rgb(num(Field(tokens, 4)), num(Field(tokens, 5)), num(Field(tokens, 6)))
  }

  /** f applied to every token after the keyword, in order. */
  function AfterKeyword<T>(tokens: seq<string>, f: string -> T): (r: seq<T>)
    ensures |r| == Max0(|tokens| - 1)
  {
    if |tokens| <= 1 then []
    else AfterKeyword(tokens[..|tokens| - 1], f) + [f(tokens[|tokens| - 1])]
  }

  lemma {:induction false} AfterKeywordAt<T>(tokens: seq<string>, f: string -> T, j: nat)
    requires 1 <= j < |tokens|
    ensures AfterKeyword(tokens, f)[j - 1] == f(tokens[j])
  {
    var n := |tokens| - 1;
    if j < n {
      assert tokens[..n][j] == tokens[j];
      AfterKeywordAt(tokens[..n], f, j);
    }
  }

  /** The face an `f` statement defines: one index per token after the
      keyword, resolved against the `len` vertices read so far. */
  function FaceIndices(tokens: seq<string>, len: nat): (r: Face)
    ensures |r| == Max0(|tokens| - 1)
  {
    AfterKeyword(tokens, token => ParseVertexIndex(FirstField(token), len))
  }

  /** Entry j - 1 of a face is token j resolved. */
  lemma FaceIndicesAt(tokens: seq<string>, len: nat, j: nat)
    requires 1 <= j < |tokens|
    ensures FaceIndices(tokens, len)[j - 1] == ParseVertexIndex(FirstField(tokens[j]), len)
  {
    AfterKeywordAt(tokens, token => ParseVertexIndex(FirstField(token), len), j);
  }

  lemma FaceIndicesPrefix(tokens: seq<string>, j: nat, len: nat)
    requires 1 <= j < |tokens|
    ensures FaceIndices(tokens[..j + 1], len) == FaceIndices(tokens[..j], len) + [ParseVertexIndex(FirstField(tokens[j]), len)]
  {
    assert tokens[..j + 1][..j] == tokens[..j];
  }

  /** One iteration of the line loop: a vertex statement appends a vertex
      (and a colour when it has one), a face statement appends a face, and
      every other line leaves the data as it was. Nothing read earlier
      changes. */
  function ParseLine(d: ObjData, line: string, num: string -> real): (r: ObjData)
    ensures d.verts <= r.verts && d.faces <= r.faces && d.colors <= r.colors
    ensures |r.verts| == |d.verts| + (if IsStatement(line, "v") then 1 else 0)
    ensures |r.faces| == |d.faces| + (if IsStatement(line, "f") then 1 else 0)
    ensures |r.colors| == |d.colors| + (if HasColor(line) then 1 else 0)
    ensures IsStatement(line, "v") ==> r.verts[|d.verts|] == VertexOf(Tokens(line), num)
    ensures HasColor(line) ==> r.colors[|d.colors|] == ColorOf(Tokens(line), num)
    ensures IsStatement(line, "f") ==> r.faces[|d.faces|] == FaceIndices(Tokens(line), |d.verts|)
  {
    var t := Trim(line);
    if |t| == 0 || t[0] == '#' then d
    else
      var tokens := SplitSpaces(t);
      if tokens[0] == "v" then
        var colors := if |tokens| >= 7 then d.colors + [ColorOf(tokens, num)] else d.colors;
        ObjData(d.verts + [VertexOf(tokens, num)], d.faces, colors)
      else if tokens[0] == "f" then
        ObjData(d.verts, d.faces + [FaceIndices(tokens, |d.verts|)], d.colors)
      else d
  }

  /** The data collected from the given lines, in order. */
  function Scan(lines: seq<string>, num: string -> real): (r: ObjData)
    ensures |r.colors| <= |r.verts|
  {
    if |lines| == 0 then ObjData([], [], [])
    else ParseLine(Scan(lines[..|lines| - 1], num), lines[|lines| - 1], num)
  }

  /** The data collected from a whole file. */
  function ParseText(text: string, num: string -> real): ObjData
  {
    Scan(SplitOn(text, '\n'), num)
  }

  /** Number of lines that are statements with the given keyword. */
  function Statements(lines: seq<string>, keyword: string): nat
  {
    if |lines| == 0 then 0
    else Statements(lines[..|lines| - 1], keyword) + (if IsStatement(lines[|lines| - 1], keyword) then 1 else 0)
  }

  /** Number of vertex statements that carry a colour. */
  function ColorStatements(lines: seq<string>): nat
  {
    if |lines| == 0 then 0
    else ColorStatements(lines[..|lines| - 1]) + (if HasColor(lines[|lines| - 1]) then 1 else 0)
  }

  /** One vertex per `v` line, one face per `f` line, one colour per `v`
      line with a colour. */
  lemma {:induction false} ScanCounts(lines: seq<string>, num: string -> real)
    ensures |Scan(lines, num).verts| == Statements(lines, "v")
    ensures |Scan(lines, num).faces| == Statements(lines, "f")
    ensures |Scan(lines, num).colors| == ColorStatements(lines)
  {
    if |lines| > 0 {
      ScanCounts(lines[..|lines| - 1], num);
    }
  }

  /** Every vertex statement among the lines carries a colour. */
  predicate AllColored(lines: seq<string>)
  {
    forall k :: 0 <= k < |lines| && IsStatement(lines[k], "v") ==> HasColor(lines[k])
  }

  /** There are as many colours as vertices exactly when every vertex
      statement carries a colour. */
  lemma ColorsAligned(lines: seq<string>, num: string -> real)
    ensures |Scan(lines, num).colors| == |Scan(lines, num).verts| <==> AllColored(lines)
  {
    ScanCounts(lines, num);
    ColorCountIff(lines);
  }

  lemma {:induction false} ColorCountIff(lines: seq<string>)
    ensures ColorStatements(lines) <= Statements(lines, "v")
    ensures ColorStatements(lines) == Statements(lines, "v") <==> AllColored(lines)
  {
    if |lines| > 0 {
      var init := lines[..|lines| - 1];
      assert forall k :: 0 <= k < |init| ==> init[k] == lines[k];
      ColorCountIff(init);
    }
  }

  /** When every vertex statement carries a colour, the vertex and the
      colour of the `v` statement on line k sit at the same position: the
      number of vertices defined above line k. */
  lemma VertexAndColorOfLine(lines: seq<string>, k: nat, num: string -> real)
    requires k < |lines| && IsStatement(lines[k], "v") && AllColored(lines)
    ensures var i, all := |Scan(lines[..k], num).verts|, Scan(lines, num);
      i < |all.verts| && i < |all.colors| &&
      all.verts[i] == VertexOf(Tokens(lines[k]), num) &&
      all.colors[i] == ColorOf(Tokens(lines[k]), num)
  {
    var before := lines[..k];
    assert forall j :: 0 <= j < |before| ==> before[j] == lines[j];
    assert AllColored(before);
    ColorsAligned(before, num);
    ScanStep(lines, k, num);
    ScanExtends(lines, k + 1, num);
  }

  /** Reading more lines never changes what was read before: vertices,
      faces and colours keep the order of their lines. */
  lemma {:induction false} ScanExtends(lines: seq<string>, k: nat, num: string -> real)
    requires k <= |lines|
    ensures var early, all := Scan(lines[..k], num), Scan(lines, num);
      early.verts <= all.verts && early.faces <= all.faces && early.colors <= all.colors
  {
    if k < |lines| {
      var init := lines[..|lines| - 1];
      assert init[..k] == lines[..k];
      ScanExtends(init, k, num);
    } else {
      assert lines[..k] == lines;
    }
  }

  lemma ScanStep(lines: seq<string>, i: nat, num: string -> real)
    requires i < |lines|
    ensures Scan(lines[..i + 1], num) == ParseLine(Scan(lines[..i], num), lines[i], num)
  {
    assert lines[..i + 1][..i] == lines[..i];
  }

  /** The face of the `f` statement on line k is that line's tokens resolved
      against the vertices defined above it, and it sits after the faces of
      the lines above it. */
  lemma FaceOfLine(lines: seq<string>, k: nat, num: string -> real)
    requires k < |lines| && IsStatement(lines[k], "f")
    ensures var before := Scan(lines[..k], num);
      |before.faces| < |Scan(lines, num).faces| &&
      Scan(lines, num).faces[|before.faces|] == FaceIndices(Tokens(lines[k]), |before.verts|)
  {
    ScanStep(lines, k, num);
    ScanExtends(lines, k + 1, num);
  }

  /** A reference counted from the start and the reference counting back
      from the latest vertex name the same vertex: with three vertices read,
      `f 1 2 3` and `f -3 -2 -1` are the same face. */
  lemma AbsoluteAndRelativeAgree(len: nat, k: nat)
    requires 1 <= k <= len
    ensures ParseVertexIndex(ShowInt(k), len) == k - 1
    ensures ParseVertexIndex(ShowInt(k - len - 1), len) == k - 1
  {
    ParseIntShowInt(k);
    ParseIntShowInt(k - len - 1);
  }

  /** Token k of a face statement that is the numeral k, or the numeral
      counting back to vertex k, resolves to vertex k - 1: with four vertices
      read, `f 1 2 3 4`, `f -4 -3 -2 -1` and `f 1 -3 3 -1` are the same quad. */
  lemma ReferenceResolves(tokens: seq<string>, k: nat, len: nat)
    requires 1 <= k <= len && k < |tokens|
    requires tokens[k] == ShowInt(k) || tokens[k] == ShowInt(k - len - 1)
    ensures FaceIndices(tokens, len)[k - 1] == k - 1
  {
    NumeralResolves(tokens[k], k, len);
    FaceIndicesAt(tokens, len, k);
  }

  lemma NumeralResolves(token: string, k: nat, len: nat)
    requires 1 <= k <= len
    requires token == ShowInt(k) || token == ShowInt(k - len - 1)
    ensures ParseVertexIndex(FirstField(token), len) == k - 1
  {
    AbsoluteAndRelativeAgree(len, k);
    if token == ShowInt(k) {
      NumeralHasNoSlash(k);
    } else {
      NumeralHasNoSlash(k - len - 1);
    }
    FirstFieldWhole(token);
  }

  /** The face branch of the line loop: every token after `f` resolved to
      a vertex index through the text before its first `/`. */
  method ReadFace(tokens: seq<string>, len: nat) returns (face: Face)
    requires |tokens| >= 1
    ensures face == FaceIndices(tokens, len)
    ensures |face| == |tokens| - 1
  {
    face := [];
    for j := 1 to |tokens|
      invariant face == FaceIndices(tokens[..j], len)
    {
      var vertexData := SplitOn(tokens[j], '/');
      var vertexIndex := ParseVertexIndex(vertexData[0], len);
      FaceIndicesPrefix(tokens, j, len);
      face := face + [vertexIndex];
    }
    assert tokens[..|tokens|] == tokens;
  }

  /** The source's parse: split the text into lines, run the line loop, build
      the mesh and compute its normals. The normal computation fails when a
      face with a fan names a vertex that does not exist; that failure is the
      error result. */
  method Parse(text: string, num: string -> real) returns (r: Result<NGon, LoadError>)
    ensures var d := ParseText(text, num);
      (r.Success? <==> FanFacesInRange(d.faces, |d.verts|)) &&
      (r.Success? ==> r.value.verts == d.verts && r.value.faces == d.faces && r.value.colors == d.colors) &&
      (r.Success? ==> r.value.NormalsAccumulated())
  {
    var verts: seq<Vec3> := [];
    var faces: seq<Face> := [];
    var colors: seq<Rgb> := [];

    var lines := SplitOn(text, '\n');

    for i := 0 to |lines|
      invariant ObjData(verts, faces, colors) == Scan(lines[..i], num)
    {
      ScanStep(lines, i, num);
      var line := Trim(lines[i]);
      if |line| == 0 || line[0] == '#' {
        continue;
      }

      var tokens := SplitSpaces(line);
      var keyword := tokens[0];

      if keyword == "v" {
        var x := num(Field(tokens, 1));
        var y := num(Field(tokens, 2));
        var z := num(Field(tokens, 3));
        verts := verts + [Vec3(x, y, z)];

        if |tokens| >= 7 {
          var red := num(Field(tokens, 4));
          var green := num(Field(tokens, 5));
          var blue := num(Field(tokens, 6));
          colors := colors + [Rgb(red, green, blue)];
        }
      } else if keyword == "f" {
        var faceIndices := ReadFace(tokens, |verts|);
        faces := faces + [faceIndices];
      }
    }
    assert lines[..|lines|] == lines;

    var ngon := new NGon(verts, faces, colors);
    if !FanFacesInRange(faces, |verts|) {
      return Failure(MissingVertex);
    }
    ngon.CalculateNormals();
    return Success(ngon);
  }
}
