# NGon OBJ loader, modelled in Dafny

This project models the polygon-preserving OBJ loader of the mesh viewer
(`media/three/loaders/NGonOBJLoader.js`). It proves properties of the model.

- **Parsing.** `NGonOBJLoader.parse` reads Wavefront OBJ text line by line.
  - It keeps `v x y z [r g b]` statements as vertices, with optional colours.
  - It keeps `f` statements as whole polygons: one 0-based vertex index per reference. References are 1-based or, when negative, count back from the latest vertex.
  - It ignores every other line.
- **The mesh.** The result is an `NGon` mesh with four sequences: vertices, faces, colours and normals.
  - `calculateNormals` accumulates smooth normals. It fan-triangulates every face from its first index and adds each triangle's (C − B) × (A − B) to its three corners.
  - `makeGeometry` emits the flat index list and the per-vertex position, normal and colour arrays. The index list holds the triangles of each fan, reversed when the winding is flipped.
  - `makeWireGeometry` emits one line segment per polygon edge, the last edge closing the polygon.

Modules:

| file | module | contents |
|---|---|---|
| `wrappers.dfy` | `Wrappers` | `Option`, `Result` |
| `vectors.dfy` | `Vectors` | exact-real 3D vectors and RGB colours standing in for the rendering library's value objects |
| `text.dfy` | `Text` | the JavaScript string operations the parser uses: `trim`, `split` on one character, `split(/\s+/)`, `parseInt(s, 10)` |
| `fan.dfy` | `Fan` | the meaning of the mesh computations as functions, with lemmas |
| `ngon.dfy` | `NGonMesh` | class `NGon`: its fields and its three methods, written as loops over the fields and proved against `Fan` |
| `loader.dfy` | `ObjLoader` | one line of the parser (`ParseLine`) and all lines (`Scan`) as functions, and the `Parse` method with its loops, proved against them |

`parseFloat` is a parameter `num: string -> real` of the parser. A missing
token is passed to it as the empty string; like the missing token, `parseFloat`
reads that as NaN.

## Model

| member | source | states |
|---|---|---|
| Vectors.Sub | media/three/loaders/NGonOBJLoader.js:41-42 | `subVectors`: the difference p − q is the vector that, added to q, gives p |
| Vectors.Cross | media/three/loaders/NGonOBJLoader.js:43 | `cross`: p × q is perpendicular to both p and q |
| Vectors.CrossRightHanded | media/three/loaders/NGonOBJLoader.js:43 | the cross product is right-handed: x × y = z |
| Vectors.CrossMagnitude | media/three/loaders/NGonOBJLoader.js:43 | Lagrange's identity: the squared length of p × q is \|p\|²\|q\|² − (p · q)², the squared area of the parallelogram they span |
| Vectors.CrossAntiCommutes | media/three/loaders/NGonOBJLoader.js:41-43 | q × p is the opposite of p × q |
| Text.LeadingSpaces | media/three/loaders/NGonOBJLoader.js:207 | the count of leading whitespace: every character before it is whitespace and the one at it is not |
| Text.Trim | media/three/loaders/NGonOBJLoader.js:207 | `trim`: the result is a contiguous stretch of the line that starts after the leading whitespace, and it neither starts nor ends with whitespace |
| Text.TrimDropsOnlySpaces | media/three/loaders/NGonOBJLoader.js:207 | every character `trim` drops is whitespace |
| Text.SplitOn | media/three/loaders/NGonOBJLoader.js:199 | `split('\n')` / `split('/')`: there is at least one piece, no piece contains the separator, and the first piece is the text up to the first separator |
| Text.JoinSplitOn | media/three/loaders/NGonOBJLoader.js:199 | joining the pieces with the separator gives the text back |
| Text.SplitSpaces | media/three/loaders/NGonOBJLoader.js:212 | `split(/\s+/)`: there is at least one piece, no piece contains whitespace, and the first piece is the text up to the first whitespace |
| Text.Squeeze | media/three/loaders/NGonOBJLoader.js:212 | the text with each maximal whitespace run replaced by one space is no longer than the text |
| Text.JoinSplitSpaces | media/three/loaders/NGonOBJLoader.js:212 | joining the pieces of `split(/\s+/)` with single spaces gives the text with its whitespace runs squeezed, so the pieces are exactly its words in order |
| Text.SplitSpacesWords | media/three/loaders/NGonOBJLoader.js:207-213 | on text that neither starts nor ends with whitespace every piece is non-empty |
| Text.DigitPrefix | media/three/loaders/NGonOBJLoader.js:202 | the longest run of leading digits that `parseInt` reads: a prefix, all digits, and maximal |
| Text.ShowNat | media/three/loaders/NGonOBJLoader.js:202 | the decimal numeral of n is non-empty, all digits, and has value n |
| Text.ParseInt | media/three/loaders/NGonOBJLoader.js:202 | `parseInt(value, 10)` gives a number exactly when a digit follows the leading whitespace and an optional sign (NaN, here None, otherwise); a negative number comes only from a leading `-` |
| Text.ParseIntShowInt | media/three/loaders/NGonOBJLoader.js:202 | `parseInt` reads every signed decimal numeral back to its value |
| Fan.FanTriangles | media/three/loaders/NGonOBJLoader.js:36-40 | the fan of a face with k indices has max(0, k − 2) triangles; triangle i is (face[0], face[i+1], face[i+2]) |
| Fan.FanShape | media/three/loaders/NGonOBJLoader.js:75-78 | every corner of a fan triangle is an index of the face, and consecutive triangles share the diagonal from the first index |
| Fan.MeshTriangles | media/three/loaders/NGonOBJLoader.js:70-86 | there are as many triangles as the sum of max(0, k − 2) over the faces |
| Fan.MeshTrianglesAppend | media/three/loaders/NGonOBJLoader.js:70-86 | the triangles of two runs of faces are those of the first run followed by those of the second |
| Fan.AllTrianglesCount | media/three/loaders/NGonOBJLoader.js:70-86 | a mesh of triangles has one triangle per face |
| Fan.IndexList | media/three/loaders/NGonOBJLoader.js:80-84 | three indices per triangle |
| Fan.IndexListAt | media/three/loaders/NGonOBJLoader.js:80-84 | entry 3j + c of the index list is corner c of triangle j: its corners in the order (a, b, c), or (c, b, a) when flipped |
| Fan.FlipReversesEachTriangle | media/three/loaders/NGonOBJLoader.js:80-84 | flipping the winding reverses the three indices of each triangle and keeps the triangles in order |
| Fan.QuadFan | media/three/loaders/NGonOBJLoader.js:70-86 | the quad 0 1 2 3 becomes the indices 0 1 2 0 2 3, or 2 1 0 3 2 0 when flipped |
| Fan.FanRangeIff | media/three/loaders/NGonOBJLoader.js:33-43 | the fan triangles name only existing vertices if and only if every face with three or more indices does; this is when the normal computation can read all its vertices |
| Fan.IndicesInRange | media/three/loaders/NGonOBJLoader.js:70-86 | when the faces with a fan name existing vertices, every emitted index is a vertex of the mesh |
| Fan.FaceSegments | media/three/loaders/NGonOBJLoader.js:133-135 | one segment per index of the face |
| Fan.FaceSegmentsOutline | media/three/loaders/NGonOBJLoader.js:133-135 | the segments start at the face's indices in order; each ends where the next starts; the last ends at the first index |
| Fan.MeshSegments | media/three/loaders/NGonOBJLoader.js:129-143 | as many segments as the faces have indices in total |
| Fan.MeshSegmentsAppend | media/three/loaders/NGonOBJLoader.js:129-143 | the segments of two runs of faces are those of the first run followed by those of the second |
| Fan.MeshSegmentsInRange | media/three/loaders/NGonOBJLoader.js:137-138 | when every face names existing vertices, so does every segment |
| Fan.TriNormal | media/three/loaders/NGonOBJLoader.js:37-43 | the triangle normal (C − B) × (A − B) is perpendicular to both edges at B |
| Fan.TriNormalAtFirstCorner | media/three/loaders/NGonOBJLoader.js:41-43 | (C − B) × (A − B) equals the usual face normal (B − A) × (C − A): it points to the side from which A, B, C run counter-clockwise, and its length is twice the triangle's area |
| Fan.FlippedNormal | media/three/loaders/NGonOBJLoader.js:41-43 | reversing a triangle's winding turns its normal around |
| Fan.NormalSum | media/three/loaders/NGonOBJLoader.js:23-50 | defines the accumulator of vertex v after a run of triangles: each triangle adds its normal once for every corner that is v |
| Fan.NormalSumUntouched | media/three/loaders/NGonOBJLoader.js:23 | a vertex that is a corner of no triangle keeps the zero vector it starts with |
| Fan.NormalSumAppend | media/three/loaders/NGonOBJLoader.js:32-50 | the sum over two runs of triangles is the sum of their sums |
| Fan.NormalSumOrderFree | media/three/loaders/NGonOBJLoader.js:32-50 | the order of two runs of triangles does not change any vertex's sum |
| Fan.FaceOrderFree | media/three/loaders/NGonOBJLoader.js:32-50 | swapping two groups of faces gives every vertex the same normal |
| Fan.FlattenVecs | media/three/loaders/NGonOBJLoader.js:89-95 | three numbers per vector |
| Fan.FlattenVecsAt | media/three/loaders/NGonOBJLoader.js:89-95 | vector i occupies entries 3i to 3i+2, as (x, y, z) |
| Fan.FlattenColors | media/three/loaders/NGonOBJLoader.js:97-100 | three numbers per colour |
| Fan.FlattenColorsAt | media/three/loaders/NGonOBJLoader.js:97-100 | colour i occupies entries 3i to 3i+2, as (r, g, b) |
| Fan.SegmentPositions | media/three/loaders/NGonOBJLoader.js:136-141 | six numbers per segment |
| Fan.SegmentPositionsAt | media/three/loaders/NGonOBJLoader.js:136-141 | segment s occupies entries 6s to 6s+5: start vertex (x, y, z), then end vertex (x, y, z) |
| NGonMesh.NGon.constructor | media/three/loaders/NGonOBJLoader.js:7-12 | the mesh holds the given vertices, faces and colours, and no normals |
| NGonMesh.NGon.CalculateNormals | media/three/loaders/NGonOBJLoader.js:17-54 | given faces whose fans name existing vertices: afterwards there is one normal per vertex, equal to the sum of the normals of the fan triangles it is a corner of; vertices, faces and colours are unchanged |
| NGonMesh.NGon.AccumulateFace | media/three/loaders/NGonOBJLoader.js:32-50 | one run of the per-face callback adds the fan triangles of face f to the sums and changes nothing else |
| NGonMesh.Bump | media/three/loaders/NGonOBJLoader.js:46-48 | the three `add` calls add the normal once for every corner that is the vertex; a corner named twice receives it twice |
| NGonMesh.AccumulateStep | media/three/loaders/NGonOBJLoader.js:36-49 | one iteration of the inner loop turns the sums over the triangles so far into the sums over one more triangle |
| NGonMesh.IndexStep | media/three/loaders/NGonOBJLoader.js:75-85 | one iteration of the inner loop appends the next fan triangle's corners in emission order |
| NGonMesh.AppendFanIndices | media/three/loaders/NGonOBJLoader.js:70-86 | one run of the index callback for face f extends the index list of the faces before f to the index list of the faces up to f |
| NGonMesh.NGon.MakeGeometry | media/three/loaders/NGonOBJLoader.js:61-101 | the index list is the flat list of fan triangles (3 per triangle); positions are the vertices flattened; normals and colours are flattened for the first \|verts\| entries when present, and empty otherwise |
| NGonMesh.WireStep | media/three/loaders/NGonOBJLoader.js:133-141 | one iteration appends the coordinates of the segment from index i to index (i+1) mod k |
| NGonMesh.NGon.MakeWireGeometry | media/three/loaders/NGonOBJLoader.js:126-143 | given faces that name existing vertices: the positions are those of the faces' outline segments, six numbers per segment, 6 × (total face size) in all |
| ObjLoader.ParseVertexIndex | media/three/loaders/NGonOBJLoader.js:201-204 | with len vertices read, the resolved index names one of them if and only if the reference is a number from 1 to len or from −len to −1 |
| ObjLoader.AbsoluteAndRelativeAgree | media/three/loaders/NGonOBJLoader.js:201-204 | with len vertices read, the numeral k and the numeral k − len − 1 both resolve to vertex k − 1 |
| ObjLoader.FirstField | media/three/loaders/NGonOBJLoader.js:233-234 | the vertex part of a `v/vt/vn` reference is a prefix of the token with no slash |
| ObjLoader.FirstFieldOfReference | media/three/loaders/NGonOBJLoader.js:233-234 | a texture or normal part after the slash does not change the vertex part |
| ObjLoader.FirstFieldWhole | media/three/loaders/NGonOBJLoader.js:233-234 | a token without a slash is all vertex reference |
| ObjLoader.Tokens | media/three/loaders/NGonOBJLoader.js:207-212 | a line always has at least one token, so `tokens[0]` exists |
| ObjLoader.TokensAreWords | media/three/loaders/NGonOBJLoader.js:207-213 | the tokens are the words of the trimmed line: the first is the text up to the first whitespace (the keyword), none is empty on a non-blank line, and joined with single spaces they give the trimmed line with its whitespace runs squeezed |
| ObjLoader.IsStatement | media/three/loaders/NGonOBJLoader.js:207-215 | defines a statement: the trimmed line is not empty, does not start with `#`, and its first token is the keyword |
| ObjLoader.HasColor | media/three/loaders/NGonOBJLoader.js:223 | defines a coloured vertex: a `v` statement with at least seven tokens |
| ObjLoader.VertexOf | media/three/loaders/NGonOBJLoader.js:217-220 | defines the vertex of a `v` statement: `parseFloat` of tokens 1 to 3, a missing token read as the empty string |
| ObjLoader.ColorOf | media/three/loaders/NGonOBJLoader.js:224-227 | defines the colour of a coloured `v` statement: `parseFloat` of tokens 4 to 6 |
| ObjLoader.AfterKeyword | media/three/loaders/NGonOBJLoader.js:232-236 | one entry per token after the keyword |
| ObjLoader.FaceIndices | media/three/loaders/NGonOBJLoader.js:231-236 | a face has one index per token after the keyword |
| ObjLoader.FaceIndicesAt | media/three/loaders/NGonOBJLoader.js:232-235 | entry j − 1 of a face is token j's vertex part resolved against the vertices read so far |
| ObjLoader.ReferenceResolves | media/three/loaders/NGonOBJLoader.js:232-235 | token k, written from the start or counting back, resolves to vertex k − 1; `f 1 2 3 4` and `f -4 -3 -2 -1` give the same quad |
| ObjLoader.ReadFace | media/three/loaders/NGonOBJLoader.js:229-236 | the loop over a face's tokens builds exactly the face of the line: one resolved index per token after the keyword |
| ObjLoader.ParseLine | media/three/loaders/NGonOBJLoader.js:207-238 | one line appends exactly one vertex for a `v` statement, one colour for a `v` statement with at least 7 tokens, and one face for an `f` statement; anything appended has the values the statement gives; all earlier data is kept as a prefix |
| ObjLoader.ParseText | media/three/loaders/NGonOBJLoader.js:199 | defines what a file yields: the line loop run over the text split on `\n` |
| ObjLoader.Scan | media/three/loaders/NGonOBJLoader.js:206-240 | there are never more colours than vertices |
| ObjLoader.ScanCounts | media/three/loaders/NGonOBJLoader.js:215-237 | as many vertices as `v` lines, faces as `f` lines, colours as `v` lines with a colour |
| ObjLoader.ColorsAligned | media/three/loaders/NGonOBJLoader.js:215-228 | there are as many colours as vertices if and only if every `v` statement carries a colour |
| ObjLoader.VertexAndColorOfLine | media/three/loaders/NGonOBJLoader.js:215-228 | when every `v` statement carries a colour, the vertex and the colour of the `v` statement on line k both sit at position i, the number of vertices defined above line k |
| ObjLoader.ScanExtends | media/three/loaders/NGonOBJLoader.js:206-240 | reading more lines never changes what was read: each sequence only grows at its end, in line order |
| ObjLoader.FaceOfLine | media/three/loaders/NGonOBJLoader.js:229-237 | the face of the `f` line k comes after the faces of earlier lines and is resolved against the vertices defined above line k |
| ObjLoader.Parse | media/three/loaders/NGonOBJLoader.js:194-248 | parsing succeeds if and only if every face with a fan names an existing vertex; on success the mesh holds exactly the scanned vertices, faces and colours, with accumulated normals |

## Left out

- `NGonOBJLoader.load` (lines 167-187) and the loader's constructor (lines 156-158) are left out. They fetch the file through the rendering library's loading manager and report errors through callbacks. This is I/O.
- The `BufferGeometry` objects (lines 103-119 and 145-148) are not built. `MakeGeometry` returns the four flat arrays, and `MakeWireGeometry` returns its position array.
  - The `computeVertexNormals` fallback for a mesh without normals belongs to the rendering library.
  - So does the `Float32` rounding of the arrays.
- NGonMesh.NGon.CalculateNormals: does not model the final `normalize()` (lines 52-53). Each normal is left as the unnormalised sum. Normalisation is floating-point division by a square root, and the sums fix the direction it keeps.
- Coordinates are exact reals. Floating-point rounding, and NaN or infinite coordinates, are not modelled.
- `parseFloat` is the parameter `num`. Its own behaviour is not modelled.
- ObjLoader.ParseVertexIndex: a reference with no digits gives NaN in the source but -1 here. Neither names a vertex. A face with a fan (three or more references) that holds one makes the normal loop fail, so `parse` fails on both alike, and `makeWireGeometry` fails on both alike. The difference survives only in the parsed mesh's `faces` for a face of one or two references: after `v 0 0 0`, the line `f 1 x` gives `[0, NaN]` in the source and `[0, -1]` here, and parsing succeeds in both.
- Text.ParseInt: integers are unbounded. `parseInt`'s loss of precision above 2^53 is not modelled.
- Text: strings are sequences of Unicode characters, not UTF-16 code units. Surrogate pairs are not modelled; none of them is whitespace, a digit, `/` or a keyword.
- NGonMesh.NGon.MakeGeometry: requires that the normals, and likewise the colours, be either absent or at least one per vertex.
  - Otherwise the source reads `normals[idx]` or `colors[idx]` as `undefined` and fails with a type error. The model has no error result for that.
  - When some but not all vertices carry a colour, `makeGeometry` reads `colors[idx]` as `undefined` for the uncoloured tail and fails. The model requires this case away.
- NGonMesh.NGon.MakeGeometry: `flipWinding` is a boolean parameter. The source reads `parameters.flipWinding || false`, so it defaults to false when absent and takes any truthy value as true; the model's caller supplies the boolean that expression yields.
- NGonMesh.NGon.MakeWireGeometry: requires every face to name existing vertices. The source fails with a type error otherwise.
- ObjLoader.Parse checks the faces before computing normals; the source fails in the middle of the normal loop.
  - The outcome is the same: an error for the caller, or a mesh.
  - The type error itself is represented by `MissingVertex`.
- The constructor's defaults for missing parameters (`|| []`) are not modelled. The parser always passes all three sequences.
- In the source, the per-face work of all three mesh methods is a `forEach` callback. `CalculateNormals` keeps its callback as the method `AccumulateFace` and `MakeGeometry` its index callback as the method `AppendFanIndices`. `MakeWireGeometry` runs its callback as an inner loop, and `MakeGeometry` its vertex callback as a loop.
- `media/viewer.js`, `src/meshProvider.ts`, `src/meshDocument.ts` and `src/extension.ts` are not part of this model. They host the viewer. None of them uses `NGonOBJLoader`: the viewer builds the library's own `THREE.OBJLoader`.
