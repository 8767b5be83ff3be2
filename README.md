# tikzGmsh graph core in Dafny

tikzGmsh reads a 1D or 2D finite-element mesh and writes a TikZ drawing of
either its vertex adjacency graph (mode `node`) or its element outlines
(mode `element`). This project models the part of `main.cpp` that builds the
table to be drawn, and proves what that table contains:

- `fillVtoV` (module `Adjacency`). For each element the filter keeps, each edge
  is stored under its endpoint with the smaller-or-equal vertex number. A
  linear scan of that vertex's neighbour list then appends the other endpoint
  only if it is absent.
- `fillEtoV` (module `Outline`). For each element the filter keeps, its vertex
  list is copied in winding order. It is inserted under the element, and an
  existing entry is never overwritten.
- The element-number filter written inline in both builders (module
  `ElementFilter`). In node mode the `only` list names the elements to keep. In
  element mode it names the elements to drop. The model keeps this asymmetry.
- `readList` (module `OnlyList`). It parses the `{n1,n2,...}` value of `only=`.
- The batch structure of `writeTikz` (module `WriteTikz`). One builder is
  called on one table that starts empty: for a 2D model face by face, on
  triangles, then quadrangles, then polygons; for a 1D model curve by curve,
  on lines.

Modelling choices:

- A vertex is its number. The source compares neighbours by `MVertex*` but
  orders them by `getNum()`. With unique vertex numbers the two agree.
- An element is an object (`Mesh.MeshElement`) with constant fields: number,
  vertex list and edge list. The outline table is keyed by the object, as the
  source keys it by `MElement*`. Edges come as input, because Gmsh's
  `getEdge` is not part of this model.
- Each builder mutates a map passed by reference. Here it is a method that
  takes the map and returns the new one. Each method is proved equal to a
  left fold (`Adjacency.VtoV`, `Outline.EtoV`), and the properties are proved
  about the fold.
- `readList` is proved against an independent reference: split the body on
  commas, then read each field in base 10 (`OnlyList.ParseList`).

A behaviour of `main.cpp` that the model keeps as written: element-mode
entries are inserted without overwriting (main.cpp:203-208). An element
already in the table keeps its old entry.

The `only=` value is a brace-delimited list of numbers. main.cpp:265-268
passes every character other than `,` to `atoi`; a sign or any other character
is outside the model (see "## Left out").

## Model

| member | source | states |
|---|---|---|
| ElementFilter.NodeSelection | main.cpp:149-153 | the node-mode builder processes exactly the elements whose number is in `onlyList` when `only` is set, and every element when it is not |
| ElementFilter.ElementSelection | main.cpp:197-201 | the element-mode builder processes exactly the elements whose number is NOT in `onlyList` when `only` is set, and every element when it is not |
| ElementFilter.NodeSelectionInOrder | main.cpp:145-153 | the elements node mode processes appear in batch order, at strictly increasing positions of the batch |
| ElementFilter.NodePositionsExact | main.cpp:149-153 | those positions are exactly the positions of the elements whose number passes the node-mode filter |
| ElementFilter.ElementSelectionInOrder | main.cpp:193-201 | the elements element mode processes appear in batch order, at strictly increasing positions of the batch |
| ElementFilter.ElementPositionsExact | main.cpp:197-201 | those positions are exactly the positions of the elements whose number passes the element-mode filter |
| ElementFilter.FilterAsymmetry | main.cpp:149-201 | with the filter on, node mode keeps an element exactly when element mode drops it; with it off, both keep every element |
| Adjacency.FillVtoV | main.cpp:142-188 | the nested loops (elements, edges, linear scan with `found` and `break`) compute exactly the fold `VtoV` of the starting map over the batch |
| Adjacency.AddEdgeFacts | main.cpp:157-185 | one edge: the old lists survive as prefixes; the edge ends up recorded under its canonical key; the only possible new entry is that one; no-duplicates, canonical direction and (for a non-degenerate edge) no self-loop are preserved |
| Adjacency.AddEdgesFacts | main.cpp:155-186 | the same facts for all edges of one element: every edge recorded, every new entry one of its edges in canonical direction |
| Adjacency.VtoVAppendOnly | main.cpp:155-186 | existing keys stay and every existing neighbour list is a prefix of the new one, so new neighbours are only appended at the end |
| Adjacency.VtoVComplete | main.cpp:155-186 | every edge of every selected element appears under its canonical key |
| Adjacency.VtoVSound | main.cpp:145-186 | every entry of the result was already present or is an edge of a selected element in canonical direction, so a filtered-out element adds nothing |
| Adjacency.VtoVNoDuplicates | main.cpp:160-184 | if the starting map has no duplicate in any list, none has one afterwards, however many elements share an edge |
| Adjacency.VtoVCanonical | main.cpp:158-185 | if in the starting map every neighbour is numbered at least as high as its key, this still holds afterwards: an edge is never recorded in the reverse direction |
| Adjacency.VtoVLoopless | main.cpp:158-185 | with no degenerate edge among the selected elements, no vertex becomes its own neighbour |
| Adjacency.VtoVConcat | main.cpp:78-83 | folding batch `a` and then batch `b` into the same map gives the same map as folding `a + b` |
| Adjacency.VtoVFiltered | main.cpp:149-153 | the result equals the unfiltered fold over exactly the elements that node mode selects |
| Outline.FillEtoV | main.cpp:190-210 | the loop (filter, vertex-by-vertex copy, insert if absent) computes exactly the fold `EtoV` |
| Outline.EtoVKeys | main.cpp:193-208 | the keys afterwards are the old keys plus exactly the elements that element mode keeps |
| Outline.EtoVValues | main.cpp:203-208 | an old entry keeps its value (insert never overwrites); a new entry is exactly the element's vertex list in order |
| Outline.EtoVConcat | main.cpp:112-117 | folding batches one after another equals one fold over their concatenation |
| Outline.EtoVFiltered | main.cpp:197-201 | the result equals the unfiltered fold over exactly the elements that element mode keeps |
| OnlyList.CloseFrom | main.cpp:263 | the index where reading stops is the first `}` at or after the start, or the end of the string |
| OnlyList.ReadList | main.cpp:259-279 | the loop over `i` and `nb` appends to `onlyList` exactly the base-10 values of the comma-separated fields between `{` and the first `}`, left to right |
| OnlyList.ParseBodySnoc | main.cpp:263-277 | one more character: a comma closes the current number and starts a new one at 0; a digit multiplies the current number by 10 and adds its value |
| OnlyList.ParseBodyCount | main.cpp:263-278 | a body with n commas (counted as a multiset of characters) yields exactly n + 1 numbers |
| OnlyList.EmptyListIsZero | main.cpp:259-278 | `{}` yields the single value 0 |
| OnlyList.ParseFormatRoundTrip | main.cpp:259-279 | a non-empty list of naturals written as `{n1,...,nk}` parses back to exactly that list |
| WriteTikz.BuildAdjacency | main.cpp:72-91 | calling the node builder per face on triangles, quadrangles and polygons (2D) or per curve on lines (1D), on one empty map, gives the fold over all those elements in that order |
| WriteTikz.BuildOutlines | main.cpp:106-125 | the same batch structure for the element outlines gives the fold `EtoV` over all the model's elements |
| WriteTikz.BuildGraph | main.cpp:72-125 | the mode selects which of the two tables is built, and the result is that table |
| WriteTikz.NodeGraphProperties | main.cpp:72-91 | the built adjacency graph has no duplicates and is canonical; it records every edge of every selected element; every entry comes from such an edge; without degenerate edges it has no self-loops |
| WriteTikz.SharedEdgeOnce | main.cpp:155-186 | in a duplicate-free canonical graph, an edge between a < b occurs exactly once under a and never under b |
| WriteTikz.SharedEdgeOnceInGraph | main.cpp:155-186 | in the graph the node-mode pass builds, a non-degenerate edge of a selected element is listed exactly once under its lower-numbered endpoint and never under the other |
| WriteTikz.ElementGraphProperties | main.cpp:106-125 | the built outline table has exactly the elements that element mode keeps as keys, each mapped to its vertex list in winding order |
| Scenario.TwoTrianglesAdjacency | main.cpp:142-188 | two triangles (1,2,3) and (2,4,3) that share edge 2-3 give 1: [2,3], 2: [3,4], 3: [4], so there are five entries and the shared edge appears once |
| Scenario.TwoTrianglesOutlines | main.cpp:190-210 | the same triangles in element mode with `only={2}` give a table whose only entry is element 1 with vertices [1,2,3] |

## Left out

- Mesh loading, `GmshInitialize` and `GmshFinalize` (main.cpp:42-45, main.cpp:64). These are Gmsh library calls. A model is given as a `WriteTikz.MeshModel` value.
- Gmsh's face and curve iterators (main.cpp:78-89, main.cpp:112-124). They are replaced by the sequences of `WriteTikz.MeshModel`; the iteration itself is modelled.
- Edge derivation (`getEdge`, `getNumEdges`). It is Gmsh code that is not part of this model, so each element carries its edges as input.
- The 3D rejection in `main` (main.cpp:53-59). It depends on Gmsh's element count and only sets the exit code. A model whose dimension is neither 1 nor 2 gets an empty table, as in `writeTikz`.
- The coordinate transform and TikZ text output (main.cpp:93-104, main.cpp:127-136). They use floating point and file output, so `dx`, `dy` and `scale` are not part of `Mesh.Param`.
- `readParam` (main.cpp:212-257). It is a file-token loop that uses `std::stod` on floating-point values.
- Iteration order of `unordered_map`. It is unspecified, so the tables are Dafny maps and no property depends on it.
- OnlyList.ReadList: the source's `atoi(&c)` gets a pointer to one character with no terminator, so it may read past it. The model takes the digit's value instead, and requires only digits and commas between the first character and the first `}`.
- OnlyList.ReadList: numbers are unbounded integers. The source's 32-bit `int` overflows (undefined behaviour) once a number in the list exceeds 2147483647.
- OnlyList.ReadList: a string with no `}` after its first character is excluded by the precondition. The source would read past the end of the string.
- Vertex identity: the model compares vertex numbers where the source compares `MVertex*` pointers. It relies on vertex numbers being unique.
