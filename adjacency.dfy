/** The Node-mode builder: folds the edges of the selected elements into a map
    from vertex number to the list of its neighbours. Each edge is stored once,
    under its endpoint with the smaller-or-equal number; a linear scan of that
    list keeps it free of duplicates, and new neighbours go at the end. */
module Adjacency {
  import opened Mesh
  import opened ElementFilter

  /** Vertex number to neighbour numbers, in discovery order. */
  type AdjacencyMap = map<int, seq<int>>

  /** The endpoint an edge is stored under: the smaller-or-equal number (the first endpoint on a tie). */
  function Key(e: Edge): int {
    if e.v0 <= e.v1 then e.v0 else e.v1
  }

  /** The endpoint recorded in the key's neighbour list. */
  function Other(e: Edge): int {
    if e.v0 <= e.v1 then e.v1 else e.v0
  }

  /** The neighbour list of `v`; a vertex not yet in the map has an empty one. */
  function Neighbours(adj: AdjacencyMap, v: int): seq<int> {
    if v in adj then adj[v] else []
  }

  /** One edge: the other endpoint is appended to the key's list unless it is already there. */
  function AddEdge(adj: AdjacencyMap, e: Edge): AdjacencyMap {
    var list := Neighbours(adj, Key(e));
    if Other(e) in list then adj else adj[Key(e) := list + [Other(e)]]
  }

  /** The edges of one element, in order. */
  function AddEdges(adj: AdjacencyMap, edges: seq<Edge>): AdjacencyMap
  {
    if edges == [] then adj
    else AddEdge(AddEdges(adj, edges[..|edges| - 1]), edges[|edges| - 1])
  }

  /** One element: its edges if the Node-mode filter selects it, nothing otherwise. */
  function AddElement(adj: AdjacencyMap, param: Param, el: MeshElement): AdjacencyMap {
    if NodeSelected(param, el.num) then AddEdges(adj, el.edges) else adj
  }

  /** A batch of elements, in order: the specification of FillVtoV. */
  function VtoV(adj: AdjacencyMap, param: Param, elements: seq<MeshElement>): AdjacencyMap
  {
    if elements == [] then adj
    else AddElement(VtoV(adj, param, elements[..|elements| - 1]), param, elements[|elements| - 1])
  }

  /** `v` lists `n` as a neighbour. */
  predicate HasEntry(adj: AdjacencyMap, v: int, n: int) {
    v in adj && n in adj[v]
  }

  /** The edge is recorded in its canonical direction. */
  predicate Records(adj: AdjacencyMap, e: Edge) {
    HasEntry(adj, Key(e), Other(e))
  }

  /** No neighbour list holds the same vertex twice. */
  ghost predicate NoDuplicates(adj: AdjacencyMap) {
    forall v, i, j :: v in adj && 0 <= i < j < |adj[v]| ==> adj[v][i] != adj[v][j]
  }

  /** Every neighbour is numbered at least as high as the vertex it is listed under. */
  ghost predicate Canonical(adj: AdjacencyMap) {
    forall v, i :: v in adj && 0 <= i < |adj[v]| ==> v <= adj[v][i]
  }

  /** No vertex is listed as its own neighbour. */
  ghost predicate Loopless(adj: AdjacencyMap) {
    forall v, i :: v in adj && 0 <= i < |adj[v]| ==> adj[v][i] != v
  }

  /** `after` keeps every key of `before`, with the old list as a prefix of the new one. */
  ghost predicate Extends(before: AdjacencyMap, after: AdjacencyMap) {
    forall v :: v in before ==> v in after && before[v] <= after[v]
  }

  /** Some edge of a selected element of `elements`, in canonical direction, is (v, n). */
  ghost predicate Contributed(param: Param, elements: seq<MeshElement>, v: int, n: int) {
    exists i, j :: 0 <= i < |elements| && NodeSelected(param, elements[i].num) && 0 <= j < |elements[i].edges|
      && Key(elements[i].edges[j]) == v && Other(elements[i].edges[j]) == n
  }

  /** No edge of a selected element joins a vertex to itself. */
  ghost predicate NoDegenerateEdges(param: Param, elements: seq<MeshElement>) {
    forall i, j :: 0 <= i < |elements| && NodeSelected(param, elements[i].num) && 0 <= j < |elements[i].edges|
      ==> elements[i].edges[j].v0 != elements[i].edges[j].v1
  }

  /** The builder, as the source writes it: for each element that passes the
      filter, for each edge, pick the canonical key, scan its list for the other
      endpoint and append it if absent. */
  method FillVtoV(adj0: AdjacencyMap, param: Param, elements: seq<MeshElement>) returns (adj: AdjacencyMap)
    ensures adj == VtoV(adj0, param, elements)
  {
    adj := adj0;
    for i := 0 to |elements|
      invariant adj == VtoV(adj0, param, elements[..i])
    {
      var el := elements[i];
      assert elements[..i + 1][..i] == elements[..i];
      if param.only && el.num !in param.onlyList {
        continue;
      }
      ghost var before := adj;
      for j := 0 to |el.edges|
        invariant adj == AddEdges(before, el.edges[..j])
      {
        var e := el.edges[j];
        assert el.edges[..j + 1][..j] == el.edges[..j];
        var key, other;
        if e.v0 <= e.v1 {
          key, other := e.v0, e.v1;
        } else {
          key, other := e.v1, e.v0;
        }
        var list := if key in adj then adj[key] else [];
        var found := false;
        var k := 0;
        while k < |list|
          invariant 0 <= k <= |list|
          invariant !found && other !in list[..k]
        {
          if list[k] == other {
            found := true;
            break;
          }
          k := k + 1;
        }
        assert found <==> other in list;
        if !found {
          adj := adj[key := list + [other]];
        }
      }
      assert el.edges[..|el.edges|] == el.edges;
    }
    assert elements[..|elements|] == elements;
  }

  lemma AddEdgeFacts(adj: AdjacencyMap, e: Edge)
    ensures Extends(adj, AddEdge(adj, e))
    ensures Records(AddEdge(adj, e), e)
    ensures forall v, n :: HasEntry(AddEdge(adj, e), v, n) ==> HasEntry(adj, v, n) || (v == Key(e) && n == Other(e))
    ensures NoDuplicates(adj) ==> NoDuplicates(AddEdge(adj, e))
    ensures Canonical(adj) ==> Canonical(AddEdge(adj, e))
    ensures Loopless(adj) && e.v0 != e.v1 ==> Loopless(AddEdge(adj, e))
  {
    var k, n := Key(e), Other(e);
    var list := Neighbours(adj, k);
    var r := AddEdge(adj, e);
    if n !in list {
      assert r == adj[k := list + [n]];
      forall v, x | HasEntry(r, v, x)
        ensures HasEntry(adj, v, x) || (v == k && x == n)
      {
        if v == k && x != n {
          assert x in list;
        }
      }
      if NoDuplicates(adj) {
        forall v, i, j | v in r && 0 <= i < j < |r[v]|
          ensures r[v][i] != r[v][j]
        {
          if v == k && j == |list| {
            assert r[v][i] == list[i];
          }
        }
      }
    }
  }

  lemma ExtendsTransitive(a: AdjacencyMap, b: AdjacencyMap, c: AdjacencyMap)
    requires Extends(a, b) && Extends(b, c)
    ensures Extends(a, c)
  {
  }

  lemma ExtendsKeepsEntries(a: AdjacencyMap, b: AdjacencyMap)
    requires Extends(a, b)
    ensures forall v, n :: HasEntry(a, v, n) ==> HasEntry(b, v, n)
  {
    forall v, n | HasEntry(a, v, n)
      ensures HasEntry(b, v, n)
    {
      var i :| 0 <= i < |a[v]| && a[v][i] == n;
      assert b[v][i] == n;
    }
  }

  lemma {:induction false} AddEdgesFacts(adj: AdjacencyMap, edges: seq<Edge>)
    ensures Extends(adj, AddEdges(adj, edges))
    ensures forall j :: 0 <= j < |edges| ==> Records(AddEdges(adj, edges), edges[j])
    ensures forall v, n :: HasEntry(AddEdges(adj, edges), v, n) ==>
      HasEntry(adj, v, n) || exists j :: 0 <= j < |edges| && Key(edges[j]) == v && Other(edges[j]) == n
    ensures NoDuplicates(adj) ==> NoDuplicates(AddEdges(adj, edges))
    ensures Canonical(adj) ==> Canonical(AddEdges(adj, edges))
    ensures Loopless(adj) && (forall j :: 0 <= j < |edges| ==> edges[j].v0 != edges[j].v1) ==> Loopless(AddEdges(adj, edges))
  {
    if edges != [] {
      var init, e := edges[..|edges| - 1], edges[|edges| - 1];
      var mid := AddEdges(adj, init);
      var r := AddEdges(adj, edges);
      AddEdgesFacts(adj, init);
      AddEdgeFacts(mid, e);
      ExtendsTransitive(adj, mid, r);
      ExtendsKeepsEntries(mid, r);
      forall j | 0 <= j < |edges|
        ensures Records(r, edges[j])
      {
        if j < |edges| - 1 {
          assert edges[j] == init[j];
        }
      }
      forall v, n | HasEntry(r, v, n)
        ensures HasEntry(adj, v, n) || exists j :: 0 <= j < |edges| && Key(edges[j]) == v && Other(edges[j]) == n
      {
        if !HasEntry(mid, v, n) {
          assert Key(edges[|edges| - 1]) == v && Other(edges[|edges| - 1]) == n;
        } else if !HasEntry(adj, v, n) {
          var j :| 0 <= j < |init| && Key(init[j]) == v && Other(init[j]) == n;
          assert edges[j] == init[j];
        }
      }
    }
  }

  /** Append-only: keys already present stay, and every existing neighbour list
      survives as a prefix, so old entries keep their order and positions and
      new neighbours appear only after them. */
  lemma {:induction false} VtoVAppendOnly(adj: AdjacencyMap, param: Param, elements: seq<MeshElement>)
    ensures Extends(adj, VtoV(adj, param, elements))
  {
    if elements != [] {
      var mid := VtoV(adj, param, elements[..|elements| - 1]);
      VtoVAppendOnly(adj, param, elements[..|elements| - 1]);
      AddEdgesFacts(mid, elements[|elements| - 1].edges);
      ExtendsTransitive(adj, mid, VtoV(adj, param, elements));
    }
  }

  /** Completeness: every edge of every selected element is recorded under its canonical key. */
  lemma {:induction false} VtoVComplete(adj: AdjacencyMap, param: Param, elements: seq<MeshElement>)
    ensures forall i, j :: 0 <= i < |elements| && NodeSelected(param, elements[i].num) && 0 <= j < |elements[i].edges| ==>
              Records(VtoV(adj, param, elements), elements[i].edges[j])
  {
    if elements != [] {
      var init, el := elements[..|elements| - 1], elements[|elements| - 1];
      var mid := VtoV(adj, param, init);
      var r := VtoV(adj, param, elements);
      VtoVComplete(adj, param, init);
      AddEdgesFacts(mid, el.edges);
      ExtendsKeepsEntries(mid, r);
      forall i, j | 0 <= i < |elements| && NodeSelected(param, elements[i].num) && 0 <= j < |elements[i].edges|
        ensures Records(r, elements[i].edges[j])
      {
        if i < |init| {
          assert elements[i] == init[i];
        }
      }
    }
  }

  /** Soundness: every entry of the result was already there or is an edge of a
      selected element in canonical direction; an element the filter rejects
      contributes nothing. */
  lemma {:induction false} VtoVSound(adj: AdjacencyMap, param: Param, elements: seq<MeshElement>)
    ensures forall v, n :: HasEntry(VtoV(adj, param, elements), v, n) ==>
      HasEntry(adj, v, n) || Contributed(param, elements, v, n)
  {
    if elements != [] {
      var init, el := elements[..|elements| - 1], elements[|elements| - 1];
      var mid := VtoV(adj, param, init);
      var r := VtoV(adj, param, elements);
      VtoVSound(adj, param, init);
      AddEdgesFacts(mid, el.edges);
      forall v, n | HasEntry(r, v, n)
        ensures HasEntry(adj, v, n) || Contributed(param, elements, v, n)
      {
        if !HasEntry(mid, v, n) {
          var j :| 0 <= j < |el.edges| && Key(el.edges[j]) == v && Other(el.edges[j]) == n;
          assert elements[|elements| - 1].edges[j] == el.edges[j];
        } else if !HasEntry(adj, v, n) {
          var i, j :| 0 <= i < |init| && NodeSelected(param, init[i].num) && 0 <= j < |init[i].edges|
            && Key(init[i].edges[j]) == v && Other(init[i].edges[j]) == n;
          assert elements[i] == init[i];
        }
      }
    }
  }

  /** Dedup: lists that start duplicate-free stay duplicate-free, however many
      elements share an edge. */
  lemma {:induction false} VtoVNoDuplicates(adj: AdjacencyMap, param: Param, elements: seq<MeshElement>)
    requires NoDuplicates(adj)
    ensures NoDuplicates(VtoV(adj, param, elements))
  {
    if elements != [] {
      var init := elements[..|elements| - 1];
      VtoVNoDuplicates(adj, param, init);
      AddEdgesFacts(VtoV(adj, param, init), elements[|elements| - 1].edges);
    }
  }

  /** Canonical direction: a map whose neighbours are never numbered below their
      key keeps that shape, so an edge is never recorded in the reverse direction. */
  lemma {:induction false} VtoVCanonical(adj: AdjacencyMap, param: Param, elements: seq<MeshElement>)
    requires Canonical(adj)
    ensures Canonical(VtoV(adj, param, elements))
  {
    if elements != [] {
      var init := elements[..|elements| - 1];
      VtoVCanonical(adj, param, init);
      AddEdgesFacts(VtoV(adj, param, init), elements[|elements| - 1].edges);
    }
  }

  /** No self-loops: when no selected element has a degenerate edge, a map
      without self-loops stays without. */
  lemma {:induction false} VtoVLoopless(adj: AdjacencyMap, param: Param, elements: seq<MeshElement>)
    requires Loopless(adj)
    requires NoDegenerateEdges(param, elements)
    ensures Loopless(VtoV(adj, param, elements))
  {
    if elements != [] {
      var init, el := elements[..|elements| - 1], elements[|elements| - 1];
      assert NoDegenerateEdges(param, init) by {
        forall i, j | 0 <= i < |init| && NodeSelected(param, init[i].num) && 0 <= j < |init[i].edges|
          ensures init[i].edges[j].v0 != init[i].edges[j].v1
        {
          assert init[i] == elements[i];
        }
      }
      VtoVLoopless(adj, param, init);
      if NodeSelected(param, el.num) {
        forall j | 0 <= j < |el.edges|
          ensures el.edges[j].v0 != el.edges[j].v1
        {
          assert elements[|elements| - 1].edges[j] == el.edges[j];
        }
      }
      AddEdgesFacts(VtoV(adj, param, init), el.edges);
    }
  }

  /** Folding batches one after another into the same map, as the top level
      does across faces and element kinds, equals one pass over their concatenation. */
  lemma {:induction false} VtoVConcat(adj: AdjacencyMap, param: Param, a: seq<MeshElement>, b: seq<MeshElement>)
    ensures VtoV(VtoV(adj, param, a), param, b) == VtoV(adj, param, a + b)
  {
    if b != [] {
      assert (a + b)[..|a + b| - 1] == a + b[..|b| - 1];
      VtoVConcat(adj, param, a, b[..|b| - 1]);
    } else {
      assert a + b == a;
    }
  }

  /** The filter as a whole: the result is that of processing, with no filter,
      exactly the elements whose numbers the Node-mode filter selects. */
  lemma {:induction false} VtoVFiltered(adj: AdjacencyMap, param: Param, elements: seq<MeshElement>)
    ensures VtoV(adj, param, elements) == VtoV(adj, param.(only := false), NodeSelection(param, elements))
  {
    if elements != [] {
      var init, el := elements[..|elements| - 1], elements[|elements| - 1];
      VtoVFiltered(adj, param, init);
      var sel := NodeSelection(param, init);
      if NodeSelected(param, el.num) {
        assert NodeSelection(param, elements) == sel + [el];
        assert (sel + [el])[..|sel|] == sel;
      } else {
        assert NodeSelection(param, elements) == sel;
      }
    }
  }
}
