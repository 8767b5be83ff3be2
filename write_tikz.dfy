/** The top level of the drawing pass, without the text output: the mode picks
    one builder, and that builder is called again and again on one table that
    starts empty: for a 2D model, face by face, on its triangles, then its
    quadrangles, then its polygons; for a 1D model, curve by curve, on its lines. */
module WriteTikz {
  import opened Mesh
  import opened ElementFilter
  import opened Adjacency
  import opened Outline

  /** A face of a 2D model and its elements by kind. */
  datatype Face = Face(triangles: seq<MeshElement>, quadrangles: seq<MeshElement>, polygons: seq<MeshElement>)

  /** A curve of a 1D model and its line elements. */
  datatype Curve = Curve(lines: seq<MeshElement>)

  /** A loaded model: its dimension, its faces and its curves. */
  datatype MeshModel = MeshModel(dim: int, faces: seq<Face>, curves: seq<Curve>)

  /** The table the pass builds, one variant per mode. */
  datatype Graph = NodeGraph(adjacency: AdjacencyMap) | ElementGraph(outlines: OutlineMap)

  /** The elements of the faces in the order the pass visits them. */
  function FaceElements(faces: seq<Face>): seq<MeshElement>
  {
    if faces == [] then []
    else
      var f := faces[|faces| - 1];
      FaceElements(faces[..|faces| - 1]) + f.triangles + f.quadrangles + f.polygons
  }

  /** The elements of the curves in the order the pass visits them. */
  function CurveElements(curves: seq<Curve>): seq<MeshElement>
  {
    if curves == [] then [] else CurveElements(curves[..|curves| - 1]) + curves[|curves| - 1].lines
  }

  /** Every element the pass hands to a builder: none for a model that is neither 2D nor 1D. */
  function ModelElements(model: MeshModel): seq<MeshElement> {
    if model.dim == 2 then FaceElements(model.faces)
    else if model.dim == 1 then CurveElements(model.curves)
    else []
  }

  /** Node mode: the builder called once per element kind and face (or per
      curve) on one map equals one pass over all the model's elements. */
  method BuildAdjacency(model: MeshModel, param: Param) returns (adj: AdjacencyMap)
    ensures adj == VtoV(map[], param, ModelElements(model))
  {
    adj := map[];
    if model.dim == 2 {
      for f := 0 to |model.faces|
        invariant adj == VtoV(map[], param, FaceElements(model.faces[..f]))
      {
        var face := model.faces[f];
        ghost var done := FaceElements(model.faces[..f]);
        assert model.faces[..f + 1][..f] == model.faces[..f];
        adj := FillVtoV(adj, param, face.triangles);
        VtoVConcat(map[], param, done, face.triangles);
        adj := FillVtoV(adj, param, face.quadrangles);
        VtoVConcat(map[], param, done + face.triangles, face.quadrangles);
        adj := FillVtoV(adj, param, face.polygons);
        VtoVConcat(map[], param, done + face.triangles + face.quadrangles, face.polygons);
      }
      assert model.faces[..|model.faces|] == model.faces;
    } else if model.dim == 1 {
      for c := 0 to |model.curves|
        invariant adj == VtoV(map[], param, CurveElements(model.curves[..c]))
      {
        var curve := model.curves[c];
        assert model.curves[..c + 1][..c] == model.curves[..c];
        adj := FillVtoV(adj, param, curve.lines);
        VtoVConcat(map[], param, CurveElements(model.curves[..c]), curve.lines);
      }
      assert model.curves[..|model.curves|] == model.curves;
    }
  }

  /** Element mode: the same batch structure for the outline table. */
  method BuildOutlines(model: MeshModel, param: Param) returns (outlines: OutlineMap)
    ensures outlines == EtoV(map[], param, ModelElements(model))
  {
    outlines := map[];
    if model.dim == 2 {
      for f := 0 to |model.faces|
        invariant outlines == EtoV(map[], param, FaceElements(model.faces[..f]))
      {
        var face := model.faces[f];
        ghost var done := FaceElements(model.faces[..f]);
        assert model.faces[..f + 1][..f] == model.faces[..f];
        outlines := FillEtoV(outlines, param, face.triangles);
        EtoVConcat(map[], param, done, face.triangles);
        outlines := FillEtoV(outlines, param, face.quadrangles);
        EtoVConcat(map[], param, done + face.triangles, face.quadrangles);
        outlines := FillEtoV(outlines, param, face.polygons);
        EtoVConcat(map[], param, done + face.triangles + face.quadrangles, face.polygons);
      }
      assert model.faces[..|model.faces|] == model.faces;
    } else if model.dim == 1 {
      for c := 0 to |model.curves|
        invariant outlines == EtoV(map[], param, CurveElements(model.curves[..c]))
      {
        var curve := model.curves[c];
        assert model.curves[..c + 1][..c] == model.curves[..c];
        outlines := FillEtoV(outlines, param, curve.lines);
        EtoVConcat(map[], param, CurveElements(model.curves[..c]), curve.lines);
      }
      assert model.curves[..|model.curves|] == model.curves;
    }
  }

  /** The pass: dispatch once on the mode and build that mode's table. */
  method BuildGraph(model: MeshModel, param: Param) returns (g: Graph)
    ensures param.graph == Node ==> g == NodeGraph(VtoV(map[], param, ModelElements(model)))
    ensures param.graph == Element ==> g == ElementGraph(EtoV(map[], param, ModelElements(model)))
  {
    if param.graph == Node {
      var adj := BuildAdjacency(model, param);
      g := NodeGraph(adj);
    } else {
      var outlines := BuildOutlines(model, param);
      g := ElementGraph(outlines);
    }
  }

  /** The adjacency graph of a model, as the Node-mode pass builds it: every
      edge of every selected element is recorded exactly once, under its
      lower-numbered endpoint; no entry comes from anywhere else; and when no
      selected element has a degenerate edge, no vertex is its own neighbour. */
  lemma NodeGraphProperties(model: MeshModel, param: Param)
    ensures var adj, els := VtoV(map[], param, ModelElements(model)), ModelElements(model);
      && NoDuplicates(adj)
      && Canonical(adj)
      && (forall i, j :: 0 <= i < |els| && NodeSelected(param, els[i].num) && 0 <= j < |els[i].edges| ==>
            Records(adj, els[i].edges[j]))
      && (forall v, n :: HasEntry(adj, v, n) ==> Contributed(param, els, v, n))
      && (NoDegenerateEdges(param, els) ==> Loopless(adj))
  {
    var els := ModelElements(model);
    VtoVNoDuplicates(map[], param, els);
    VtoVCanonical(map[], param, els);
    VtoVComplete(map[], param, els);
    VtoVSound(map[], param, els);
    if NoDegenerateEdges(param, els) {
      VtoVLoopless(map[], param, els);
    }
  }

  /** A shared edge is drawn once: in a duplicate-free canonical map, an edge
      between a and b with a < b appears exactly once under a and never under b. */
  lemma SharedEdgeOnce(adj: AdjacencyMap, a: int, b: int)
    requires NoDuplicates(adj) && Canonical(adj)
    requires a < b && HasEntry(adj, a, b)
    ensures multiset(adj[a])[b] == 1
    ensures !HasEntry(adj, b, a)
  {
    var s := adj[a];
    var i :| 0 <= i < |s| && s[i] == b;
    assert s == s[..i] + [b] + s[i + 1..];
    assert b !in s[..i] by {
      forall k | 0 <= k < i
        ensures s[..i][k] != b
      {
        assert s[k] != s[i];
      }
    }
    assert b !in s[i + 1..] by {
      forall k | i + 1 <= k < |s|
        ensures s[k] != b
      {
        assert s[k] != s[i];
      }
    }
    assert multiset(s) == multiset(s[..i]) + multiset{b} + multiset(s[i + 1..]);
  }

  /** In the graph the Node-mode pass builds, each non-degenerate edge of a
      selected element is listed exactly once under its lower-numbered
      endpoint and never under the other one. */
  lemma SharedEdgeOnceInGraph(model: MeshModel, param: Param, i: int, j: int)
    requires 0 <= i < |ModelElements(model)| && NodeSelected(param, ModelElements(model)[i].num)
    requires 0 <= j < |ModelElements(model)[i].edges|
    requires ModelElements(model)[i].edges[j].v0 != ModelElements(model)[i].edges[j].v1
    ensures var adj, e := VtoV(map[], param, ModelElements(model)), ModelElements(model)[i].edges[j];
      && Key(e) in adj
      && multiset(adj[Key(e)])[Other(e)] == 1
      && !HasEntry(adj, Other(e), Key(e))
  {
    var adj, e := VtoV(map[], param, ModelElements(model)), ModelElements(model)[i].edges[j];
    NodeGraphProperties(model, param);
    assert Records(adj, e);
    SharedEdgeOnce(adj, Key(e), Other(e));
  }

  /** The outline table of a model, as the Element-mode pass builds it: its keys
      are exactly the elements the Element-mode filter keeps, each with its
      vertex list in winding order. */
  lemma ElementGraphProperties(model: MeshModel, param: Param)
    ensures var outlines, els := EtoV(map[], param, ModelElements(model)), ModelElements(model);
      && (forall el :: el in outlines <==> el in els && ElementSelected(param, el.num))
      && (forall el :: el in outlines ==> outlines[el] == el.vertices)
  {
    EtoVKeys(map[], param, ModelElements(model));
    EtoVValues(map[], param, ModelElements(model));
  }
}
