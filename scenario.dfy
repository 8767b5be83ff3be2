/** Two triangles T1 = (1, 2, 3) and T2 = (2, 4, 3) sharing the edge 2–3. */
module Scenario {
  import opened Mesh
  import opened Adjacency
  import opened Outline

  /** Node mode without a filter: five neighbour entries, the shared edge once. */
  method TwoTrianglesAdjacency() returns (adj: AdjacencyMap)
    ensures adj == map[1 := [2, 3], 2 := [3, 4], 3 := [4]]
  {
    var t1 := new MeshElement(1, [1, 2, 3], [Edge(1, 2), Edge(2, 3), Edge(3, 1)]);
    var t2 := new MeshElement(2, [2, 4, 3], [Edge(2, 4), Edge(4, 3), Edge(3, 2)]);
    var param := Param(Node, false, []);
    adj := FillVtoV(map[], param, [t1, t2]);
    var m1 := map[1 := [2, 3], 2 := [3]];
    assert AddEdges(map[], t1.edges) == m1 by {
      assert AddEdges(map[], [Edge(1, 2)]) == map[1 := [2]] by {
        assert [Edge(1, 2)][..0] == [];
        assert [] + [2] == [2];
      }
      assert AddEdges(map[], [Edge(1, 2), Edge(2, 3)]) == map[1 := [2], 2 := [3]] by {
        assert [Edge(1, 2), Edge(2, 3)][..1] == [Edge(1, 2)];
        assert [] + [3] == [3];
      }
      assert [2] + [3] == [2, 3];
      assert t1.edges[..2] == [Edge(1, 2), Edge(2, 3)];
    }
    assert AddEdges(m1, t2.edges) == map[1 := [2, 3], 2 := [3, 4], 3 := [4]] by {
      assert AddEdges(m1, [Edge(2, 4)]) == map[1 := [2, 3], 2 := [3, 4]] by {
        assert [Edge(2, 4)][..0] == [];
        assert [3] + [4] == [3, 4];
      }
      assert AddEdges(m1, [Edge(2, 4), Edge(4, 3)]) == map[1 := [2, 3], 2 := [3, 4], 3 := [4]] by {
        assert [Edge(2, 4), Edge(4, 3)][..1] == [Edge(2, 4)];
        assert [] + [4] == [4];
      }
      assert t2.edges[..2] == [Edge(2, 4), Edge(4, 3)];
    }
    assert VtoV(map[], param, [t1]) == m1 by {
      assert [t1][..0] == [];
    }
    assert [t1, t2][..1] == [t1];
  }

  /** Element mode with `only={2}`: the listed triangle is dropped, the other
      is stored with its winding order. */
  method TwoTrianglesOutlines() returns (outlines: OutlineMap)
    ensures |outlines| == 1
    ensures forall el :: el in outlines ==> el.num == 1 && outlines[el] == [1, 2, 3]
  {
    var t1 := new MeshElement(1, [1, 2, 3], [Edge(1, 2), Edge(2, 3), Edge(3, 1)]);
    var t2 := new MeshElement(2, [2, 4, 3], [Edge(2, 4), Edge(4, 3), Edge(3, 2)]);
    outlines := FillEtoV(map[], Param(Element, true, [2]), [t1, t2]);
    assert EtoV(map[], Param(Element, true, [2]), [t1]) == map[t1 := [1, 2, 3]] by {
      assert [t1][..0] == [];
    }
    assert [t1, t2][..1] == [t1];
    assert outlines == map[t1 := [1, 2, 3]];
  }
}
