/** The Element-mode builder: for each selected element, a copy of its vertex
    list in winding order, stored under the element itself. An element already
    in the table keeps its entry (insertion never overwrites). */
module Outline {
  import opened Mesh
  import opened ElementFilter

  /** Element to its vertex numbers in winding order. */
  type OutlineMap = map<MeshElement, seq<int>>

  /** One element: inserted with its vertex list if the Element-mode filter keeps it and it is not yet a key. */
  function AddOutline(outlines: OutlineMap, param: Param, el: MeshElement): OutlineMap {
    if ElementSelected(param, el.num) && el !in outlines then outlines[el := el.vertices] else outlines
  }

  /** A batch of elements, in order: the specification of FillEtoV. */
  function EtoV(outlines: OutlineMap, param: Param, elements: seq<MeshElement>): OutlineMap
  {
    if elements == [] then outlines
    else AddOutline(EtoV(outlines, param, elements[..|elements| - 1]), param, elements[|elements| - 1])
  }

  /** The builder, as the source writes it: skip the elements the filter drops,
      copy the vertex list one vertex at a time, insert without overwriting. */
  method FillEtoV(outlines0: OutlineMap, param: Param, elements: seq<MeshElement>) returns (outlines: OutlineMap)
    ensures outlines == EtoV(outlines0, param, elements)
  {
    outlines := outlines0;
    for i := 0 to |elements|
      invariant outlines == EtoV(outlines0, param, elements[..i])
    {
      var el := elements[i];
      assert elements[..i + 1][..i] == elements[..i];
      if param.only && el.num in param.onlyList {
        continue;
      }
      var vertices := [];
      for j := 0 to |el.vertices|
        invariant vertices == el.vertices[..j]
      {
        vertices := vertices + [el.vertices[j]];
      }
      assert vertices == el.vertices;
      if el !in outlines {
        outlines := outlines[el := vertices];
      }
    }
    assert elements[..|elements|] == elements;
  }

  /** The keys afterwards are the old keys plus exactly the elements the
      Element-mode filter keeps; a dropped element that was not a key is not one after. */
  lemma {:induction false} EtoVKeys(outlines: OutlineMap, param: Param, elements: seq<MeshElement>)
    ensures forall el :: el in EtoV(outlines, param, elements) <==>
              el in outlines || (el in elements && ElementSelected(param, el.num))
  {
    if elements != [] {
      var init := elements[..|elements| - 1];
      EtoVKeys(outlines, param, init);
      assert elements == init + [elements[|elements| - 1]];
    }
  }

  /** Outline preservation and no overwrite: an entry that was present keeps its
      value, and every new entry is exactly its element's vertex list in order. */
  lemma {:induction false} EtoVValues(outlines: OutlineMap, param: Param, elements: seq<MeshElement>)
    ensures forall el :: el in EtoV(outlines, param, elements) ==>
              EtoV(outlines, param, elements)[el] == if el in outlines then outlines[el] else el.vertices
  {
    if elements != [] {
      var mid := EtoV(outlines, param, elements[..|elements| - 1]);
      EtoVValues(outlines, param, elements[..|elements| - 1]);
      EtoVKeys(outlines, param, elements[..|elements| - 1]);
      var r := EtoV(outlines, param, elements);
      forall el | el in r
        ensures r[el] == if el in outlines then outlines[el] else el.vertices
      {
        if el in mid {
          assert r[el] == mid[el];
        }
      }
    }
  }

  /** Folding batches one after another equals one pass over their concatenation. */
  lemma {:induction false} EtoVConcat(outlines: OutlineMap, param: Param, a: seq<MeshElement>, b: seq<MeshElement>)
    ensures EtoV(EtoV(outlines, param, a), param, b) == EtoV(outlines, param, a + b)
  {
    if b != [] {
      assert (a + b)[..|a + b| - 1] == a + b[..|b| - 1];
      EtoVConcat(outlines, param, a, b[..|b| - 1]);
    } else {
      assert a + b == a;
    }
  }

  /** The filter as a whole: the result is that of processing, with no filter,
      exactly the elements the Element-mode filter keeps. */
  lemma {:induction false} EtoVFiltered(outlines: OutlineMap, param: Param, elements: seq<MeshElement>)
    ensures EtoV(outlines, param, elements) == EtoV(outlines, param.(only := false), ElementSelection(param, elements))
  {
    if elements != [] {
      var init, el := elements[..|elements| - 1], elements[|elements| - 1];
      EtoVFiltered(outlines, param, init);
      var sel := ElementSelection(param, init);
      if ElementSelected(param, el.num) {
        assert ElementSelection(param, elements) == sel + [el];
        assert (sel + [el])[..|sel|] == sel;
      } else {
        assert ElementSelection(param, elements) == sel;
      }
    }
  }
}
