/** The element-number filter, written inline in each builder. Its sense differs
    between the two: in Node mode the list names the elements to keep, in
    Element mode the elements to drop. */
module ElementFilter {
  import opened Mesh

  /** Node mode: with the filter on, an element takes part only if its number is listed. */
  predicate NodeSelected(param: Param, num: int) {
    !param.only || num in param.onlyList
  }

  /** Element mode: with the filter on, an element takes part only if its number is NOT listed. */
  predicate ElementSelected(param: Param, num: int) {
    !param.only || num !in param.onlyList
  }

  /** `r` lists the elements of `elements` at the strictly increasing positions `idx`. */
  ghost predicate InOrderAt(r: seq<MeshElement>, elements: seq<MeshElement>, idx: seq<nat>) {
    && |idx| == |r|
    && (forall k :: 0 <= k < |idx| ==> idx[k] < |elements| && r[k] == elements[idx[k]])
    && (forall k, l :: 0 <= k < l < |idx| ==> idx[k] < idx[l])
  }

  /** The positions, in increasing order, of the elements node mode selects. */
  ghost function NodeSelectedPositions(param: Param, elements: seq<MeshElement>): seq<nat>
  {
    if elements == [] then []
    else
      NodeSelectedPositions(param, elements[..|elements| - 1])
        + (if NodeSelected(param, elements[|elements| - 1].num) then [|elements| - 1] else [])
  }

  /** The positions, in increasing order, of the elements element mode keeps. */
  ghost function ElementSelectedPositions(param: Param, elements: seq<MeshElement>): seq<nat>
  {
    if elements == [] then []
    else
      ElementSelectedPositions(param, elements[..|elements| - 1])
        + (if ElementSelected(param, elements[|elements| - 1].num) then [|elements| - 1] else [])
  }

  /** The elements of a batch that the adjacency builder processes: the selected
      ones, every one of them, in their original order. */
  function NodeSelection(param: Param, elements: seq<MeshElement>): (r: seq<MeshElement>)
    ensures forall i :: 0 <= i < |r| ==> NodeSelected(param, r[i].num)
    ensures forall i :: 0 <= i < |elements| && NodeSelected(param, elements[i].num) ==> elements[i] in r
    ensures !param.only ==> r == elements
  {
    if elements == [] then []
    else
      var last := elements[|elements| - 1];
      NodeSelection(param, elements[..|elements| - 1]) + (if NodeSelected(param, last.num) then [last] else [])
  }

  /** The elements of a batch that the outline collector processes: the kept
      ones, every one of them, in their original order. */
  function ElementSelection(param: Param, elements: seq<MeshElement>): (r: seq<MeshElement>)
    ensures forall i :: 0 <= i < |r| ==> ElementSelected(param, r[i].num)
    ensures forall i :: 0 <= i < |elements| && ElementSelected(param, elements[i].num) ==> elements[i] in r
    ensures !param.only ==> r == elements
  {
    if elements == [] then []
    else
      var last := elements[|elements| - 1];
      ElementSelection(param, elements[..|elements| - 1]) + (if ElementSelected(param, last.num) then [last] else [])
  }

  /** Order preservation: node mode processes the selected elements in batch order. */
  lemma {:induction false} NodeSelectionInOrder(param: Param, elements: seq<MeshElement>)
    ensures InOrderAt(NodeSelection(param, elements), elements, NodeSelectedPositions(param, elements))
  {
    if elements != [] {
      var init := elements[..|elements| - 1];
      NodeSelectionInOrder(param, init);
      InOrderExtend(NodeSelection(param, init), elements, NodeSelectedPositions(param, init),
                    NodeSelected(param, elements[|elements| - 1].num));
    }
  }

  /** Order preservation: element mode processes the kept elements in batch order. */
  lemma {:induction false} ElementSelectionInOrder(param: Param, elements: seq<MeshElement>)
    ensures InOrderAt(ElementSelection(param, elements), elements, ElementSelectedPositions(param, elements))
  {
    if elements != [] {
      var init := elements[..|elements| - 1];
      ElementSelectionInOrder(param, init);
      InOrderExtend(ElementSelection(param, init), elements, ElementSelectedPositions(param, init),
                    ElementSelected(param, elements[|elements| - 1].num));
    }
  }

  /** The positions listed are exactly those of the elements node mode selects. */
  lemma {:induction false} NodePositionsExact(param: Param, elements: seq<MeshElement>)
    ensures forall p :: p in NodeSelectedPositions(param, elements) ==> p < |elements|
    ensures forall i :: 0 <= i < |elements| ==>
              (i in NodeSelectedPositions(param, elements) <==> NodeSelected(param, elements[i].num))
  {
    if elements != [] {
      var n := |elements|;
      var init := elements[..n - 1];
      NodePositionsExact(param, init);
      forall i | 0 <= i < n
        ensures i in NodeSelectedPositions(param, elements) <==> NodeSelected(param, elements[i].num)
      {
        if i < n - 1 {
          assert elements[i] == init[i];
        }
      }
    }
  }

  /** The positions listed are exactly those of the elements element mode keeps. */
  lemma {:induction false} ElementPositionsExact(param: Param, elements: seq<MeshElement>)
    ensures forall p :: p in ElementSelectedPositions(param, elements) ==> p < |elements|
    ensures forall i :: 0 <= i < |elements| ==>
              (i in ElementSelectedPositions(param, elements) <==> ElementSelected(param, elements[i].num))
  {
    if elements != [] {
      var n := |elements|;
      var init := elements[..n - 1];
      ElementPositionsExact(param, init);
      forall i | 0 <= i < n
        ensures i in ElementSelectedPositions(param, elements) <==> ElementSelected(param, elements[i].num)
      {
        if i < n - 1 {
          assert elements[i] == init[i];
        }
      }
    }
  }

  /** Keeping or dropping one more element at the end keeps the selection in order. */
  lemma InOrderExtend(r: seq<MeshElement>, elements: seq<MeshElement>, idx: seq<nat>, keep: bool)
    requires |elements| >= 1 && InOrderAt(r, elements[..|elements| - 1], idx)
    ensures var n := |elements|;
      InOrderAt(r + (if keep then [elements[n - 1]] else []), elements, idx + (if keep then [n - 1] else []))
  {
    var n := |elements|;
    forall k | 0 <= k < |idx|
      ensures idx[k] < n - 1 && r[k] == elements[idx[k]]
    {
      assert r[k] == elements[..n - 1][idx[k]];
    }
  }

  /** With the filter on, the two modes select complementary sets of elements;
      with it off, both select every element. */
  lemma FilterAsymmetry(param: Param, num: int)
    ensures param.only ==> (NodeSelected(param, num) <==> !ElementSelected(param, num))
    ensures !param.only ==> NodeSelected(param, num) && ElementSelected(param, num)
  {
  }
}
