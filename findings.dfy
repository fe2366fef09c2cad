/**
 * Small registries on which `handleSetCollections` as written loses track of a node, each
 * next to what the reconciliation in `Placement` does on the same input.
 */
module Findings {
  import opened Wrappers
  import opened CollectionTree
  import opened HandleRegistry
  import opened SetCollections
  import opened Placement

  /** Root collection "a" (handle 1) with one folder "b" (handle 2). */
  function NestedRegistry(): Registry
  {
    Registry(3, map[1 := Entry(None, 0), 2 := Entry(Some(1), 0)], map[])
  }

  function NestedTree(): seq<Collection>
  {
    [Collection("a", "A", [Collection("b", "B", [], [])], [])]
  }

  /**
   * Keyed as written, the folder's handle 2 is filed under the ref id of its parent "a" and
   * overwrites handle 1; "b" is not keyed at all.
   */
  lemma NestedKeyedToParent()
    ensures CollectionRefsAsWrittenFrom(NestedRegistry(), NestedTree(), 1, map[]).refs == map["a" := 2]
  {
    var r, prev := NestedRegistry(), NestedTree();
    var a := prev[0];
    assert Walk(r.colls, None, {}) == Chain([], [], Root);
    assert Walk(r.colls, Some(1), {}) == Chain([1], [0], Root);
    assert Pruned(r.colls, Chain([], [], Root)) == r.colls;
    assert Pruned(r.colls, Chain([1], [0], Root)) == r.colls;
    assert Reverse([0]) == [0];
    assert Navigate(prev, [0]) == Some(a);
    assert CollectionRefsAsWrittenFrom(r, prev, 2, map["a" := 1]) == CollectionRefsAsWrittenFrom(r, prev, 3, map["a" := 2]);
    assert CollectionRefsAsWrittenFrom(r, prev, 1, map[]) == CollectionRefsAsWrittenFrom(r, prev, 2, map["a" := 1]);
  }

  /** Keyed by its own path, each handle of the same registry goes to its own node. */
  lemma NestedKeyedToOwnNode()
    ensures CollectionRefsFrom(NestedRegistry(), NestedTree(), 1, map[]).refs == map["a" := 1, "b" := 2]
  {
    var r, prev := NestedRegistry(), NestedTree();
    var target := CollectionRefsFrom(r, prev, 1, map[]);
    assert CollectionScanAt(r, prev, 1, map[], target);
    NestedPaths();
    CollectionScanKeys(r, prev, 1, map[], target, "a");
    CollectionScanKeys(r, prev, 2, map["a" := 1], target, "b");
    CollectionScanDone(r, prev, 3, map["a" := 1, "b" := 2], target);
  }

  /** In the nested registry, handle 1 resolves to root "a" and handle 2 to its folder "b". */
  lemma NestedPaths()
    ensures var c := Walk(NestedRegistry().colls, Some(1), {});
      c.end.Root? && Navigate(NestedTree(), Reverse(c.indices)) == Some(NestedTree()[0])
    ensures var c := Walk(NestedRegistry().colls, Some(2), {});
      c.end.Root? && Navigate(NestedTree(), Reverse(c.indices)) == Some(NestedTree()[0].folders[0])
  {
    var m, prev := NestedRegistry().colls, NestedTree();
    assert Walk(m, Some(1), {}) == Chain([1], [0], Root);
    assert Walk(m, Some(2), {}) == Chain([2, 1], [0, 0], Root) by {
      assert Walk(m, Some(1), {2}) == Chain([1], [0], Root);
    }
    assert Reverse([0]) == [0] && Reverse([0, 0]) == [0, 0];
    assert Navigate(prev, [0, 0]) == Some(prev[0].folders[0]) by {
      assert [0, 0][1..] == [0];
    }
  }

  /** One root collection "a" with handle 1. */
  function RootRegistry(): Registry
  {
    Registry(2, map[1 := Entry(None, 0)], map[])
  }

  /**
   * The collection pass as written re-registers a root collection under the handle that
   * `[0]` resolves to, here its own: the parent chain from handle 1 then comes back to 1,
   * and the resolvers' walk never ends. Placement leaves the root at `(null, 0)`.
   */
  lemma RootBecomesOwnParent()
    ensures CollectionPassAsWritten(RootRegistry(), [("a", [0])], map["a" := 1], 0)
         == Pass(Registry(2, map[1 := Entry(Some(1), 0)], map[]), false)
    ensures Walk(map[1 := Entry(Some(1), 0)], Some(1), {}).end.Cycle?
    ensures PlaceForest(Placed(RootRegistry(), map[], map[]), map["a" := 1], map[], [Collection("a", "A", [], [])], None, 0).r
         == RootRegistry()
  {
    var r := RootRegistry();
    assert ParentPath([0]) == [0] by {
      assert [0][..0] == [];
    }
    assert ResolveFolderPath(r.colls, [0], r.ticker) == Some(1) by {
      assert [0][..0] == [];
    }
    var m := map[1 := Entry(Some(1), 0)];
    assert Walk(m, Some(1), {1}) == Chain([], [], Cycle);
  }

  /** Root collections "a" (handle 1, holding request "q", handle 3) and "b" (handle 2). */
  function SwapRegistry(): Registry
  {
    Registry(4, map[1 := Entry(None, 0), 2 := Entry(None, 1)], map[3 := Entry(Some(1), 0)])
  }

  /**
   * After the two roots swap places, "q" sits at `[1, 0]`, under "a". The request pass runs
   * first and resolves `[1]` in the collection map not yet updated, which still has "b" there,
   * so "q" is re-registered under "b"'s handle 2. Placement registers it under "a"'s handle 1.
   */
  lemma RequestFiledUnderOldOccupant()
    ensures RequestPassAsWritten(SwapRegistry(), [("q", [1, 0])], map["q" := 3], 0).r.reqs[3] == Entry(Some(2), 0)
    ensures var state := [Collection("b", "B", [], []), Collection("a", "A", [], [Request("q", "Q", "GET")])];
      PlaceForest(Placed(SwapRegistry(), map[], map[]), map["a" := 1, "b" := 2], map["q" := 3], state, None, 0).r.reqs[3]
        == Entry(Some(1), 0)
  {
    var r := SwapRegistry();
    assert ParentPath([1, 0]) == [1] by {
      assert [1, 0][..1] == [1];
    }
    assert ResolveFolderPath(r.colls, [1], r.ticker) == Some(2) by {
      assert [1][..0] == [];
    }
  }
}
