/**
 * Small concrete stores that show how the engine behaves where the graph is
 * not a tree: shared descendants are visited once per path, deleted tags leave
 * dangling edges until `autoremove tags`, and `add tags` can close a cycle on
 * which the traversal never ends.
 */
module Scenarios {
  import opened Wrappers
  import opened Lists
  import opened OrderedMap
  import opened TagGraph
  import opened MainCommands
  import opened Autoremove
  import opened TagCommands
  import opened Queries

  /** A tag with the given child edges and no files. */
  function Parent(children: seq<string>): TagNode
    requires |children| <= 2
  {
    var vals := if |children| == 0 then map[]
      else if |children| == 1 then map[children[0] := children[0]]
      else map[children[0] := children[0], children[1] := children[1]];
    TagNode(Some(OMap(children, vals)), None, None)
  }

  /** The diamond a -> {b, c}, b -> d, c -> d. */
  function Diamond(): Tags {
    OMap(["a", "b", "c", "d"],
      map["a" := Parent(["b", "c"]), "b" := Parent(["d"]), "c" := Parent(["d"]), "d" := Blank])
  }

  /** Below b or c the walk meets d, which has no children. */
  lemma DiamondSide(path: string)
    ensures RecNestTag(Diamond(), Some(Parent(["d"])), path, 3) == [Visit("d", path)]
  {
    var root := Diamond();
    assert Lookup(root, "d") == Some(Blank);
    assert ["d"][1..] == [];
    assert RecNestTag(root, Some(Blank), path + "/" + "d", 2) == [];
    assert VisitChildren(root, [], path, 2) == [];
  }

  /** The walk from a: b, d below b, c, d below c. */
  lemma DiamondTraversal()
    ensures Traverse(Diamond(), Some(Parent(["b", "c"])), "a")
      == [Visit("b", "a"), Visit("d", "a/b"), Visit("c", "a"), Visit("d", "a/c")]
  {
    var root := Diamond();
    assert Lookup(root, "b") == Some(Parent(["d"]));
    assert Lookup(root, "c") == Some(Parent(["d"]));
    assert "a" + "/" + "b" == "a/b" && "a" + "/" + "c" == "a/c";
    DiamondSide("a/b");
    DiamondSide("a/c");
    assert ["b", "c"][1..] == ["c"] && ["c"][1..] == [];
    assert VisitChildren(root, [], "a", 3) == [];
    assert VisitChildren(root, ["c"], "a", 3) == [Visit("c", "a"), Visit("d", "a/c")];
    assert |root.keys| == 4;
    assert Traverse(root, Some(Parent(["b", "c"])), "a") == VisitChildren(root, ["b", "c"], "a", 3);
  }

  /**
   * The recursive `getChildTags` of `a` in the diamond lists `d` once below
   * `b` and once below `c`, since the traversal keeps no visited set.
   */
  lemma DiamondVisitsSharedTwice()
    ensures GetChildTags(Diamond(), None, "a", true) == Ok(["a/b", "a/b/d", "a/c", "a/c/d"])
  {
    var vs := [Visit("b", "a"), Visit("d", "a/b"), Visit("c", "a"), Visit("d", "a/c")];
    DiamondTraversal();
    assert Diamond().vals["a"] == Parent(["b", "c"]);
    assert "a" + "/" + "b" == "a/b" && "a" + "/" + "c" == "a/c";
    assert "a/b" + "/" + "d" == "a/b/d" && "a/c" + "/" + "d" == "a/c/d";
    assert VisitPaths(vs) == ["a/b", "a/b/d", "a/c", "a/c/d"];
  }

  /** A tag with the given files and no child edges. */
  function Holder(files: seq<string>): TagNode
    requires |files| == 3
  {
    TagNode(None, Some(OMap(files, map[files[0] := files[0], files[1] := files[1], files[2] := files[2]])), None)
  }

  /** The store of the AND example: x holds f1, f2, f3 and y holds f2, f3, f4. */
  function TwoHolders(): Tags {
    OMap(["x", "y"], map["x" := Holder(["f1", "f2", "f3"]), "y" := Holder(["f2", "f3", "f4"])])
  }

  lemma TwoHoldersLists()
    ensures FileLists(TwoHolders(), None, ["x", "y"], false) == Ok([["f1", "f2", "f3"], ["f2", "f3", "f4"]])
  {
    var root := TwoHolders();
    var lx, ly := ["f1", "f2", "f3"], ["f2", "f3", "f4"];
    assert GetFiles(root, None, "x", false) == Ok(lx);
    assert GetFiles(root, None, "y", false) == Ok(ly);
    assert ["x", "y"][..1] == ["x"] && ["x"][..0] == [];
    assert FileLists(root, None, [], false) == Ok([]);
    assert FileLists(root, None, ["x"], false) == Ok([] + [lx]);
    assert [] + [lx] == [lx];
    assert FileLists(root, None, ["x", "y"], false) == Ok([lx] + [ly]);
    assert [lx] + [ly] == [lx, ly];
  }

  /** The AND of x = [f1, f2, f3] and y = [f2, f3, f4] is [f2, f3], in x's order. */
  lemma AndOfTwoTags()
    ensures FilesAND(TwoHolders(), None, ["x", "y"], false) == Ok(["f2", "f3"])
  {
    var lx, ly := ["f1", "f2", "f3"], ["f2", "f3", "f4"];
    TwoHoldersLists();
    assert [lx, ly][1..] == [ly];
    AndOfTwoLists();
  }

  lemma AndOfTwoLists()
    ensures Unique(AndAll(["f1", "f2", "f3"], [["f2", "f3", "f4"]])) == ["f2", "f3"]
  {
    var lx, ly := ["f1", "f2", "f3"], ["f2", "f3", "f4"];
    assert [ly][..0] == [];
    assert AndAll(lx, [ly]) == And(lx, ly);
    assert lx[..2] == ["f1", "f2"] && lx[..2][..1] == ["f1"] && ["f1"][..0] == [];
    assert "f1" !in ly && "f2" in ly && "f3" in ly;
    assert And(lx, ly) == ["f2", "f3"];
    assert ["f2", "f3"][..1] == ["f2"] && ["f2"][..0] == [];
    assert Unique(["f2", "f3"]) == ["f2", "f3"];
  }

  /**
   * `delete` leaves the edge a -> b behind after b is gone; `info` then
   * reports b as a broken link of a, and `autoremove tags` removes the edge.
   */
  lemma DeletedChildIsReported()
    ensures var root := OMap(["a", "b"], map["a" := Parent(["b"]), "b" := Blank]);
      var after := DeleteAll(root, ["b"]);
      && "a" in after.vals && after.vals["a"] == Parent(["b"])
      && AutoremovableTagsOf(after, None, "a", false) == Ok(["b"])
      && "a" in PruneAll(after, Targets(after, ["a"]), ChildTags, InSet(after.vals.Keys)).vals
      && PruneAll(after, Targets(after, ["a"]), ChildTags, InSet(after.vals.Keys)).vals["a"].tags == Some(Empty())
  {
    var root := OMap(["a", "b"], map["a" := Parent(["b"]), "b" := Blank]);
    assert ["b"][..0] == [];
    var after := DeleteAll(root, ["b"]);
    assert DeleteAll(root, []) == root;
    assert root.Has("b");
    assert after == root.Remove("b");
    assert Except(["a", "b"], {"b"}) == ["a"] by {
      assert ["a", "b"][..1] == ["a"] && ["a"][..0] == [];
    }
    assert after.vals == map["a" := Parent(["b"])];
    assert GetChildTags(after, None, "a", false) == Ok(["b"]);
    assert Unresolved(after, None, ["b"]) == ["b"];
    var keep := InSet(after.vals.Keys);
    var cm := OMap(["b"], map["b" := "b"]);
    assert !keep("b");
    assert Prune(cm, ["b"], keep) == cm.Remove("b");
    assert Except(["b"], {"b"}) == [];
    assert cm.Remove("b") == Empty();
    assert ["a"][..0] == [];
    assert PruneAll(after, ["a"], ChildTags, keep) == after.Set("a", PruneNode(Parent(["b"]), ChildTags, keep));
  }

  /** `add tags src dst` on a source without children gives it the one child `dst` and saves. */
  lemma AddOneTag(m: Tags, src: string, dst: string)
    requires src != dst && src in m.vals && dst in m.vals && m.vals[src] == Parent([])
    ensures AddTagsSaves(m, [src, dst])
    ensures AddTags(m, [src, dst]) == m.Set(src, Parent([dst]))
  {
    assert [src, dst][1..] == [dst] && [dst][..0] == [];
    assert BeforeSelf(src, [dst]) == [dst];
    var e: OMap<string> := OMap([], map[]);
    assert AddEdges(e, m, []) == e;
    assert AddEdges(e, m, [dst]) == OMap([dst], map[dst := dst]);
  }

  /**
   * `add tags` only refuses a self-edge: after `add tags a b` and
   * `add tags b a`, both saved, a and b are children of each other.
   */
  lemma AddTagsMakesTwoCycle()
    ensures var root := OMap(["a", "b"], map["a" := Parent([]), "b" := Parent([])]);
      var one := AddTags(root, ["a", "b"]);
      var two := AddTags(one, ["b", "a"]);
      && AddTagsSaves(root, ["a", "b"]) && AddTagsSaves(one, ["b", "a"])
      && "a" in two.vals && "b" in two.vals
      && two.vals["a"] == Parent(["b"]) && two.vals["b"] == Parent(["a"])
  {
    var root := OMap(["a", "b"], map["a" := Parent([]), "b" := Parent([])]);
    AddOneTag(root, "a", "b");
    var one := root.Set("a", Parent(["b"]));
    AddOneTag(one, "b", "a");
  }

  /** The two-tag cycle a <-> b. */
  function Cycle(): Tags {
    OMap(["a", "b"], map["a" := Parent(["b"]), "b" := Parent(["a"])])
  }

  /**
   * On the cycle a <-> b the traversal visits one tag per level for as long as
   * it is allowed to go: every depth bound is reached, so the unbounded
   * recursion of the source never returns.
   */
  lemma {:induction false} CycleTraversalGrowsWithFuel(t: string, path: string, fuel: nat)
    requires t == "a" || t == "b"
    ensures |RecNestTag(Cycle(), Lookup(Cycle(), t), path, fuel)| == fuel
    decreases fuel
  {
    if fuel > 0 {
      var other := if t == "a" then "b" else "a";
      var root := Cycle();
      assert Lookup(root, t) == Some(Parent([other]));
      assert [other][1..] == [];
      CycleTraversalGrowsWithFuel(other, path + "/" + other, fuel - 1);
      assert RecNestTag(root, Lookup(root, t), path, fuel)
        == [Visit(other, path)] + RecNestTag(root, Lookup(root, other), path + "/" + other, fuel - 1)
           + VisitChildren(root, [], path, fuel - 1);
    }
  }
}
