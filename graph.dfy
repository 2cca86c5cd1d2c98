/**
 * The tag graph: the store `root.tags` (tag name -> TagNode), the optional
 * `root.current`, and the read-only operations on them from main.go and
 * struct.go — name resolution, path walking and the pre-order traversal that
 * the recursive queries are built on.
 */
module TagGraph {
  import opened Wrappers
  import opened Lists
  import opened OrderedMap
  import opened PathStrings

  /**
   * One tag.  `tags` maps a child tag name to itself, `files` maps an absolute
   * path to the path as the user typed it; either map may be missing, which
   * the source tells apart from an empty one (`HasChild`).
   */
  datatype TagNode = TagNode(tags: Option<OMap<string>>, files: Option<OMap<string>>, comment: Option<string>)

  /** The store `root.tags`. */
  type Tags = OMap<TagNode>

  datatype Error =
    | NoCurrentTag        // "." used while `root.current` is unset
    | NoSuchTag(name: string)
    | TagNotExists        // nestTag: a segment is not reachable
    | NothingFound        // getFilesAND with no tags

  /** The node that `MakeMap()` creates: an empty map, with no `tags`, `files` or `comment`. */
  const Blank := TagNode(None, None, None)

  ghost predicate ValidNode(n: TagNode) {
    && (n.tags.Some? ==> n.tags.value.Valid())
    && (n.files.Some? ==> n.files.value.Valid())
  }

  ghost predicate ValidTags(root: Tags) {
    root.Valid() && forall k :: k in root.vals ==> ValidNode(root.vals[k])
  }

  /** `Child("tags").Keys()`, empty when there is no `tags` map. */
  function ChildKeys(n: TagNode): seq<string> {
    if n.tags.Some? then n.tags.value.keys else []
  }

  /** `Child("files").Keys()`, empty when there is no `files` map. */
  function FileKeys(n: TagNode): seq<string> {
    if n.files.Some? then n.files.value.keys else []
  }

  /** `rootTags.Child(name)`, which may not exist. */
  function Lookup(root: Tags, name: string): Option<TagNode> {
    if name in root.vals then Some(root.vals[name]) else None
  }

  // ------------------------------------------------------------ name resolution

  /** main.go `parseTagName`: "." stands for the current tag; every other name is itself. */
  function ParseTagName(current: Option<string>, s: string): (r: Result<string, Error>)
    ensures s != "." ==> r == Ok(s)
    ensures s == "." ==> (r.Ok? <==> current.Some?)
    ensures s == "." && current.Some? ==> r == Ok(current.value)
    ensures s == "." && current.None? ==> r == Err(NoCurrentTag)
  {
    if s == "." then
      if current.None? then Err(NoCurrentTag) else Ok(current.value)
    else Ok(s)
  }

  /**
   * struct.go `getTag`, answering with the name of the tag it reached (the
   * node is `root.vals` at that name).  Nothing is modified.
   */
  function GetTag(root: Tags, current: Option<string>, tag: string): (r: Result<string, Error>)
    ensures r.Ok? ==> r.value in root.vals
    ensures tag != "." ==> (r.Ok? <==> tag in root.vals) && (r.Ok? ==> r.value == tag)
    ensures tag == "." ==> (r.Ok? <==> current.Some? && current.value in root.vals)
    ensures tag == "." && r.Ok? ==> r.value == current.value
    ensures tag == "." && current.None? ==> r == Err(NoCurrentTag)
  {
    var name := if tag == "." then current else Some(tag);
    if name.None? then Err(NoCurrentTag)
    else if name.value in root.vals then Ok(name.value)
    else Err(NoSuchTag(name.value))
  }

  /** The two resolvers agree: `getTag` is `parseTagName` followed by a lookup in the store. */
  lemma GetTagIsParseThenLookup(root: Tags, current: Option<string>, tag: string)
    ensures GetTag(root, current, tag).Ok? <==>
      ParseTagName(current, tag).Ok? && ParseTagName(current, tag).value in root.vals
    ensures GetTag(root, current, tag).Ok? ==> GetTag(root, current, tag) == ParseTagName(current, tag)
    ensures ParseTagName(current, tag).Err? ==> GetTag(root, current, tag) == ParseTagName(current, tag)
  {
  }

  // ------------------------------------------------------------------ traversal

  /** One call of the `recNestTag` callback: the child's name and the path it was reached by. */
  datatype Visit = Visit(name: string, path: string)

  /**
   * main.go `recNestTag`: for each key of the node's `tags` map, in key order,
   * one visit with the current path, then the same walk below that child (looked
   * up in the store by its key) with path + "/" + key.  There is no visited set;
   * `fuel` bounds the depth, since the source does not terminate on a cycle.
   */
  function RecNestTag(root: Tags, node: Option<TagNode>, path: string, fuel: nat): (r: seq<Visit>)
    ensures fuel > 0 && node.Some? && node.value.tags.Some? ==>
      forall k :: k in node.value.tags.value.keys ==> Visit(k, path) in r
    decreases fuel, 0
  {
    if fuel == 0 || node.None? || node.value.tags.None? then []
    else VisitChildren(root, node.value.tags.value.keys, path, fuel - 1)
  }

  /** The visits below one node: each child in key order, then everything below it. */
  function VisitChildren(root: Tags, ks: seq<string>, path: string, fuel: nat): (r: seq<Visit>)
    ensures forall k :: k in ks ==> Visit(k, path) in r
    decreases fuel, 1, |ks|
  {
    if ks == [] then []
    else
      [Visit(ks[0], path)]
      + RecNestTag(root, Lookup(root, ks[0]), path + "/" + ks[0], fuel)
      + VisitChildren(root, ks[1..], path, fuel)
  }

  /** The traversal the queries run: depth bounded by the number of tags in the store. */
  function Traverse(root: Tags, node: Option<TagNode>, path: string): seq<Visit>
  {
    RecNestTag(root, node, path, |root.keys|)
  }

  /** Every visit's path extends the starting path. */
  lemma {:induction false} VisitPathsExtend(root: Tags, node: Option<TagNode>, path: string, fuel: nat)
    ensures forall v :: v in RecNestTag(root, node, path, fuel) ==> path <= v.path
    decreases fuel, 0
  {
    if fuel > 0 && node.Some? && node.value.tags.Some? {
      ChildPathsExtend(root, node.value.tags.value.keys, path, fuel - 1);
    }
  }

  lemma {:induction false} ChildPathsExtend(root: Tags, ks: seq<string>, path: string, fuel: nat)
    ensures forall v :: v in VisitChildren(root, ks, path, fuel) ==> path <= v.path
    decreases fuel, 1, |ks|
  {
    if ks != [] {
      var sub := path + "/" + ks[0];
      VisitPathsExtend(root, Lookup(root, ks[0]), sub, fuel);
      ChildPathsExtend(root, ks[1..], path, fuel);
      forall v | v in RecNestTag(root, Lookup(root, ks[0]), sub, fuel) ensures path <= v.path {
        assert path <= sub <= v.path;
      }
    }
  }

  /**
   * An acyclic store, witnessed by a rank on tags that strictly decreases along
   * every edge to an existing tag.
   */
  ghost predicate Ranked(root: Tags, rank: map<string, nat>) {
    && (forall t :: t in root.vals ==> t in rank)
    && (forall t, c :: t in root.vals && c in root.vals && c in ChildKeys(root.vals[t]) ==> rank[c] < rank[t])
  }

  /** On a ranked store, fuel above a tag's rank never runs out below it. */
  lemma {:induction false} FuelSaturates(root: Tags, rank: map<string, nat>, t: string, path: string, f1: nat, f2: nat)
    requires Ranked(root, rank) && t in root.vals
    requires rank[t] < f1 && rank[t] < f2
    ensures RecNestTag(root, Lookup(root, t), path, f1) == RecNestTag(root, Lookup(root, t), path, f2)
    decreases f1 + f2, 0
  {
    var n := root.vals[t];
    if n.tags.Some? {
      ChildrenFuelSaturates(root, rank, t, n.tags.value.keys, path, f1 - 1, f2 - 1);
    }
  }

  lemma {:induction false} ChildrenFuelSaturates(root: Tags, rank: map<string, nat>, t: string, ks: seq<string>, path: string, f1: nat, f2: nat)
    requires Ranked(root, rank) && t in root.vals
    requires forall k :: k in ks ==> k in ChildKeys(root.vals[t])
    requires rank[t] <= f1 && rank[t] <= f2
    ensures VisitChildren(root, ks, path, f1) == VisitChildren(root, ks, path, f2)
    decreases f1 + f2, 1, |ks|
  {
    if ks != [] {
      var k := ks[0];
      if k in root.vals {
        assert rank[k] < rank[t];
        FuelSaturates(root, rank, k, path + "/" + k, f1, f2);
      }
      ChildrenFuelSaturates(root, rank, t, ks[1..], path, f1, f2);
    }
  }

  /** A proper subset of a finite set is smaller. */
  lemma {:induction false} ProperSubsetSmaller(a: set<string>, b: set<string>)
    requires a < b
    ensures |a| < |b|
    decreases |a|
  {
    if a == {} {
      var x :| x in b;
      assert |b| > 0;
    } else {
      var x :| x in a;
      var y :| y in b && y !in a;
      assert y in b - {x} && y !in a - {x};
      ProperSubsetSmaller(a - {x}, b - {x});
    }
  }

  /** A sequence has at least as many elements as it has distinct values. */
  lemma {:induction false} SeqSetCard(s: seq<string>)
    ensures |set x | x in s| <= |s|
  {
    if s != [] {
      var front := s[..|s| - 1];
      SeqSetCard(front);
      assert (set x | x in s) == (set x | x in front) + {s[|s| - 1]};
    }
  }

  /** The rank that counts the tags ranked strictly lower than each tag. */
  ghost function CompactRank(root: Tags, rank: map<string, nat>): map<string, nat>
    requires forall t :: t in root.vals ==> t in rank
  {
    map t | t in root.vals :: |set k | k in root.vals && rank[k] < rank[t]|
  }

  /**
   * Pigeonhole: an acyclic store has a rank below the number of tags, since
   * counting the lower-ranked tags still falls along every edge and never
   * counts the tag itself.
   */
  lemma CompactRanked(root: Tags, rank: map<string, nat>)
    requires root.Valid() && Ranked(root, rank)
    ensures Ranked(root, CompactRank(root, rank))
    ensures forall t :: t in root.vals ==> CompactRank(root, rank)[t] < |root.keys|
  {
    var r := CompactRank(root, rank);
    assert root.vals.Keys == set x | x in root.keys;
    SeqSetCard(root.keys);
    forall t | t in root.vals
      ensures r[t] < |root.keys|
    {
      var below := set k | k in root.vals && rank[k] < rank[t];
      assert t !in below && below <= root.vals.Keys;
      ProperSubsetSmaller(below, root.vals.Keys);
    }
    forall t, c | t in root.vals && c in root.vals && c in ChildKeys(root.vals[t])
      ensures r[c] < r[t]
    {
      var bc := set k | k in root.vals && rank[k] < rank[c];
      var bt := set k | k in root.vals && rank[k] < rank[t];
      assert c in bt && c !in bc && bc <= bt;
      ProperSubsetSmaller(bc, bt);
    }
  }

  /**
   * The depth bound of `Traverse` is never reached on an acyclic store: any
   * larger fuel yields the same visits, so `Traverse` is what the unbounded
   * recursion of the source computes.
   */
  lemma TraverseIsComplete(root: Tags, rank: map<string, nat>, t: string, path: string, fuel: nat)
    requires root.Valid() && Ranked(root, rank) && t in root.vals
    requires fuel >= |root.keys|
    ensures Traverse(root, Lookup(root, t), path) == RecNestTag(root, Lookup(root, t), path, fuel)
  {
    CompactRanked(root, rank);
    FuelSaturates(root, CompactRank(root, rank), t, path, |root.keys|, fuel);
  }

  /**
   * A walk along child edges: every tag but the last exists and lists the next
   * one among its children (the last may name a tag that no longer exists).
   */
  ghost predicate Chain(root: Tags, xs: seq<string>) {
    && |xs| >= 2
    && forall i :: 0 <= i < |xs| - 1 ==> xs[i] in root.vals && xs[i + 1] in ChildKeys(root.vals[xs[i]])
  }

  /** `c` can be reached from `t` through one or more child edges. */
  ghost predicate Reachable(root: Tags, t: string, c: string) {
    exists xs :: Chain(root, xs) && xs[0] == t && xs[|xs| - 1] == c
  }

  /** A single child edge is a walk. */
  lemma EdgeChain(root: Tags, t: string, k: string)
    requires t in root.vals && k in ChildKeys(root.vals[t])
    ensures Chain(root, [t, k])
  {
  }

  /** A walk that starts with one more edge. */
  lemma ChainCons(root: Tags, t: string, ys: seq<string>)
    requires Chain(root, ys) && t in root.vals && ys[0] in ChildKeys(root.vals[t])
    ensures Chain(root, [t] + ys)
  {
    var xs := [t] + ys;
    forall i | 0 <= i < |xs| - 1
      ensures xs[i] in root.vals && xs[i + 1] in ChildKeys(root.vals[xs[i]])
    {
      if i > 0 {
        assert xs[i] == ys[i - 1] && xs[i + 1] == ys[i];
      }
    }
  }

  /** Every visit of the traversal from an existing tag names a tag reachable from it. */
  lemma {:induction false} VisitedIsReachable(root: Tags, t: string, c: string, q: string, path: string, fuel: nat)
    returns (xs: seq<string>)
    requires t in root.vals
    requires Visit(c, q) in RecNestTag(root, Lookup(root, t), path, fuel)
    ensures Chain(root, xs) && xs[0] == t && xs[|xs| - 1] == c
    decreases fuel, 0
  {
    var n := root.vals[t];
    assert fuel > 0 && n.tags.Some?;
    xs := ChildVisitedIsReachable(root, t, n.tags.value.keys, c, q, path, fuel - 1);
  }

  lemma {:induction false} ChildVisitedIsReachable(root: Tags, t: string, ks: seq<string>, c: string, q: string, path: string, fuel: nat)
    returns (xs: seq<string>)
    requires t in root.vals && forall k :: k in ks ==> k in ChildKeys(root.vals[t])
    requires Visit(c, q) in VisitChildren(root, ks, path, fuel)
    ensures Chain(root, xs) && xs[0] == t && xs[|xs| - 1] == c
    decreases fuel, 1, |ks|
  {
    var k := ks[0];
    var sub := RecNestTag(root, Lookup(root, k), path + "/" + k, fuel);
    assert VisitChildren(root, ks, path, fuel) == [Visit(k, path)] + sub + VisitChildren(root, ks[1..], path, fuel);
    if Visit(c, q) == Visit(k, path) {
      xs := [t, k];
      EdgeChain(root, t, k);
    } else if Visit(c, q) in sub {
      assert k in root.vals;
      var ys := VisitedIsReachable(root, k, c, q, path + "/" + k, fuel);
      ChainCons(root, t, ys);
      xs := [t] + ys;
    } else {
      xs := ChildVisitedIsReachable(root, t, ks[1..], c, q, path, fuel);
    }
  }

  /** Everything visited below one child is visited below its parent. */
  lemma {:induction false} SubtreeInChildren(root: Tags, ks: seq<string>, k: string, path: string, fuel: nat)
    requires k in ks
    ensures forall v :: v in RecNestTag(root, Lookup(root, k), path + "/" + k, fuel) ==> v in VisitChildren(root, ks, path, fuel)
    decreases |ks|
  {
    if ks[0] != k {
      SubtreeInChildren(root, ks[1..], k, path, fuel);
    }
  }

  /** With fuel for every edge of a walk, the traversal from its start visits its end. */
  lemma {:induction false} ReachableIsVisited(root: Tags, xs: seq<string>, path: string, fuel: nat) returns (q: string)
    requires Chain(root, xs) && |xs| - 1 <= fuel
    ensures Visit(xs[|xs| - 1], q) in RecNestTag(root, Lookup(root, xs[0]), path, fuel)
    decreases |xs|
  {
    var t, k := xs[0], xs[1];
    var ks := root.vals[t].tags.value.keys;
    assert RecNestTag(root, Lookup(root, t), path, fuel) == VisitChildren(root, ks, path, fuel - 1);
    if |xs| == 2 {
      q := path;
    } else {
      var ys := xs[1..];
      assert Chain(root, ys) by {
        forall i | 0 <= i < |ys| - 1
          ensures ys[i] in root.vals && ys[i + 1] in ChildKeys(root.vals[ys[i]])
        {
          assert ys[i] == xs[i + 1] && ys[i + 1] == xs[i + 2];
        }
      }
      q := ReachableIsVisited(root, ys, path + "/" + k, fuel - 1);
      SubtreeInChildren(root, ks, k, path, fuel - 1);
    }
  }

  /** Along a walk on a ranked store the rank falls at every existing tag, so the walk is short. */
  lemma {:induction false} ChainRankBound(root: Tags, rank: map<string, nat>, xs: seq<string>)
    requires Ranked(root, rank) && Chain(root, xs)
    ensures |xs| - 2 <= rank[xs[0]]
    decreases |xs|
  {
    if |xs| > 2 {
      var ys := xs[1..];
      assert Chain(root, ys) by {
        forall i | 0 <= i < |ys| - 1
          ensures ys[i] in root.vals && ys[i + 1] in ChildKeys(root.vals[ys[i]])
        {
          assert ys[i] == xs[i + 1] && ys[i + 1] == xs[i + 2];
        }
      }
      ChainRankBound(root, rank, ys);
      assert xs[1] in root.vals && xs[1] in ChildKeys(root.vals[xs[0]]);
    }
  }

  /**
   * On an acyclic store the traversal from an existing tag visits exactly the
   * tags reachable from it through one or more child edges.
   */
  lemma TraverseVisitsReachable(root: Tags, rank: map<string, nat>, t: string, c: string, path: string)
    requires root.Valid() && Ranked(root, rank) && t in root.vals
    ensures (exists q :: Visit(c, q) in Traverse(root, Lookup(root, t), path)) <==> Reachable(root, t, c)
  {
    if q :| Visit(c, q) in Traverse(root, Lookup(root, t), path) {
      var xs := VisitedIsReachable(root, t, c, q, path, |root.keys|);
    }
    if Reachable(root, t, c) {
      var xs :| Chain(root, xs) && xs[0] == t && xs[|xs| - 1] == c;
      CompactRanked(root, rank);
      ChainRankBound(root, CompactRank(root, rank), xs);
      var q := ReachableIsVisited(root, xs, path, |root.keys|);
    }
  }

  // ---------------------------------------------------------- closure queries

  /** The callback of `getChildTags`: `path + "/" + name` for each visit. */
  function VisitPaths(vs: seq<Visit>): (r: seq<string>)
    ensures |r| == |vs|
    ensures forall i :: 0 <= i < |vs| ==> r[i] == vs[i].path + "/" + vs[i].name
  {
    if vs == [] then [] else [vs[0].path + "/" + vs[0].name] + VisitPaths(vs[1..])
  }

  /** The callback of `getFiles`: the file keys of each visited tag that exists and has files. */
  function VisitedFiles(root: Tags, vs: seq<Visit>): seq<string>
  {
    if vs == [] then []
    else
      var n := Lookup(root, vs[0].name);
      (if n.Some? then FileKeys(n.value) else []) + VisitedFiles(root, vs[1..])
  }

  /**
   * struct.go `getChildTags`: without recursion, the child keys; with it, one
   * `tag/.../name` path per visit of the traversal, which starts at the path
   * `tag` as given (so "." stays "." in the paths).  Any resolution failure is
   * reported as an unknown `tag`.
   */
  function GetChildTags(root: Tags, current: Option<string>, tag: string, recursive: bool): (r: Result<seq<string>, Error>)
    ensures r.Err? <==> GetTag(root, current, tag).Err?
    ensures r.Err? ==> r.error == NoSuchTag(tag)
    ensures r.Ok? && !recursive ==> r.value == ChildKeys(root.vals[GetTag(root, current, tag).value])
  {
    match GetTag(root, current, tag)
    case Err(_) => Err(NoSuchTag(tag))
    case Ok(name) =>
      var node := root.vals[name];
      if recursive then Ok(VisitPaths(Traverse(root, Some(node), tag)))
      else Ok(ChildKeys(node))
  }

  /**
   * struct.go `getFiles`: the tag's own file keys, then, with recursion, the
   * file keys of every visited tag in visit order; duplicates are kept.
   */
  function GetFiles(root: Tags, current: Option<string>, tag: string, recursive: bool): (r: Result<seq<string>, Error>)
    ensures r.Err? <==> GetTag(root, current, tag).Err?
    ensures r.Err? ==> r.error == NoSuchTag(tag)
    ensures r.Ok? ==> FileKeys(root.vals[GetTag(root, current, tag).value]) <= r.value
    ensures r.Ok? && !recursive ==> r.value == FileKeys(root.vals[GetTag(root, current, tag).value])
  {
    match GetTag(root, current, tag)
    case Err(_) => Err(NoSuchTag(tag))
    case Ok(name) =>
      var node := root.vals[name];
      var own := FileKeys(node);
      if recursive then Ok(own + VisitedFiles(root, Traverse(root, Some(node), "")))
      else Ok(own)
  }

  lemma {:induction false} VisitedFilesContains(root: Tags, vs: seq<Visit>, v: Visit)
    requires v in vs && v.name in root.vals
    ensures forall f :: f in FileKeys(root.vals[v.name]) ==> f in VisitedFiles(root, vs)
  {
    if vs[0] != v {
      VisitedFilesContains(root, vs[1..], v);
    }
  }

  /** The recursive `getChildTags` lists every direct child `k` as `tag/k`. */
  lemma RecursiveListsDirectChildren(root: Tags, current: Option<string>, tag: string)
    requires root.Valid()
    requires GetTag(root, current, tag).Ok?
    ensures var n := root.vals[GetTag(root, current, tag).value];
      forall k :: k in ChildKeys(n) ==> tag + "/" + k in GetChildTags(root, current, tag, true).value
  {
    var name := GetTag(root, current, tag).value;
    var n := root.vals[name];
    if n.tags.Some? {
      assert name in root.keys;
      var ks := n.tags.value.keys;
      assert |root.keys| > 0;
      var vs := Traverse(root, Some(n), tag);
      assert vs == VisitChildren(root, ks, tag, |root.keys| - 1);
      assert GetChildTags(root, current, tag, true) == Ok(VisitPaths(vs));
      forall k | k in ks ensures tag + "/" + k in VisitPaths(vs) {
        VisitPathsContains(vs, Visit(k, tag));
      }
    }
  }

  /** Each visit contributes its `path/name` to the listing. */
  lemma VisitPathsContains(vs: seq<Visit>, v: Visit)
    requires v in vs
    ensures v.path + "/" + v.name in VisitPaths(vs)
  {
    var i :| 0 <= i < |vs| && vs[i] == v;
    assert VisitPaths(vs)[i] == v.path + "/" + v.name;
  }

  /** The recursive `getFiles` includes every file of every direct child that exists. */
  lemma RecursiveFilesIncludeChildren(root: Tags, current: Option<string>, tag: string)
    requires root.Valid()
    requires GetTag(root, current, tag).Ok?
    ensures var n := root.vals[GetTag(root, current, tag).value];
      forall k, f :: k in ChildKeys(n) && k in root.vals && f in FileKeys(root.vals[k]) ==>
        f in GetFiles(root, current, tag, true).value
  {
    var name := GetTag(root, current, tag).value;
    var n := root.vals[name];
    if n.tags.Some? {
      assert name in root.keys;
      var ks := n.tags.value.keys;
      var vs := Traverse(root, Some(n), "");
      assert vs == VisitChildren(root, ks, "", |root.keys| - 1);
      var r := GetFiles(root, current, tag, true).value;
      assert r == FileKeys(n) + VisitedFiles(root, vs);
      forall k, f | k in ks && k in root.vals && f in FileKeys(root.vals[k]) ensures f in r {
        VisitedFilesContains(root, vs, Visit(k, ""));
      }
    }
  }

  /**
   * On an acyclic store the recursive `getChildTags` lists every tag reachable
   * from the tag, as some path ending in "/" and its name.
   */
  lemma RecursiveListsReachable(root: Tags, rank: map<string, nat>, current: Option<string>, tag: string, c: string)
    requires root.Valid() && Ranked(root, rank)
    requires GetTag(root, current, tag).Ok?
    requires Reachable(root, GetTag(root, current, tag).value, c)
    ensures exists q :: q + "/" + c in GetChildTags(root, current, tag, true).value
  {
    var name := GetTag(root, current, tag).value;
    var vs := Traverse(root, Lookup(root, name), tag);
    TraverseVisitsReachable(root, rank, name, c, tag);
    var q :| Visit(c, q) in vs;
    VisitPathsContains(vs, Visit(c, q));
    assert GetChildTags(root, current, tag, true).value == VisitPaths(vs);
  }

  /**
   * On an acyclic store the recursive `getFiles` holds the files of every
   * existing tag reachable from the tag.
   */
  lemma RecursiveFilesIncludeReachable(root: Tags, rank: map<string, nat>, current: Option<string>, tag: string, c: string)
    requires root.Valid() && Ranked(root, rank)
    requires GetTag(root, current, tag).Ok?
    requires Reachable(root, GetTag(root, current, tag).value, c) && c in root.vals
    ensures forall f :: f in FileKeys(root.vals[c]) ==> f in GetFiles(root, current, tag, true).value
  {
    var name := GetTag(root, current, tag).value;
    var vs := Traverse(root, Lookup(root, name), "");
    TraverseVisitsReachable(root, rank, name, c, "");
    var q :| Visit(c, q) in vs;
    VisitedFilesContains(root, vs, Visit(c, q));
    assert GetFiles(root, current, tag, true).value == FileKeys(root.vals[name]) + VisitedFiles(root, vs);
  }

  // --------------------------------------------------------------- path walking

  /** What `nestTag` returns: the store's parent (`root`) or the node of a tag name. */
  datatype Target = RootMap | TagAt(name: string)

  /** The maps `nestTag` steps through: `rootTags`, then `rootTags.Child(v, "tags")`. */
  datatype Cursor = AtRoot | InTags(owner: string)

  function HasChildAt(root: Tags, c: Cursor, v: string): bool {
    match c
    case AtRoot => v in root.vals
    case InTags(o) => o in root.vals && root.vals[o].tags.Some? && v in root.vals[o].tags.value.vals
  }

  /**
   * The condition under which `nestTag` succeeds on its non-empty segments:
   * the first is a root tag, and each later one is a child key of the tag
   * before it.
   */
  ghost predicate Follows(root: Tags, segs: seq<string>) {
    && (|segs| > 0 ==> segs[0] in root.vals)
    && forall i :: 0 < i < |segs| ==> HasChildAt(root, InTags(segs[i - 1]), segs[i])
  }

  /** The map `nestTag` looks in after walking `segs`. */
  function CursorOf(segs: seq<string>): Cursor {
    if segs == [] then AtRoot else InTags(segs[|segs| - 1])
  }

  lemma FollowsSnoc(root: Tags, segs: seq<string>, v: string)
    ensures Follows(root, segs + [v]) <==> Follows(root, segs) && HasChildAt(root, CursorOf(segs), v)
  {
    var s := segs + [v];
    if Follows(root, s) {
      forall i | 0 < i < |segs| ensures HasChildAt(root, InTags(segs[i - 1]), segs[i]) {
        assert s[i - 1] == segs[i - 1] && s[i] == segs[i];
      }
      if segs != [] {
        assert s[|segs| - 1] == segs[|segs| - 1];
        assert HasChildAt(root, InTags(s[|segs| - 1]), s[|segs|]);
      }
    }
    if Follows(root, segs) && HasChildAt(root, CursorOf(segs), v) {
      forall i | 0 < i < |s| ensures HasChildAt(root, InTags(s[i - 1]), s[i]) {
        if i < |segs| {
          assert s[i - 1] == segs[i - 1] && s[i] == segs[i];
        } else {
          assert s[i - 1] == segs[|segs| - 1] && s[i] == v;
        }
      }
    }
  }

  /** A walk that fails cannot be rescued by more segments. */
  lemma FollowsPrefix(root: Tags, a: seq<string>, b: seq<string>)
    ensures Follows(root, a + b) ==> Follows(root, a)
  {
    if Follows(root, a + b) {
      forall i | 0 < i < |a| ensures HasChildAt(root, InTags(a[i - 1]), a[i]) {
        assert (a + b)[i - 1] == a[i - 1] && (a + b)[i] == a[i];
      }
    }
  }

  /**
   * The loop of main.go `nestTag` over the split segments: skip empty ones and
   * walk from `rootTags` through `rootTags.Child(v, "tags")`.  The result names
   * the last segment's tag even when that segment is a dangling child key.
   */
  method WalkSegments(root: Tags, all: seq<string>) returns (r: Result<Target, Error>)
    ensures var segs := Except(all, {""});
      && (r.Ok? <==> Follows(root, segs))
      && (r.Ok? ==> r.value == if segs == [] then RootMap else TagAt(segs[|segs| - 1]))
      && (r.Err? ==> r.error == TagNotExists)
  {
    var cur := AtRoot;
    for i := 0 to |all|
      invariant Follows(root, Except(all[..i], {""}))
      invariant cur == CursorOf(Except(all[..i], {""}))
    {
      var v := all[i];
      SegmentStep(all, i);
      if v == "" {
        continue;
      }
      FollowsSnoc(root, Except(all[..i], {""}), v);
      if !HasChildAt(root, cur, v) {
        SegmentFails(root, all, i);
        r := Err(TagNotExists);
        return;
      }
      cur := InTags(v);
    }
    assert all[..|all|] == all;
    r := Ok(if cur.AtRoot? then RootMap else TagAt(cur.owner));
  }

  lemma SegmentStep(all: seq<string>, i: nat)
    requires i < |all|
    ensures Except(all[..i + 1], {""}) == Except(all[..i], {""}) + if all[i] == "" then [] else [all[i]]
  {
    assert all[..i + 1][..i] == all[..i];
  }

  /** A segment that is not a child of the one before it makes the whole walk fail. */
  lemma SegmentFails(root: Tags, all: seq<string>, i: nat)
    requires i < |all| && all[i] != ""
    requires !HasChildAt(root, CursorOf(Except(all[..i], {""})), all[i])
    ensures !Follows(root, Except(all, {""}))
  {
    SegmentStep(all, i);
    FollowsSnoc(root, Except(all[..i], {""}), all[i]);
    ExceptSplit(all, i + 1, {""});
    FollowsPrefix(root, Except(all[..i + 1], {""}), Except(all[i + 1..], {""}));
  }

  /** main.go `nestTag`: join the arguments with "/", split again, and walk the segments. */
  method NestTag(root: Tags, tags: seq<string>) returns (r: Result<Target, Error>)
    ensures var segs := Except(Split(Join(tags, '/'), '/'), {""});
      && (r.Ok? <==> Follows(root, segs))
      && (r.Ok? ==> r.value == if segs == [] then RootMap else TagAt(segs[|segs| - 1]))
      && (r.Err? ==> r.error == TagNotExists)
  {
    var all := Split(Join(tags, '/'), '/');
    r := WalkSegments(root, all);
  }

  /** For plain tag names the join and split are the identity, so `nestTag` walks exactly those names. */
  lemma NestTagSegments(tags: seq<string>)
    requires forall t :: t in tags ==> '/' !in t
    ensures Except(Split(Join(tags, '/'), '/'), {""}) == Except(tags, {""})
  {
    if tags == [] {
      assert Split(Join(tags, '/'), '/') == [""];
      assert [""][..0] == [];
    } else {
      SplitJoin(tags, '/');
    }
  }
}
