/**
 * The older command bodies of tag.go: `create`, `add tags`, `remove tags`,
 * `autoremove tags` and `autoremove files`.  The source tag is found with
 * `moveTag(args[0:1])`; that helper is not part of this model and is read as a
 * plain lookup of `args[0]` among the tags, with no "." alias.
 */
module TagCommands {
  import opened Wrappers
  import opened Lists
  import opened OrderedMap
  import opened TagGraph
  import opened Store
  import opened FileSystem
  import opened Autoremove

  // --------------------------------------------------------------------- create

  /**
   * The node `getInitedTag()` produces.  That helper is not part of this
   * model; it is read as a tag with an empty `tags` and an empty `files` map.
   */
  function InitedTag(): (n: TagNode)
    ensures ValidNode(n) && n.tags.Some? && n.files.Some? && n.comment.None?
    ensures n.tags.value == Empty() && n.files.value == Empty()
  {
    TagNode(Some(Empty()), Some(Empty()), None)
  }

  function CreateAnyway(m: Tags, names: seq<string>): Tags {
    if names == [] then m
    else CreateAnyway(m, names[..|names| - 1]).Set(names[|names| - 1], InitedTag())
  }

  /**
   * The older `create` overwrites: every named tag, existing or not, holds a
   * fresh node afterwards; other tags are untouched; existing tags keep their
   * place and new ones follow.
   */
  lemma {:induction false} CreateAnywayEffect(m: Tags, names: seq<string>)
    requires ValidTags(m)
    ensures var r := CreateAnyway(m, names);
      && ValidTags(r)
      && m.keys <= r.keys
      && (forall k :: k in r.vals <==> k in m.vals || k in names)
      && (forall k :: k in names ==> r.vals[k] == InitedTag())
      && (forall k :: k in m.vals && k !in names ==> r.vals[k] == m.vals[k])
  {
    if names != [] {
      CreateAnywayEffect(m, names[..|names| - 1]);
    }
  }

  /** tag.go `create`: no arguments shows the help; otherwise every name gets a fresh node and the store is saved. */
  method CreateAnywayCmd(t: Tager, args: seq<string>) returns (saved: bool)
    requires t.Valid()
    modifies t
    ensures t.Valid() && t.current == old(t.current)
    ensures saved == (|args| > 0)
    ensures t.tags == CreateAnyway(old(t.tags), args)
  {
    if |args| == 0 {
      return false;
    }
    for i := 0 to |args|
      invariant t.Valid() && t.current == old(t.current)
      invariant t.tags == CreateAnyway(old(t.tags), args[..i])
    {
      assert args[..i + 1][..i] == args[..i];
      t.tags := t.tags.Set(args[i], InitedTag());
    }
    assert args[..|args|] == args;
    saved := true;
  }

  // ------------------------------------------------------------------- add tags

  /** Child edges `v -> v` for the arguments that are tags; others are skipped. */
  function AddEdges(cm: OMap<string>, root: Tags, vs: seq<string>): OMap<string> {
    if vs == [] then cm
    else
      var rest := AddEdges(cm, root, vs[..|vs| - 1]);
      var v := vs[|vs| - 1];
      if v in root.vals then rest.Set(v, v) else rest
  }

  /**
   * Adding edges keeps the old ones, adds exactly the arguments that are tags,
   * each mapped to itself, and appends new names after the old ones.
   */
  lemma {:induction false} AddEdgesEffect(cm: OMap<string>, root: Tags, vs: seq<string>)
    requires cm.Valid()
    ensures var r := AddEdges(cm, root, vs);
      && r.Valid()
      && cm.keys <= r.keys
      && (forall k :: k in r.vals <==> k in cm.vals || (k in vs && k in root.vals))
      && (forall k :: k in r.vals ==> r.vals[k] == if k in vs && k in root.vals then k else cm.vals[k])
  {
    if vs != [] {
      AddEdgesEffect(cm, root, vs[..|vs| - 1]);
    }
  }

  /** The arguments processed before the loop meets the source tag itself and aborts. */
  function BeforeSelf(src: string, vs: seq<string>): (r: seq<string>)
    ensures r <= vs && src !in r
    ensures src in vs ==> |r| < |vs| && vs[|r|] == src
    ensures src !in vs ==> r == vs
  {
    if src in vs then vs[..FirstIndex(vs, src)] else vs
  }

  lemma AddEdgesStep(cm: OMap<string>, root: Tags, vs: seq<string>, i: nat)
    requires i < |vs|
    ensures vs[..i + 1][..i] == vs[..i]
    ensures AddEdges(cm, root, vs[..i + 1]) ==
      if vs[i] in root.vals then AddEdges(cm, root, vs[..i]).Set(vs[i], vs[i]) else AddEdges(cm, root, vs[..i])
  {
    assert vs[..i + 1][..i] == vs[..i];
  }

  /** The store after `add tags`, as held in memory (it is saved only when nothing aborted). */
  function AddTags(m: Tags, args: seq<string>): Tags {
    if |args| <= 1 || args[0] !in m.vals || m.vals[args[0]].tags.None? then m
    else
      var n := m.vals[args[0]];
      m.Set(args[0], n.(tags := Some(AddEdges(n.tags.value, m, BeforeSelf(args[0], args[1..])))))
  }

  /** When the loop meets the source at position `i`, the edges so far are all `add tags` leaves behind. */
  lemma AbortsAt(m: Tags, args: seq<string>, i: nat)
    requires |args| > 1 && args[0] in m.vals && m.vals[args[0]].tags.Some?
    requires i < |args| - 1 && args[i + 1] == args[0] && args[0] !in args[1..][..i]
    ensures var n := m.vals[args[0]];
      AddTags(m, args) == m.Set(args[0], n.(tags := Some(AddEdges(n.tags.value, m, args[1..][..i]))))
    ensures !AddTagsSaves(m, args)
  {
    var rest := args[1..];
    assert rest[i] == args[0];
    FirstIndexUnique(rest, args[0], i);
    assert BeforeSelf(args[0], rest) == rest[..i];
  }

  /** `add tags` saves only when it has a source with a `tags` map and the source is not among the children. */
  predicate AddTagsSaves(m: Tags, args: seq<string>) {
    |args| > 1 && args[0] in m.vals && m.vals[args[0]].tags.Some? && args[0] !in args[1..]
  }

  /**
   * What `add tags` does to the source tag: the tag set is unchanged, other
   * tags are untouched, and the source gains exactly the children named before
   * any occurrence of itself that are tags, so it never gains an edge to itself.
   */
  lemma AddTagsEffect(m: Tags, args: seq<string>)
    requires ValidTags(m)
    requires |args| > 1 && args[0] in m.vals && m.vals[args[0]].tags.Some?
    ensures var r, src := AddTags(m, args), args[0];
      var cm, rm := m.vals[src].tags.value, r.vals[src].tags;
      && ValidTags(r)
      && r.keys == m.keys
      && (forall k :: k in m.vals && k != src ==> r.vals[k] == m.vals[k])
      && r.vals[src].files == m.vals[src].files && r.vals[src].comment == m.vals[src].comment
      && rm.Some?
      && (forall k :: k in rm.value.vals <==>
            k in cm.vals || (k in BeforeSelf(src, args[1..]) && k in m.vals))
      && (src in rm.value.vals ==> src in cm.vals)
  {
    var n := m.vals[args[0]];
    AddEdgesEffect(n.tags.value, m, BeforeSelf(args[0], args[1..]));
  }

  /** Every added edge leads to a tag and names itself as its value. */
  lemma AddTagsEdgesResolve(m: Tags, args: seq<string>)
    requires ValidTags(m)
    requires |args| > 1 && args[0] in m.vals && m.vals[args[0]].tags.Some?
    ensures var cm, rm := m.vals[args[0]].tags.value, AddTags(m, args).vals[args[0]].tags.value;
      forall k :: k in rm.vals && k !in cm.vals ==> k in m.vals && rm.vals[k] == k && k in args[1..]
  {
    AddEdgesEffect(m.vals[args[0]].tags.value, m, BeforeSelf(args[0], args[1..]));
  }

  /**
   * tag.go `add tags`: needs a source and at least one child; the source must
   * have a `tags` map; a child that is not a tag is skipped; a child equal to
   * the source aborts the command unsaved, with the edges set so far in
   * memory; every other child `v` becomes the edge `v -> v`.
   */
  method AddTagsCmd(t: Tager, args: seq<string>) returns (saved: bool)
    requires t.Valid()
    modifies t
    ensures t.Valid() && t.current == old(t.current)
    ensures saved == AddTagsSaves(old(t.tags), args)
    ensures t.tags == AddTags(old(t.tags), args)
  {
    if |args| <= 1 {
      return false;
    }
    var src := args[0];
    if !t.tags.Has(src) || t.tags.vals[src].tags.None? {
      return false;
    }
    var n := t.tags.vals[src];
    var cm := n.tags.value;
    var rest := args[1..];
    ghost var m := t.tags;
    SetSame(m, src);
    for i := 0 to |rest|
      invariant t.Valid() && t.current == old(t.current)
      invariant src !in rest[..i]
      invariant t.tags == m.Set(src, n.(tags := Some(AddEdges(cm, m, rest[..i]))))
    {
      var v := rest[i];
      AddEdgesStep(cm, m, rest, i);
      if !t.tags.Has(v) {
        continue;
      }
      if v == src {
        AbortsAt(m, args, i);
        return false;
      }
      var cur := t.tags.vals[src];
      SetSet(m, src, cur, n.(tags := Some(AddEdges(cm, m, rest[..i + 1]))));
      t.tags := t.tags.Set(src, cur.(tags := Some(cur.tags.value.Set(v, v))));
    }
    assert rest[..|rest|] == rest;
    saved := true;
  }

  // ---------------------------------------------------------------- remove tags

  /**
   * The test of `remove tags`, read as a prune over the arguments: an edge
   * named by an argument survives only when that argument is not a tag.
   */
  function NotIn(s: set<string>): string -> bool {
    k => k !in s
  }

  /** `remove tags` drops exactly the named edges to existing tags, keeping the rest in order. */
  lemma RemoveEdgesEffect(cm: OMap<string>, root: Tags, vs: seq<string>)
    requires cm.Valid()
    ensures var r := Prune(cm, vs, NotIn(root.vals.Keys));
      && r.Valid()
      && (forall k :: k in r.vals <==> k in cm.vals && !(k in vs && k in root.vals))
      && r.keys == Except(cm.keys, set v | v in vs && v in root.vals)
  {
    var keep := NotIn(root.vals.Keys);
    PruneRemovesRejected(cm, vs, keep);
    assert Rejected(vs, keep) == set v | v in vs && v in root.vals;
  }

  /** A dangling edge, to a name that is no longer a tag, survives `remove tags`. */
  lemma DanglingEdgesStay(cm: OMap<string>, root: Tags, vs: seq<string>)
    requires cm.Valid()
    ensures forall k :: k in cm.vals && k !in root.vals ==> k in Prune(cm, vs, NotIn(root.vals.Keys)).vals
  {
    RemoveEdgesEffect(cm, root, vs);
  }

  function RemoveTags(m: Tags, args: seq<string>): Tags {
    if |args| <= 1 || args[0] !in m.vals || m.vals[args[0]].tags.None? then m
    else
      var n := m.vals[args[0]];
      m.Set(args[0], n.(tags := Some(Prune(n.tags.value, args[1..], NotIn(m.vals.Keys)))))
  }

  /**
   * tag.go `remove tags`: needs a source with a `tags` map and at least one
   * child; each child that is still a tag loses its edge, the others are
   * skipped; then the store is saved.
   */
  method RemoveTagsCmd(t: Tager, args: seq<string>) returns (saved: bool)
    requires t.Valid()
    modifies t
    ensures t.Valid() && t.current == old(t.current)
    ensures saved == (|args| > 1 && args[0] in old(t.tags).vals && old(t.tags).vals[args[0]].tags.Some?)
    ensures t.tags == RemoveTags(old(t.tags), args)
  {
    if |args| <= 1 {
      return false;
    }
    var src := args[0];
    if !t.tags.Has(src) || t.tags.vals[src].tags.None? {
      return false;
    }
    var n := t.tags.vals[src];
    var cm := n.tags.value;
    var rest := args[1..];
    ghost var m := t.tags;
    SetSame(m, src);
    for i := 0 to |rest|
      invariant t.Valid() && t.current == old(t.current)
      invariant t.tags == m.Set(src, n.(tags := Some(Prune(cm, rest[..i], NotIn(m.vals.Keys)))))
    {
      assert rest[..i + 1][..i] == rest[..i];
      PruneRemovesRejected(cm, rest[..i + 1], NotIn(m.vals.Keys));
      var v := rest[i];
      if !t.tags.Has(v) {
        continue;
      }
      var cur := t.tags.vals[src];
      SetSet(m, src, cur, n.(tags := Some(Prune(cm, rest[..i + 1], NotIn(m.vals.Keys)))));
      t.tags := t.tags.Set(src, cur.(tags := Some(cur.tags.value.Remove(v))));
    }
    assert rest[..|rest|] == rest;
    saved := true;
  }

  // ----------------------------------------------------------- autoremove tags

  /** The test of `autoremove tags`: the child names a tag of the store. */
  function InSet(s: set<string>): string -> bool {
    k => k in s
  }

  /**
   * tag.go `autoremove tags`: every target (all tags when there are no
   * arguments) loses the child edges whose names are not tags; the store is
   * saved.
   */
  method AutoremoveTagsCmd(t: Tager, args: seq<string>)
    requires t.Valid()
    modifies t
    ensures t.Valid() && t.current == old(t.current)
    ensures t.tags == PruneAll(old(t.tags), Targets(old(t.tags), args), ChildTags, InSet(old(t.tags).vals.Keys))
  {
    var targets := if |args| == 0 then t.tags.keys else args;
    PruneTargets(t, targets, ChildTags, InSet(t.tags.vals.Keys));
  }

  /**
   * After `autoremove tags` a target keeps exactly its edges to tags that
   * exist, in order; files, comments and non-targets are untouched.
   */
  lemma AutoremoveTagsEffect(m: Tags, args: seq<string>)
    requires ValidTags(m)
    ensures var r := PruneAll(m, Targets(m, args), ChildTags, InSet(m.vals.Keys));
      && ValidTags(r) && r.keys == m.keys
      && (forall k :: k in r.vals <==> k in m.vals)
      && (forall k :: k in m.vals ==> r.vals[k].files == m.vals[k].files && r.vals[k].comment == m.vals[k].comment)
      && (forall k :: k in m.vals ==> r.vals[k].tags.Some? == m.vals[k].tags.Some?)
      && (forall k :: k in m.vals && k !in Targets(m, args) ==> r.vals[k] == m.vals[k])
      && (forall k, c :: k in Targets(m, args) && k in m.vals && m.vals[k].tags.Some? ==>
            (c in r.vals[k].tags.value.vals <==> c in m.vals[k].tags.value.vals && c in m.vals))
  {
    var keep := InSet(m.vals.Keys);
    var targets := Targets(m, args);
    PruneAllEffect(m, targets, ChildTags, keep);
    forall k | k in m.vals
      ensures var r := PruneAll(m, targets, ChildTags, keep);
        && r.vals[k].files == m.vals[k].files && r.vals[k].comment == m.vals[k].comment
        && r.vals[k].tags.Some? == m.vals[k].tags.Some?
        && (k in targets && m.vals[k].tags.Some? ==>
              forall c :: c in r.vals[k].tags.value.vals <==> c in m.vals[k].tags.value.vals && c in m.vals)
    {
      PruneNodeEffect(m.vals[k], ChildTags, keep);
      if k in targets && m.vals[k].tags.Some? {
        PruneNodeMembers(m.vals[k], ChildTags, keep);
      }
    }
  }

  /** With no arguments, no tag has a dangling child edge afterwards. */
  lemma AutoremoveAllTagsLeavesNoDangling(m: Tags)
    requires ValidTags(m)
    ensures var r := PruneAll(m, Targets(m, []), ChildTags, InSet(m.vals.Keys));
      forall k, c :: k in r.vals && r.vals[k].tags.Some? && c in r.vals[k].tags.value.vals ==> c in r.vals
  {
    AutoremoveTagsEffect(m, []);
    assert forall k :: k in m.vals ==> k in Targets(m, []);
  }

  /** A second `autoremove tags` with the same arguments removes nothing. */
  lemma AutoremoveTagsTwice(m: Tags, args: seq<string>)
    requires ValidTags(m)
    ensures var r := PruneAll(m, Targets(m, args), ChildTags, InSet(m.vals.Keys));
      PruneAll(r, Targets(r, args), ChildTags, InSet(r.vals.Keys)) == r
  {
    var r := PruneAll(m, Targets(m, args), ChildTags, InSet(m.vals.Keys));
    PruneAllEffect(m, Targets(m, args), ChildTags, InSet(m.vals.Keys));
    assert r.vals.Keys == m.vals.Keys;
    PruneAllIdempotent(m, Targets(m, args), ChildTags, InSet(m.vals.Keys));
  }

  // ---------------------------------------------------------- autoremove files

  /** The test of tag.go `autoremove files`: a key is kept when `os.Stat` on it fails. */
  function StatFails(env: Env): string -> bool {
    k => !env.stat(k)
  }

  /**
   * tag.go `autoremove files`, as written: it scans each target's `tags` map
   * (not `files`) and removes the keys that DO exist on disk.
   */
  method AutoremoveFilesAsWritten(t: Tager, env: Env, args: seq<string>)
    requires t.Valid()
    modifies t
    ensures t.Valid() && t.current == old(t.current)
    ensures t.tags == PruneAll(old(t.tags), Targets(old(t.tags), args), ChildTags, StatFails(env))
  {
    var targets := if |args| == 0 then t.tags.keys else args;
    PruneTargets(t, targets, ChildTags, StatFails(env));
  }

  /**
   * What tag.go `autoremove files` does: no `files` map changes at all, and a
   * target loses exactly the child edges whose names are existing paths.
   */
  lemma AutoremoveFilesAsWrittenEffect(m: Tags, env: Env, args: seq<string>)
    requires ValidTags(m)
    ensures var r := PruneAll(m, Targets(m, args), ChildTags, StatFails(env));
      && (forall k :: k in r.vals <==> k in m.vals)
      && (forall k :: k in m.vals ==> r.vals[k].files == m.vals[k].files)
      && (forall k :: k in m.vals ==> r.vals[k].tags.Some? == m.vals[k].tags.Some?)
      && (forall k, c :: k in Targets(m, args) && k in m.vals && m.vals[k].tags.Some? ==>
            (c in r.vals[k].tags.value.vals <==> c in m.vals[k].tags.value.vals && !env.stat(c)))
  {
    var keep := StatFails(env);
    var targets := Targets(m, args);
    PruneAllEffect(m, targets, ChildTags, keep);
    forall k | k in m.vals
      ensures var r := PruneAll(m, targets, ChildTags, keep);
        && r.vals[k].files == m.vals[k].files
        && r.vals[k].tags.Some? == m.vals[k].tags.Some?
        && (k in targets && m.vals[k].tags.Some? ==>
              forall c :: c in r.vals[k].tags.value.vals <==> c in m.vals[k].tags.value.vals && !env.stat(c))
    {
      PruneNodeEffect(m.vals[k], ChildTags, keep);
      if k in targets && m.vals[k].tags.Some? {
        PruneNodeMembers(m.vals[k], ChildTags, keep);
      }
    }
  }
}
