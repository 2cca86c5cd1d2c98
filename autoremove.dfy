/**
 * The dangling-reference scans behind the `autoremove` commands of tag.go and
 * file.go.  Each command walks a list of target tags and, in each target, walks
 * a snapshot of the keys of one of its maps (`tags` or `files`), removing every
 * key that a test rejects.  The commands differ only in the map they scan and in
 * the test, so both are parameters here: `keep` is the test of the source's
 * loop (`rootTags.HasChild`, or `os.Stat` succeeding or failing).
 */
module Autoremove {
  import opened Wrappers
  import opened Lists
  import opened OrderedMap
  import opened TagGraph
  import opened Store

  /** Which map of a tag a scan walks. */
  datatype Part = ChildTags | Files {
    function Other(): Part {
      match this
      case ChildTags => Files
      case Files => ChildTags
    }
  }

  function PartOf(n: TagNode, p: Part): Option<OMap<string>> {
    match p
    case ChildTags => n.tags
    case Files => n.files
  }

  function WithPart(n: TagNode, p: Part, pm: OMap<string>): TagNode {
    match p
    case ChildTags => n.(tags := Some(pm))
    case Files => n.(files := Some(pm))
  }

  /** The scan of one target: a missing map is skipped, otherwise the rejected keys go. */
  function PruneNode(n: TagNode, p: Part, keep: string -> bool): TagNode {
    if PartOf(n, p).None? then n
    else
      var pm := PartOf(n, p).value;
      WithPart(n, p, Prune(pm, pm.keys, keep))
  }

  /**
   * Scanning a tag removes from the scanned map exactly the keys `keep`
   * rejects, keeps the others in order with their values, and touches nothing
   * else of the tag.
   */
  lemma PruneNodeEffect(n: TagNode, p: Part, keep: string -> bool)
    requires ValidNode(n)
    ensures var r := PruneNode(n, p, keep);
      && ValidNode(r)
      && r.comment == n.comment
      && PartOf(r, p.Other()) == PartOf(n, p.Other())
      && PartOf(r, p).Some? == PartOf(n, p).Some?
      && (PartOf(n, p).Some? ==>
            var pm, rm := PartOf(n, p).value, PartOf(r, p).value;
            && rm.keys == Except(pm.keys, Rejected(pm.keys, keep))
            && rm.vals == pm.vals - Rejected(pm.keys, keep))
  {
    if PartOf(n, p).Some? {
      var pm := PartOf(n, p).value;
      PruneRemovesRejected(pm, pm.keys, keep);
    }
  }

  /** After a scan a kept key is exactly an old key that `keep` accepts. */
  lemma PruneNodeMembers(n: TagNode, p: Part, keep: string -> bool)
    requires ValidNode(n) && PartOf(n, p).Some?
    ensures PartOf(PruneNode(n, p, keep), p).Some?
    ensures forall k :: k in PartOf(PruneNode(n, p, keep), p).value.vals <==>
      k in PartOf(n, p).value.vals && keep(k)
  {
    PruneNodeEffect(n, p, keep);
  }

  /** A scan leaves only accepted keys, so scanning again changes nothing. */
  lemma PruneNodeIdempotent(n: TagNode, p: Part, keep: string -> bool)
    requires ValidNode(n)
    ensures PruneNode(PruneNode(n, p, keep), p, keep) == PruneNode(n, p, keep)
  {
    if PartOf(n, p).Some? {
      PruneIdempotent(PartOf(n, p).value, keep);
    }
  }

  /** One target; a name that is not a tag has no map to scan. */
  function PruneOne(m: Tags, v: string, p: Part, keep: string -> bool): Tags {
    if v in m.vals then m.Set(v, PruneNode(m.vals[v], p, keep)) else m
  }

  /** The outer loop over the targets. */
  function PruneAll(m: Tags, targets: seq<string>, p: Part, keep: string -> bool): Tags {
    if targets == [] then m
    else PruneOne(PruneAll(m, targets[..|targets| - 1], p, keep), targets[|targets| - 1], p, keep)
  }

  /** The targets of an autoremove: the arguments, or every tag when there are none. */
  function Targets(m: Tags, args: seq<string>): (r: seq<string>)
    ensures m.Valid() ==> forall k :: k in m.vals ==> (k in r <==> args == [] || k in args)
  {
    if args == [] then m.keys else args
  }

  /**
   * The outer loop keeps every tag and the key order of the store, scans every
   * target once however often it is named, and leaves the other tags alone.
   */
  lemma PruneAllEffect(m: Tags, targets: seq<string>, p: Part, keep: string -> bool)
    requires ValidTags(m)
    ensures var r := PruneAll(m, targets, p, keep);
      && ValidTags(r)
      && r.keys == m.keys
      && (forall k :: k in r.vals <==> k in m.vals)
      && (forall k :: k in m.vals ==>
            r.vals[k] == if k in targets then PruneNode(m.vals[k], p, keep) else m.vals[k])
  {
    PruneAllShape(m, targets, p, keep);
    PruneAllVals(m, targets, p, keep);
  }

  lemma {:induction false} PruneAllShape(m: Tags, targets: seq<string>, p: Part, keep: string -> bool)
    requires ValidTags(m)
    ensures var r := PruneAll(m, targets, p, keep);
      && ValidTags(r)
      && r.keys == m.keys
      && (forall k :: k in r.vals <==> k in m.vals)
  {
    if targets != [] {
      var init, v := targets[..|targets| - 1], targets[|targets| - 1];
      PruneAllShape(m, init, p, keep);
      var r0 := PruneAll(m, init, p, keep);
      if v in r0.vals {
        PruneNodeEffect(r0.vals[v], p, keep);
      }
    }
  }

  lemma {:induction false} PruneAllVals(m: Tags, targets: seq<string>, p: Part, keep: string -> bool)
    requires ValidTags(m)
    ensures var r := PruneAll(m, targets, p, keep);
      forall k :: k in m.vals ==>
        k in r.vals && r.vals[k] == if k in targets then PruneNode(m.vals[k], p, keep) else m.vals[k]
  {
    if targets != [] {
      var init, v := targets[..|targets| - 1], targets[|targets| - 1];
      assert targets == init + [v];
      PruneAllShape(m, init, p, keep);
      PruneAllVals(m, init, p, keep);
      if v in m.vals {
        PruneNodeIdempotent(m.vals[v], p, keep);
      }
    }
  }

  /** Targets whose scan would remove nothing are left as they are. */
  lemma {:induction false} PruneAllFixed(m: Tags, targets: seq<string>, p: Part, keep: string -> bool)
    requires m.Valid()
    requires forall v :: v in targets && v in m.vals ==> PruneNode(m.vals[v], p, keep) == m.vals[v]
    ensures PruneAll(m, targets, p, keep) == m
  {
    if targets != [] {
      var init, v := targets[..|targets| - 1], targets[|targets| - 1];
      PruneAllFixed(m, init, p, keep);
      if v in m.vals {
        SetSame(m, v);
      }
    }
  }

  /** A second run with the same targets and the same test removes nothing. */
  lemma PruneAllIdempotent(m: Tags, targets: seq<string>, p: Part, keep: string -> bool)
    requires ValidTags(m)
    ensures var r := PruneAll(m, targets, p, keep); PruneAll(r, targets, p, keep) == r
  {
    PruneAllEffect(m, targets, p, keep);
    var r := PruneAll(m, targets, p, keep);
    forall v | v in targets && v in r.vals
      ensures PruneNode(r.vals[v], p, keep) == r.vals[v]
    {
      PruneNodeIdempotent(m.vals[v], p, keep);
    }
    PruneAllFixed(r, targets, p, keep);
  }

  /**
   * The inner loop: walk a snapshot of the keys of the target's map and remove
   * each key the test rejects.
   */
  method PruneNodeMap(t: Tager, name: string, p: Part, keep: string -> bool)
    requires t.Valid() && name in t.tags.vals
    modifies t
    ensures t.Valid() && t.current == old(t.current)
    ensures t.tags == old(t.tags).Set(name, PruneNode(old(t.tags).vals[name], p, keep))
  {
    var n := t.tags.vals[name];
    ghost var tags0 := t.tags;
    SetSame(tags0, name);
    if PartOf(n, p).None? {
      return;
    }
    var pm := PartOf(n, p).value;
    var ks := pm.keys;
    assert WithPart(n, p, Prune(pm, ks[..0], keep)) == n;
    for j := 0 to |ks|
      invariant t.Valid() && t.current == old(t.current)
      invariant t.tags == tags0.Set(name, WithPart(n, p, Prune(pm, ks[..j], keep)))
    {
      PruneStep(n, p, pm, ks, j, keep);
      var k := ks[j];
      if keep(k) {
        continue;
      }
      var cur := t.tags.vals[name];
      var next := WithPart(cur, p, PartOf(cur, p).value.Remove(k));
      SetSet(tags0, name, cur, next);
      SetKeepsValid(tags0, name, next);
      t.tags := t.tags.Set(name, next);
    }
    assert ks[..|ks|] == ks;
  }

  /** One step of the inner loop: the key at `j` goes exactly when the test rejects it. */
  lemma PruneStep(n: TagNode, p: Part, pm: OMap<string>, ks: seq<string>, j: nat, keep: string -> bool)
    requires ValidNode(n) && PartOf(n, p) == Some(pm) && j < |ks|
    ensures var cur := WithPart(n, p, Prune(pm, ks[..j], keep));
      && ValidNode(cur)
      && ValidNode(WithPart(n, p, Prune(pm, ks[..j + 1], keep)))
      && PartOf(cur, p).Some?
      && WithPart(n, p, Prune(pm, ks[..j + 1], keep)) ==
           if keep(ks[j]) then cur else WithPart(cur, p, PartOf(cur, p).value.Remove(ks[j]))
  {
    assert ks[..j + 1][..j] == ks[..j];
    PruneRemovesRejected(pm, ks[..j], keep);
    PruneRemovesRejected(pm, ks[..j + 1], keep);
  }

  /**
   * The outer loop: scan each target that is a tag.  The test is fixed for the
   * run; the scans change no tag name, so a test on tag names reads the same
   * store throughout.
   */
  method PruneTargets(t: Tager, targets: seq<string>, p: Part, keep: string -> bool)
    requires t.Valid()
    modifies t
    ensures t.Valid() && t.current == old(t.current)
    ensures t.tags == PruneAll(old(t.tags), targets, p, keep)
  {
    for i := 0 to |targets|
      invariant t.Valid() && t.current == old(t.current)
      invariant t.tags == PruneAll(old(t.tags), targets[..i], p, keep)
    {
      assert targets[..i + 1][..i] == targets[..i];
      var v := targets[i];
      if t.tags.Has(v) {
        PruneNodeMap(t, v, p, keep);
      }
    }
    assert targets[..|targets|] == targets;
  }
}
