/**
 * The command bodies of file.go: `add file`, `remove file`, `autoremove file`
 * and the list computation of `show file`.  These look tags up directly among
 * the stored tags (`rootTags.Child(name)`), with no "." alias.
 */
module FileCommands {
  import opened Wrappers
  import opened Lists
  import opened OrderedMap
  import opened TagGraph
  import opened Store
  import opened FileSystem
  import opened Autoremove

  // ------------------------------------------------------------------- add file

  /**
   * One argument of `add file`: skipped when `os.Stat` or `filepath.Abs`
   * fails or when its absolute path is registered already; otherwise
   * registered under that path with the argument as typed as its value.
   */
  function AddFile(n: TagNode, env: Env, v: string): (r: TagNode)
    ensures ValidNode(n) ==> ValidNode(r)
  {
    if !env.stat(v) || env.abs(v).None? then n
    else
      var full := env.abs(v).value;
      if FilesOrEmpty(n).Has(full) then n else WithFiles(n, FilesOrEmpty(n).Set(full, v))
  }

  function AddFiles(n: TagNode, env: Env, vs: seq<string>): (r: TagNode)
    ensures ValidNode(n) ==> ValidNode(r)
  {
    if vs == [] then n else AddFile(AddFiles(n, env, vs[..|vs| - 1]), env, vs[|vs| - 1])
  }

  /** An argument that `add file` can register: it exists and has an absolute path. */
  predicate Registrable(env: Env, v: string) {
    env.stat(v) && env.abs(v).Some?
  }

  /**
   * `add file` never overwrites a registration and touches only the `files`
   * map; every registrable argument's absolute path is registered afterwards;
   * and every new key is the absolute path of a registrable argument, which is
   * its value.
   */
  lemma {:induction false} AddFilesRegisters(n: TagNode, env: Env, vs: seq<string>)
    requires ValidNode(n)
    ensures var r := AddFiles(n, env, vs);
      var fm, rm := FilesOrEmpty(n), FilesOrEmpty(r);
      && r.tags == n.tags && r.comment == n.comment
      && fm.keys <= rm.keys
      && (forall k :: k in fm.vals ==> k in rm.vals && rm.vals[k] == fm.vals[k])
      && (forall v :: v in vs && Registrable(env, v) ==> env.abs(v).value in rm.vals)
      && (forall k :: k in rm.vals && k !in fm.vals ==>
            exists v :: v in vs && Registrable(env, v) && env.abs(v).value == k && rm.vals[k] == v)
  {
    if vs != [] {
      var init, v := vs[..|vs| - 1], vs[|vs| - 1];
      AddFilesRegisters(n, env, init);
      var r0 := AddFiles(n, env, init);
      var rm := FilesOrEmpty(AddFiles(n, env, vs));
      forall k | k in rm.vals && k !in FilesOrEmpty(n).vals
        ensures exists w :: w in vs && Registrable(env, w) && env.abs(w).value == k && rm.vals[k] == w
      {
        if k in FilesOrEmpty(r0).vals {
          var w :| w in init && Registrable(env, w) && env.abs(w).value == k && FilesOrEmpty(r0).vals[k] == w;
          assert w in vs;
        } else {
          assert v in vs;
        }
      }
    }
  }

  /** A missing argument adds nothing: `add file` only registers paths that exist. */
  lemma AddFilesSkipsMissing(n: TagNode, env: Env, vs: seq<string>)
    requires ValidNode(n)
    requires forall v :: v in vs ==> !env.stat(v)
    ensures AddFiles(n, env, vs) == n
  {
    if vs != [] {
      AddFilesSkipsMissing(n, env, vs[..|vs| - 1]);
    }
  }

  function AddFilesTo(m: Tags, args: seq<string>, env: Env): Tags {
    if |args| <= 1 || args[0] !in m.vals then m
    else m.Set(args[0], AddFiles(m.vals[args[0]], env, args[1..]))
  }

  /**
   * file.go `add file`: needs a tag and at least one file; the tag must exist;
   * each argument is registered as `AddFile` says; then the store is saved.
   */
  method AddFilesCmd(t: Tager, env: Env, args: seq<string>) returns (saved: bool)
    requires t.Valid()
    modifies t
    ensures t.Valid() && t.current == old(t.current)
    ensures saved == (|args| > 1 && args[0] in old(t.tags).vals)
    ensures t.tags == AddFilesTo(old(t.tags), args, env)
  {
    if |args| <= 1 {
      return false;
    }
    var name := args[0];
    if !t.tags.Has(name) {
      return false;
    }
    var n := t.tags.vals[name];
    var rest := args[1..];
    ghost var m := t.tags;
    SetSame(m, name);
    for i := 0 to |rest|
      invariant t.Valid() && t.current == old(t.current)
      invariant t.tags == m.Set(name, AddFiles(n, env, rest[..i]))
    {
      assert rest[..i + 1][..i] == rest[..i];
      var v := rest[i];
      if !env.stat(v) {
        continue;
      }
      if env.abs(v).None? {
        continue;
      }
      var full := env.abs(v).value;
      var cur := t.tags.vals[name];
      if FilesOrEmpty(cur).Has(full) {
        continue;
      }
      SetSet(m, name, cur, AddFile(cur, env, v));
      t.tags := t.tags.Set(name, WithFiles(cur, FilesOrEmpty(cur).Set(full, v)));
    }
    assert rest[..|rest|] == rest;
    saved := true;
  }

  // ---------------------------------------------------------------- remove file

  /** One argument of `remove file`: skipped when `os.Stat` or `filepath.Abs` fails. */
  function RemoveFile(fm: OMap<string>, env: Env, v: string): OMap<string> {
    if !env.stat(v) || env.abs(v).None? then fm else fm.Remove(env.abs(v).value)
  }

  function RemoveFiles(fm: OMap<string>, env: Env, vs: seq<string>): OMap<string> {
    if vs == [] then fm else RemoveFile(RemoveFiles(fm, env, vs[..|vs| - 1]), env, vs[|vs| - 1])
  }

  /** The absolute paths that `remove file` unregisters. */
  ghost function RemovedPaths(env: Env, vs: seq<string>): set<string> {
    set v | v in vs && Registrable(env, v) :: env.abs(v).value
  }

  lemma RemovedPathsSnoc(env: Env, vs: seq<string>, v: string)
    ensures RemovedPaths(env, vs + [v]) ==
      if Registrable(env, v) then RemovedPaths(env, vs) + {env.abs(v).value} else RemovedPaths(env, vs)
  {
    if Registrable(env, v) {
      assert env.abs(v).value in RemovedPaths(env, vs + [v]);
    }
  }

  lemma {:induction false} RemoveFilesValid(fm: OMap<string>, env: Env, vs: seq<string>)
    requires fm.Valid()
    ensures RemoveFiles(fm, env, vs).Valid()
  {
    if vs != [] {
      RemoveFilesValid(fm, env, vs[..|vs| - 1]);
    }
  }

  /**
   * `remove file` unregisters exactly the absolute paths of the arguments that
   * still exist on disk; the other registrations keep their values.
   */
  lemma {:induction false} RemoveFilesEffect(fm: OMap<string>, env: Env, vs: seq<string>)
    requires fm.Valid()
    ensures RemoveFiles(fm, env, vs).vals == fm.vals - RemovedPaths(env, vs)
  {
    if vs == [] {
      assert RemovedPaths(env, vs) == {};
    } else {
      var init, v := vs[..|vs| - 1], vs[|vs| - 1];
      assert vs == init + [v];
      RemoveFilesEffect(fm, env, init);
      RemovedPathsSnoc(env, init, v);
      if Registrable(env, v) {
        assert fm.vals - (RemovedPaths(env, init) + {env.abs(v).value})
            == (fm.vals - RemovedPaths(env, init)) - {env.abs(v).value};
      }
    }
  }

  /** `remove file` keeps the remaining registrations in their order. */
  lemma {:induction false} RemoveFilesOrder(fm: OMap<string>, env: Env, vs: seq<string>)
    requires fm.Valid()
    ensures RemoveFiles(fm, env, vs).keys == Except(fm.keys, RemovedPaths(env, vs))
  {
    if vs == [] {
      ExceptNone(fm.keys, {});
      assert RemovedPaths(env, vs) == {};
    } else {
      var init, v := vs[..|vs| - 1], vs[|vs| - 1];
      assert vs == init + [v];
      RemoveFilesOrder(fm, env, init);
      RemovedPathsSnoc(env, init, v);
      if Registrable(env, v) {
        ExceptExcept(fm.keys, RemovedPaths(env, init), {env.abs(v).value});
      }
    }
  }

  /**
   * A registration whose file is gone cannot be removed with `remove file`:
   * when every argument naming it no longer exists, it stays.
   */
  lemma RemoveFilesKeepsVanished(fm: OMap<string>, env: Env, vs: seq<string>, k: string)
    requires fm.Valid() && k in fm.vals
    requires forall v :: v in vs && env.abs(v) == Some(k) ==> !env.stat(v)
    ensures k in RemoveFiles(fm, env, vs).vals
  {
    RemoveFilesEffect(fm, env, vs);
  }

  function RemoveFilesFrom(m: Tags, args: seq<string>, env: Env): Tags {
    if |args| <= 1 || args[0] !in m.vals || m.vals[args[0]].files.None? then m
    else
      var n := m.vals[args[0]];
      m.Set(args[0], WithFiles(n, RemoveFiles(n.files.value, env, args[1..])))
  }

  /**
   * file.go `remove file`: needs a tag with a `files` map and at least one
   * file; each argument that exists and has an absolute path is unregistered;
   * the others are skipped; then the store is saved.
   */
  method RemoveFilesCmd(t: Tager, env: Env, args: seq<string>) returns (saved: bool)
    requires t.Valid()
    modifies t
    ensures t.Valid() && t.current == old(t.current)
    ensures saved == (|args| > 1 && args[0] in old(t.tags).vals && old(t.tags).vals[args[0]].files.Some?)
    ensures t.tags == RemoveFilesFrom(old(t.tags), args, env)
  {
    if |args| <= 1 {
      return false;
    }
    var name := args[0];
    if !t.tags.Has(name) || t.tags.vals[name].files.None? {
      return false;
    }
    var n := t.tags.vals[name];
    var fm := n.files.value;
    var rest := args[1..];
    ghost var m := t.tags;
    SetSame(m, name);
    for i := 0 to |rest|
      invariant t.Valid() && t.current == old(t.current)
      invariant t.tags == m.Set(name, WithFiles(n, RemoveFiles(fm, env, rest[..i])))
    {
      assert rest[..i + 1][..i] == rest[..i];
      RemoveFilesValid(fm, env, rest[..i + 1]);
      var v := rest[i];
      if !env.stat(v) {
        continue;
      }
      if env.abs(v).None? {
        continue;
      }
      var cur := t.tags.vals[name];
      SetSet(m, name, cur, WithFiles(n, RemoveFiles(fm, env, rest[..i + 1])));
      t.tags := t.tags.Set(name, WithFiles(cur, cur.files.value.Remove(env.abs(v).value)));
    }
    assert rest[..|rest|] == rest;
    saved := true;
  }

  // ----------------------------------------------------------- autoremove file

  /**
   * file.go `autoremove file`: every target (all tags when there are no
   * arguments) that has a `files` map loses the registrations whose path
   * `os.Stat` cannot find; targets without one are skipped; the store is saved.
   */
  method AutoremoveFilesCmd(t: Tager, env: Env, args: seq<string>)
    requires t.Valid()
    modifies t
    ensures t.Valid() && t.current == old(t.current)
    ensures t.tags == PruneAll(old(t.tags), Targets(old(t.tags), args), Files, env.stat)
  {
    var targets := if |args| == 0 then t.tags.keys else args;
    PruneTargets(t, targets, Files, env.stat);
  }

  /**
   * After `autoremove file` a target keeps exactly its registrations whose
   * path exists, in order; child edges, comments and non-targets are
   * untouched.
   */
  lemma AutoremoveFilesEffect(m: Tags, env: Env, args: seq<string>)
    requires ValidTags(m)
    ensures var r := PruneAll(m, Targets(m, args), Files, env.stat);
      && ValidTags(r) && r.keys == m.keys
      && (forall k :: k in r.vals <==> k in m.vals)
      && (forall k :: k in m.vals ==> r.vals[k].tags == m.vals[k].tags && r.vals[k].comment == m.vals[k].comment)
      && (forall k :: k in m.vals ==> r.vals[k].files.Some? == m.vals[k].files.Some?)
      && (forall k :: k in m.vals && k !in Targets(m, args) ==> r.vals[k] == m.vals[k])
      && (forall k, f :: k in Targets(m, args) && k in m.vals && m.vals[k].files.Some? ==>
            (f in r.vals[k].files.value.vals <==> f in m.vals[k].files.value.vals && env.stat(f)))
  {
    var targets := Targets(m, args);
    PruneAllEffect(m, targets, Files, env.stat);
    forall k | k in m.vals
      ensures var r := PruneAll(m, targets, Files, env.stat);
        && r.vals[k].tags == m.vals[k].tags && r.vals[k].comment == m.vals[k].comment
        && r.vals[k].files.Some? == m.vals[k].files.Some?
        && (k in targets && m.vals[k].files.Some? ==>
              forall f :: f in r.vals[k].files.value.vals <==> f in m.vals[k].files.value.vals && env.stat(f))
    {
      PruneNodeEffect(m.vals[k], Files, env.stat);
      if k in targets && m.vals[k].files.Some? {
        PruneNodeMembers(m.vals[k], Files, env.stat);
      }
    }
  }

  /** With the filesystem unchanged, a second `autoremove file` removes nothing. */
  lemma AutoremoveFilesTwice(m: Tags, env: Env, args: seq<string>)
    requires ValidTags(m)
    ensures var r := PruneAll(m, Targets(m, args), Files, env.stat);
      PruneAll(r, Targets(r, args), Files, env.stat) == r
  {
    PruneAllEffect(m, Targets(m, args), Files, env.stat);
    PruneAllIdempotent(m, Targets(m, args), Files, env.stat);
  }

  // ------------------------------------------------------------------ show file

  /** A visited tag that exists and has a `files` map. */
  predicate HasFiles(root: Tags, v: Visit) {
    v.name in root.vals && root.vals[v.name].files.Some?
  }

  /**
   * The list the recursive `show file` keeps for one tag: each visit with a
   * `files` map replaces the list, so the last such visit wins.
   */
  function LastFiles(root: Tags, vs: seq<Visit>, own: seq<string>): seq<string> {
    if vs == [] then own
    else if HasFiles(root, vs[|vs| - 1]) then FileKeys(root.vals[vs[|vs| - 1].name])
    else LastFiles(root, vs[..|vs| - 1], own)
  }

  /** The index of the last visit that has a `files` map, or -1 when there is none. */
  function LastWithFiles(root: Tags, vs: seq<Visit>): (i: int)
    ensures -1 <= i < |vs|
    ensures i >= 0 ==> HasFiles(root, vs[i])
    ensures forall j :: i < j < |vs| ==> !HasFiles(root, vs[j])
  {
    if vs == [] then -1
    else if HasFiles(root, vs[|vs| - 1]) then |vs| - 1
    else LastWithFiles(root, vs[..|vs| - 1])
  }

  /**
   * The list is the file keys of the last visited tag that has a `files` map,
   * or the tag's own file keys when no visited tag has one.
   */
  lemma LastFilesIsOneNode(root: Tags, vs: seq<Visit>, own: seq<string>)
    ensures (exists i :: 0 <= i < |vs| && HasFiles(root, vs[i])) ==>
      exists i :: 0 <= i < |vs| && HasFiles(root, vs[i])
        && (forall j :: i < j < |vs| ==> !HasFiles(root, vs[j]))
        && LastFiles(root, vs, own) == FileKeys(root.vals[vs[i].name])
    ensures (forall i :: 0 <= i < |vs| ==> !HasFiles(root, vs[i])) ==> LastFiles(root, vs, own) == own
  {
    var i := LastWithFiles(root, vs);
    LastFilesAt(root, vs, own);
    if i >= 0 {
      assert HasFiles(root, vs[i]) && LastFiles(root, vs, own) == FileKeys(root.vals[vs[i].name]);
    }
  }

  lemma {:induction false} LastFilesAt(root: Tags, vs: seq<Visit>, own: seq<string>)
    ensures var i := LastWithFiles(root, vs);
      LastFiles(root, vs, own) == if i < 0 then own else FileKeys(root.vals[vs[i].name])
  {
    if vs != [] && !HasFiles(root, vs[|vs| - 1]) {
      var front := vs[..|vs| - 1];
      LastFilesAt(root, front, own);
      var i := LastWithFiles(root, front);
      assert i >= 0 ==> front[i] == vs[i];
    }
  }

  /** The loop the `recNestTag` callback amounts to for one tag of `show file -r`. */
  method CollectLast(root: Tags, vs: seq<Visit>, own: seq<string>) returns (list: seq<string>)
    ensures list == LastFiles(root, vs, own)
  {
    list := own;
    for i := 0 to |vs|
      invariant list == LastFiles(root, vs[..i], own)
    {
      assert vs[..i + 1][..i] == vs[..i];
      if HasFiles(root, vs[i]) {
        list := FileKeys(root.vals[vs[i].name]);
      }
    }
    assert vs[..|vs|] == vs;
  }

  /** One tag's list in `show file`, as written. */
  function ShowList(root: Tags, n: TagNode, recursive: bool): seq<string> {
    if recursive then LastFiles(root, Traverse(root, Some(n), ""), FileKeys(n)) else FileKeys(n)
  }

  /** One tag's list as `getFiles` builds it: its own file keys, then every visited tag's. */
  function ShowListFixed(root: Tags, n: TagNode, recursive: bool): seq<string> {
    if recursive then FileKeys(n) + VisitedFiles(root, Traverse(root, Some(n), "")) else FileKeys(n)
  }

  /** The lists of the arguments that are tags, in argument order; unknown tags are skipped. */
  function TagLists(root: Tags, args: seq<string>, recursive: bool, fixed: bool): seq<seq<string>> {
    if args == [] then []
    else
      var ls := TagLists(root, args[..|args| - 1], recursive, fixed);
      var v := args[|args| - 1];
      if v !in root.vals then ls
      else ls + [if fixed then ShowListFixed(root, root.vals[v], recursive) else ShowList(root, root.vals[v], recursive)]
  }

  /** What `show file` prints: nothing without lists, else the AND of the lists. */
  function ShowFilesOutput(lists: seq<seq<string>>): Option<seq<string>> {
    if lists == [] then None else Some(AndAll(lists[0], lists[1..]))
  }

  /**
   * The output of `show file` is exactly the files of the first known tag's
   * list that are in every other known tag's list, in that order and without
   * de-duplication; with no known tag nothing is printed.
   */
  lemma ShowFilesOutputMeans(lists: seq<seq<string>>)
    ensures ShowFilesOutput(lists).None? <==> lists == []
    ensures lists != [] ==> ShowFilesOutput(lists).value == KeepInAll(lists[0], lists[1..])
    ensures lists != [] ==> forall x :: x in ShowFilesOutput(lists).value <==> InAll(x, lists)
  {
    if lists != [] {
      AndAllIsFilter(lists[0], lists[1..]);
      KeepInAllMembers(lists[0], lists[1..]);
      forall x ensures x in lists[0] && InAll(x, lists[1..]) <==> InAll(x, lists) {
        if InAll(x, lists) {
          forall i | 0 <= i < |lists[1..]| ensures x in lists[1..][i] {
            assert lists[1..][i] == lists[i + 1];
          }
        }
        if x in lists[0] && InAll(x, lists[1..]) {
          forall i | 0 <= i < |lists| ensures x in lists[i] {
            if i > 0 {
              assert lists[1..][i - 1] == lists[i];
            }
          }
        }
      }
    }
  }

  /**
   * file.go `show file`, as written: with no arguments the help is shown
   * (`None`); each argument that is a tag contributes its list (recursively,
   * the last visited tag with files replaces it), unknown tags are skipped;
   * the printed lines are the progressive AND of those lists.
   */
  method ShowFiles(root: Tags, args: seq<string>, recursive: bool) returns (out: Option<seq<string>>)
    ensures args == [] ==> out.None?
    ensures args != [] ==> out == ShowFilesOutput(TagLists(root, args, recursive, false))
  {
    if |args| == 0 {
      return None;
    }
    var files: seq<seq<string>> := [];
    for i := 0 to |args|
      invariant files == TagLists(root, args[..i], recursive, false)
    {
      assert args[..i + 1][..i] == args[..i];
      var v := args[i];
      if v !in root.vals {
        continue;
      }
      var n := root.vals[v];
      var list := FileKeys(n);
      if recursive {
        list := CollectLast(root, Traverse(root, Some(n), ""), list);
      }
      files := files + [list];
    }
    assert args[..|args|] == args;
    if |files| == 0 {
      return None;
    }
    var and := files[0];
    for j := 1 to |files|
      invariant and == AndAll(files[0], files[1..j])
    {
      assert files[1..j + 1][..j - 1] == files[1..j];
      and := AndStrings(and, files[j]);
    }
    assert files[1..|files|] == files[1..];
    out := Some(and);
  }

  /**
   * The recursive `show file` keeps a single tag's file list: when a visited
   * descendant has files, the tag's own files are dropped.  Exhibited on a tag
   * `a` with the file "/x" and one child `b` with the file "/y": the list for
   * `a` is ["/y"], where `getFiles` gives ["/x", "/y"].
   */
  lemma ShowListReplaces()
    ensures var fa := OMap(["/x"], map["/x" := "x"]);
      var fb := OMap(["/y"], map["/y" := "y"]);
      var a := TagNode(Some(OMap(["b"], map["b" := "b"])), Some(fa), None);
      var b := TagNode(None, Some(fb), None);
      var root := OMap(["a", "b"], map["a" := a, "b" := b]);
      && ShowList(root, a, true) == ["/y"]
      && ShowListFixed(root, a, true) == ["/x", "/y"]
  {
    var fa := OMap(["/x"], map["/x" := "x"]);
    var fb := OMap(["/y"], map["/y" := "y"]);
    var a := TagNode(Some(OMap(["b"], map["b" := "b"])), Some(fa), None);
    var b := TagNode(None, Some(fb), None);
    var root := OMap(["a", "b"], map["a" := a, "b" := b]);
    var vs := Traverse(root, Some(a), "");
    assert |root.keys| == 2;
    assert vs == VisitChildren(root, ["b"], "", 1);
    assert Lookup(root, "b") == Some(b);
    assert RecNestTag(root, Some(b), "/b", 1) == [];
    assert ["b"][1..] == [];
    assert VisitChildren(root, [], "", 1) == [];
    assert vs == [Visit("b", "")];
    assert LastFiles(root, vs, ["/x"]) == ["/y"];
    assert VisitedFiles(root, vs) == ["/y"];
  }

  /**
   * The corrected list: with recursion every visited tag's files are added
   * after the tag's own, so none of the tag's own files is lost and the list
   * is the one `getFiles` computes.
   */
  lemma ShowListFixedIsGetFiles(root: Tags, name: string, recursive: bool)
    requires name in root.vals && name != "."
    ensures FileKeys(root.vals[name]) <= ShowListFixed(root, root.vals[name], recursive)
    ensures GetFiles(root, None, name, recursive) == Ok(ShowListFixed(root, root.vals[name], recursive))
  {
  }

  /**
   * file.go `show file` with the recursive list corrected: the same loop, with
   * each tag contributing its `getFiles` list.
   */
  method ShowFilesFixed(root: Tags, args: seq<string>, recursive: bool) returns (out: Option<seq<string>>)
    ensures args == [] ==> out.None?
    ensures args != [] ==> out == ShowFilesOutput(TagLists(root, args, recursive, true))
  {
    if |args| == 0 {
      return None;
    }
    var files: seq<seq<string>> := [];
    for i := 0 to |args|
      invariant files == TagLists(root, args[..i], recursive, true)
    {
      assert args[..i + 1][..i] == args[..i];
      var v := args[i];
      if v !in root.vals {
        continue;
      }
      var n := root.vals[v];
      var list := FileKeys(n);
      if recursive {
        list := list + VisitedFiles(root, Traverse(root, Some(n), ""));
      }
      files := files + [list];
    }
    assert args[..|args|] == args;
    if |files| == 0 {
      return None;
    }
    var and := files[0];
    for j := 1 to |files|
      invariant and == AndAll(files[0], files[1..j])
    {
      assert files[1..j + 1][..j - 1] == files[1..j];
      and := AndStrings(and, files[j]);
    }
    assert files[1..|files|] == files[1..];
    out := Some(and);
  }
}
