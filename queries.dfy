/**
 * The read-only queries of struct.go built on `getTag`, `getChildTags` and
 * `getFiles`: the AND of several tags' files, and the dangling child tags and
 * files that `info` reports.  None of them changes the store.
 */
module Queries {
  import opened Wrappers
  import opened Lists
  import opened OrderedMap
  import opened TagGraph
  import opened Store
  import opened FileSystem
  import opened Autoremove
  import opened TagCommands
  import opened FileCommands

  // ---------------------------------------------------------------- getFilesAND

  /** The `getFiles` lists of the tags, in order; the first tag that does not resolve fails the whole. */
  function FileLists(root: Tags, current: Option<string>, tags: seq<string>, recursive: bool): Result<seq<seq<string>>, Error> {
    if tags == [] then Ok([])
    else
      match FileLists(root, current, tags[..|tags| - 1], recursive)
      case Err(e) => Err(e)
      case Ok(ls) =>
        var v := tags[|tags| - 1];
        match GetFiles(root, current, v, recursive)
        case Err(_) => Err(NoSuchTag(v))
        case Ok(fs) => Ok(ls + [fs])
  }

  /**
   * struct.go `getFilesAND`: the AND of the tags' file lists without repeats;
   * no tag at all finds nothing.
   */
  function FilesAND(root: Tags, current: Option<string>, tags: seq<string>, recursive: bool): (r: Result<seq<string>, Error>)
    ensures tags == [] ==> r == Err(NothingFound)
    ensures r.Ok? ==> NoDup(r.value)
  {
    match FileLists(root, current, tags, recursive)
    case Err(e) => Err(e)
    case Ok(ls) =>
      if ls == [] then Err(NothingFound)
      else
        UniqueNoDup(AndAll(ls[0], ls[1..]));
        Ok(Unique(AndAll(ls[0], ls[1..])))
  }

  /**
   * The lists are collected until the first tag that fails to resolve, which
   * is the one reported; when all resolve, there is one list per tag.
   */
  lemma FileListsEffect(root: Tags, current: Option<string>, tags: seq<string>, recursive: bool)
    ensures var r := FileLists(root, current, tags, recursive);
      && (r.Ok? <==> forall i :: 0 <= i < |tags| ==> GetFiles(root, current, tags[i], recursive).Ok?)
      && (r.Ok? ==>
            && |r.value| == |tags|
            && forall i :: 0 <= i < |tags| ==> r.value[i] == GetFiles(root, current, tags[i], recursive).value)
      && (r.Err? ==>
            exists j :: (0 <= j < |tags| && GetFiles(root, current, tags[j], recursive).Err?
              && r.error == NoSuchTag(tags[j])
              && forall i :: 0 <= i < j ==> GetFiles(root, current, tags[i], recursive).Ok?))
  {
    FileListsOk(root, current, tags, recursive);
    FileListsErr(root, current, tags, recursive);
  }

  lemma {:induction false} FileListsOk(root: Tags, current: Option<string>, tags: seq<string>, recursive: bool)
    ensures var r := FileLists(root, current, tags, recursive);
      && (r.Ok? <==> forall i :: 0 <= i < |tags| ==> GetFiles(root, current, tags[i], recursive).Ok?)
      && (r.Ok? ==>
            && |r.value| == |tags|
            && forall i :: 0 <= i < |tags| ==> r.value[i] == GetFiles(root, current, tags[i], recursive).value)
  {
    if tags != [] {
      var init, v := tags[..|tags| - 1], tags[|tags| - 1];
      FileListsOk(root, current, init, recursive);
      assert forall i :: 0 <= i < |tags| - 1 ==> tags[i] == init[i];
    }
  }

  lemma {:induction false} FileListsErr(root: Tags, current: Option<string>, tags: seq<string>, recursive: bool)
    ensures var r := FileLists(root, current, tags, recursive);
      r.Err? ==>
        exists j :: (0 <= j < |tags| && GetFiles(root, current, tags[j], recursive).Err?
          && r.error == NoSuchTag(tags[j])
          && forall i :: 0 <= i < j ==> GetFiles(root, current, tags[i], recursive).Ok?)
  {
    if tags != [] {
      var init := tags[..|tags| - 1];
      var r0 := FileLists(root, current, init, recursive);
      if r0.Err? {
        FileListsErr(root, current, init, recursive);
        var j :| 0 <= j < |init| && GetFiles(root, current, init[j], recursive).Err?
          && r0.error == NoSuchTag(init[j])
          && forall i :: 0 <= i < j ==> GetFiles(root, current, init[i], recursive).Ok?;
        assert tags[j] == init[j];
        assert forall i :: 0 <= i < j ==> tags[i] == init[i];
      } else if GetFiles(root, current, tags[|tags| - 1], recursive).Err? {
        FileListsOk(root, current, init, recursive);
        assert forall i :: 0 <= i < |tags| - 1 ==> tags[i] == init[i];
      }
    }
  }

  /**
   * `getFilesAND` fails exactly when no tag is given (nothing found) or some
   * tag does not resolve (the first such tag is named).
   */
  lemma FilesANDErrors(root: Tags, current: Option<string>, tags: seq<string>, recursive: bool)
    ensures var r := FilesAND(root, current, tags, recursive);
      && (r.Err? <==> tags == [] || exists v :: v in tags && GetTag(root, current, v).Err?)
      && (tags == [] ==> r == Err(NothingFound))
      && (r.Err? && tags != [] ==> exists v :: v in tags && GetTag(root, current, v).Err? && r.error == NoSuchTag(v))
  {
    FileListsEffect(root, current, tags, recursive);
    if exists v :: v in tags && GetTag(root, current, v).Err? {
      var v :| v in tags && GetTag(root, current, v).Err?;
      var i :| 0 <= i < |tags| && tags[i] == v;
    }
  }

  /**
   * A successful `getFilesAND` is the first tag's files that every tag has,
   * without repeats, in the order of their first occurrence in the first
   * tag's list.
   */
  lemma FilesANDMeans(root: Tags, current: Option<string>, tags: seq<string>, recursive: bool)
    requires FilesAND(root, current, tags, recursive).Ok?
    ensures var r := FilesAND(root, current, tags, recursive).value;
      var ls := FileLists(root, current, tags, recursive).value;
      && |ls| == |tags| > 0
      && r == Unique(KeepInAll(ls[0], ls[1..]))
      && NoDup(r)
      && (forall i :: 0 <= i < |tags| ==>
            GetFiles(root, current, tags[i], recursive).Ok? && ls[i] == GetFiles(root, current, tags[i], recursive).value)
      && (forall x :: x in r <==> forall i :: 0 <= i < |tags| ==> x in ls[i])
  {
    FileListsEffect(root, current, tags, recursive);
    var ls := FileLists(root, current, tags, recursive).value;
    var a := AndAll(ls[0], ls[1..]);
    ShowFilesOutputMeans(ls);
    AndAllIsFilter(ls[0], ls[1..]);
    UniqueNoDup(a);
    UniqueMembers(a);
  }

  /** For a single tag, `getFilesAND` is that tag's file list without repeats. */
  lemma FilesANDSingle(root: Tags, current: Option<string>, tag: string, recursive: bool)
    requires GetTag(root, current, tag).Ok?
    ensures FilesAND(root, current, [tag], recursive) == Ok(Unique(GetFiles(root, current, tag, recursive).value))
  {
    assert [tag][..0] == [];
    assert FileLists(root, current, [], recursive) == Ok([]);
    var fs := GetFiles(root, current, tag, recursive).value;
    assert [] + [fs] == [fs];
    assert FileLists(root, current, [tag], recursive) == Ok([fs]);
    assert [fs][1..] == [];
  }

  /**
   * struct.go `getFilesAND`: collect every tag's list, failing on the first
   * tag that does not resolve and when there is none; AND them in order with
   * `andStrings`, then drop repeats with `uniqueStrings`.
   */
  method GetFilesAND(t: Tager, tags: seq<string>, recursive: bool) returns (r: Result<seq<string>, Error>)
    ensures r == FilesAND(t.tags, t.current, tags, recursive)
  {
    var files: seq<seq<string>> := [];
    for i := 0 to |tags|
      invariant FileLists(t.tags, t.current, tags[..i], recursive) == Ok(files)
    {
      assert tags[..i + 1][..i] == tags[..i];
      var v := tags[i];
      var fs := GetFiles(t.tags, t.current, v, recursive);
      if fs.Err? {
        ErrorPersists(t.tags, t.current, tags, i + 1, recursive);
        return Err(NoSuchTag(v));
      }
      files := files + [fs.value];
    }
    assert tags[..|tags|] == tags;
    if |files| == 0 {
      return Err(NothingFound);
    }
    var and := files[0];
    for j := 1 to |files|
      invariant and == AndAll(files[0], files[1..j])
    {
      assert files[1..j + 1][..j - 1] == files[1..j];
      and := AndStrings(and, files[j]);
    }
    assert files[1..|files|] == files[1..];
    and := UniqueStrings(and);
    r := Ok(and);
  }

  /** Once a prefix of the tags fails, every longer prefix fails the same way. */
  lemma {:induction false} ErrorPersists(root: Tags, current: Option<string>, tags: seq<string>, k: nat, recursive: bool)
    requires k <= |tags| && FileLists(root, current, tags[..k], recursive).Err?
    ensures FileLists(root, current, tags, recursive) == FileLists(root, current, tags[..k], recursive)
    decreases |tags| - k
  {
    if k < |tags| {
      assert tags[..k + 1][..k] == tags[..k];
      ErrorPersists(root, current, tags, k + 1, recursive);
    } else {
      assert tags[..k] == tags;
    }
  }

  // --------------------------------------------------------- autoremovableTags

  /** The names among `ns` that `getTag` cannot resolve, in order. */
  function Unresolved(root: Tags, current: Option<string>, ns: seq<string>): seq<string> {
    if ns == [] then []
    else
      var v := ns[|ns| - 1];
      Unresolved(root, current, ns[..|ns| - 1]) + if GetTag(root, current, v).Err? then [v] else []
  }

  /** One more name: it is reported iff it does not resolve. */
  lemma UnresolvedStep(root: Tags, current: Option<string>, ns: seq<string>, i: nat)
    requires i < |ns|
    ensures Unresolved(root, current, ns[..i + 1])
      == Unresolved(root, current, ns[..i]) + if GetTag(root, current, ns[i]).Err? then [ns[i]] else []
  {
    assert ns[..i + 1][..i] == ns[..i];
  }

  /** The unresolved names are an order-preserving filter of the input. */
  lemma {:induction false} UnresolvedIsExcept(root: Tags, current: Option<string>, ns: seq<string>)
    ensures Unresolved(root, current, ns) == Except(ns, set v | v in ns && GetTag(root, current, v).Ok?)
    ensures forall x :: x in Unresolved(root, current, ns) <==> x in ns && GetTag(root, current, x).Err?
  {
    var ok := set v | v in ns && GetTag(root, current, v).Ok?;
    if ns != [] {
      var init, v := ns[..|ns| - 1], ns[|ns| - 1];
      var ok0 := set x | x in init && GetTag(root, current, x).Ok?;
      UnresolvedIsExcept(root, current, init);
      ExceptMembers(ns, ok);
      ExceptMembers(init, ok0);
      ExceptMembers(init, ok);
      assert Except(init, ok0) == Except(init, ok) by {
        ExceptSameOn(init, ok0, ok);
      }
      assert Except(ns, ok) == Except(init, ok) + (if v in ok then [] else [v]);
    }
  }

  /** Two drop sets that agree on the elements of `s` drop the same elements. */
  lemma {:induction false} ExceptSameOn(s: seq<string>, a: set<string>, b: set<string>)
    requires forall x :: x in s ==> (x in a <==> x in b)
    ensures Except(s, a) == Except(s, b)
  {
    if s != [] {
      ExceptSameOn(s[..|s| - 1], a, b);
    }
  }

  /** struct.go `autoremovableTags`, as a value. */
  function AutoremovableTagsOf(root: Tags, current: Option<string>, tag: string, recursive: bool): Result<seq<string>, Error> {
    match GetChildTags(root, current, tag, recursive)
    case Err(_) => Err(NoSuchTag(tag))
    case Ok(ts) => Ok(Unresolved(root, current, ts))
  }

  /**
   * struct.go `autoremovableTags`: the child tags (paths, when recursive)
   * that `getTag` cannot resolve, in order; an unknown tag is an error.
   */
  method AutoremovableTags(t: Tager, tag: string, recursive: bool) returns (r: Result<seq<string>, Error>)
    ensures r == AutoremovableTagsOf(t.tags, t.current, tag, recursive)
  {
    var root, current := t.tags, t.current;
    var tags := GetChildTags(root, current, tag, recursive);
    if tags.Err? {
      return Err(NoSuchTag(tag));
    }
    var ts := tags.value;
    var result: seq<string> := [];
    for i := 0 to |ts|
      invariant result == Unresolved(root, current, ts[..i])
    {
      UnresolvedStep(root, current, ts, i);
      var v := ts[i];
      if GetTag(root, current, v).Ok? {
        continue;
      }
      result := result + [v];
    }
    assert ts[..|ts|] == ts;
    r := Ok(result);
  }

  /**
   * Without recursion, `autoremovableTags` fails exactly for an unknown tag,
   * and otherwise reports, in order, exactly the child names that do not
   * resolve.
   */
  lemma AutoremovableTagsMeans(root: Tags, current: Option<string>, tag: string)
    ensures var r := AutoremovableTagsOf(root, current, tag, false);
      && (r.Err? <==> GetTag(root, current, tag).Err?)
      && (r.Err? ==> r.error == NoSuchTag(tag))
      && (r.Ok? ==> var ks := ChildKeys(root.vals[GetTag(root, current, tag).value]);
            && r.value == Except(ks, set v | v in ks && GetTag(root, current, v).Ok?)
            && forall x :: x in r.value <==> x in ks && GetTag(root, current, x).Err?)
  {
    if GetTag(root, current, tag).Ok? {
      UnresolvedIsExcept(root, current, ChildKeys(root.vals[GetTag(root, current, tag).value]));
    }
  }

  /**
   * `autoremove tags` on a tag removes exactly the children that
   * `autoremovableTags` reports for it (child names other than the "." alias).
   */
  lemma AutoremoveRemovesReported(m: Tags, current: Option<string>, k: string)
    requires ValidTags(m) && k in m.vals && k != "." && m.vals[k].tags.Some?
    requires "." !in m.vals[k].tags.value.vals
    ensures var r := PruneAll(m, Targets(m, [k]), ChildTags, InSet(m.vals.Keys));
      var reported := AutoremovableTagsOf(m, current, k, false);
      && reported.Ok?
      && k in r.vals && r.vals[k].tags.Some?
      && forall c :: c in r.vals[k].tags.value.vals <==> c in m.vals[k].tags.value.vals && c !in reported.value
  {
    var keep := InSet(m.vals.Keys);
    var cm := m.vals[k].tags.value;
    PruneAllEffect(m, [k], ChildTags, keep);
    PruneNodeMembers(m.vals[k], ChildTags, keep);
    UnresolvedIsExcept(m, current, cm.keys);
    assert AutoremovableTagsOf(m, current, k, false) == Ok(Unresolved(m, current, cm.keys));
  }

  // -------------------------------------------------------- autoremovableFiles

  /** The files of `fs` whose `fileExists` answer is `existing`, in order. */
  function SelectFiles(env: Env, fs: seq<string>, existing: bool): seq<string> {
    if fs == [] then []
    else
      var v := fs[|fs| - 1];
      SelectFiles(env, fs[..|fs| - 1], existing) + if FileExists(env, v) == existing then [v] else []
  }

  lemma {:induction false} SelectFilesMembers(env: Env, fs: seq<string>, existing: bool)
    ensures forall x :: x in SelectFiles(env, fs, existing) <==> x in fs && FileExists(env, x) == existing
  {
    if fs != [] {
      SelectFilesMembers(env, fs[..|fs| - 1], existing);
      assert fs == fs[..|fs| - 1] + [fs[|fs| - 1]];
    }
  }

  /** Selecting from one more file adds it exactly when its answer is the wanted one. */
  lemma SelectFilesSnoc(env: Env, fs: seq<string>, existing: bool)
    requires fs != []
    ensures SelectFiles(env, fs, existing) == SelectFiles(env, fs[..|fs| - 1], existing)
      + if FileExists(env, fs[|fs| - 1]) == existing then [fs[|fs| - 1]] else []
  {
  }

  /** The two selections split the list: every file is in exactly one, as often as in the list. */
  lemma {:induction false} SelectFilesPartition(env: Env, fs: seq<string>)
    ensures multiset(SelectFiles(env, fs, true)) + multiset(SelectFiles(env, fs, false)) == multiset(fs)
  {
    if fs != [] {
      var front := fs[..|fs| - 1];
      SelectFilesPartition(env, front);
      SelectFilesSnoc(env, fs, true);
      SelectFilesSnoc(env, fs, false);
      PartitionStep(SelectFiles(env, front, true), SelectFiles(env, front, false), fs, FileExists(env, fs[|fs| - 1]));
    }
  }

  /** Sending the last element to one side extends a split of the rest to a split of the whole. */
  lemma PartitionStep(yes: seq<string>, no: seq<string>, fs: seq<string>, toYes: bool)
    requires fs != [] && multiset(yes) + multiset(no) == multiset(fs[..|fs| - 1])
    ensures toYes ==> multiset(yes + [fs[|fs| - 1]]) + multiset(no) == multiset(fs)
    ensures !toYes ==> multiset(yes) + multiset(no + [fs[|fs| - 1]]) == multiset(fs)
  {
    assert fs == fs[..|fs| - 1] + [fs[|fs| - 1]];
  }

  /** The loop of `autoremovableFiles` over one list. */
  method FilterFiles(env: Env, fs: seq<string>, existing: bool) returns (result: seq<string>)
    ensures result == SelectFiles(env, fs, existing)
  {
    result := [];
    for i := 0 to |fs|
      invariant result == SelectFiles(env, fs[..i], existing)
    {
      assert fs[..i + 1][..i] == fs[..i];
      if FileExists(env, fs[i]) != existing {
        continue;
      }
      result := result + [fs[i]];
    }
    assert fs[..|fs|] == fs;
  }

  /** `autoremovableFiles` as a value: the `getFiles` list filtered by whether each file exists. */
  function AutoremovableFilesOf(root: Tags, current: Option<string>, env: Env, tag: string, recursive: bool, existing: bool): Result<seq<string>, Error> {
    match GetFiles(root, current, tag, recursive)
    case Err(_) => Err(NoSuchTag(tag))
    case Ok(fs) => Ok(SelectFiles(env, fs, existing))
  }

  /**
   * struct.go `autoremovableFiles`, as written: it skips the files that do
   * NOT exist and reports the ones that do.
   */
  method AutoremovableFiles(t: Tager, env: Env, tag: string, recursive: bool) returns (r: Result<seq<string>, Error>)
    ensures r == AutoremovableFilesOf(t.tags, t.current, env, tag, recursive, true)
  {
    var files := GetFiles(t.tags, t.current, tag, recursive);
    if files.Err? {
      return Err(NoSuchTag(tag));
    }
    var result := FilterFiles(env, files.value, true);
    r := Ok(result);
  }

  /** struct.go `autoremovableFiles` corrected: it reports the files that do not exist. */
  method AutoremovableFilesFixed(t: Tager, env: Env, tag: string, recursive: bool) returns (r: Result<seq<string>, Error>)
    ensures r == AutoremovableFilesOf(t.tags, t.current, env, tag, recursive, false)
  {
    var files := GetFiles(t.tags, t.current, tag, recursive);
    if files.Err? {
      return Err(NoSuchTag(tag));
    }
    var result := FilterFiles(env, files.value, false);
    r := Ok(result);
  }

  /**
   * What the two forms report: the as-written one exactly the existing files
   * of the tag's list, the corrected one exactly the missing ones; together
   * they account for every entry of the list.
   */
  lemma AutoremovableFilesMeans(root: Tags, current: Option<string>, env: Env, tag: string, recursive: bool)
    ensures var asWritten := AutoremovableFilesOf(root, current, env, tag, recursive, true);
      var fixed := AutoremovableFilesOf(root, current, env, tag, recursive, false);
      var fs := GetFiles(root, current, tag, recursive);
      && (asWritten.Err? <==> GetTag(root, current, tag).Err?) && (fixed.Err? <==> GetTag(root, current, tag).Err?)
      && (fs.Ok? ==>
            && (forall x :: x in asWritten.value <==> x in fs.value && FileExists(env, x))
            && (forall x :: x in fixed.value <==> x in fs.value && !FileExists(env, x))
            && multiset(asWritten.value) + multiset(fixed.value) == multiset(fs.value))
  {
    var fs := GetFiles(root, current, tag, recursive);
    if fs.Ok? {
      SelectFilesMembers(env, fs.value, true);
      SelectFilesMembers(env, fs.value, false);
      SelectFilesPartition(env, fs.value);
    }
  }

  /**
   * The inverted filter, exhibited: when nothing exists on disk, a tag whose
   * only registered file is therefore gone has no broken link according to
   * `autoremovableFiles`, while the corrected form reports that file.
   */
  lemma AutoremovableFilesInverted(env: Env)
    requires forall p :: !env.stat(p)
    ensures var a := TagNode(None, Some(OMap(["/gone"], map["/gone" := "gone"])), None);
      var root := OMap(["a"], map["a" := a]);
      && AutoremovableFilesOf(root, None, env, "a", false, true) == Ok([])
      && AutoremovableFilesOf(root, None, env, "a", false, false) == Ok(["/gone"])
  {
    var a := TagNode(None, Some(OMap(["/gone"], map["/gone" := "gone"])), None);
    var root := OMap(["a"], map["a" := a]);
    assert GetTag(root, None, "a") == Ok("a");
    assert FileKeys(a) == ["/gone"];
    assert GetFiles(root, None, "a", false) == Ok(["/gone"]);
    assert ["/gone"][..0] == [];
    assert !FileExists(env, "/gone");
    assert SelectFiles(env, [], true) == [];
    assert SelectFiles(env, ["/gone"], true) == [];
    assert SelectFiles(env, ["/gone"], false) == ["/gone"];
  }
}
