/**
 * The configuration object of struct.go's `Tager` (and main.go's global
 * `config`): the store `root.tags` and the optional `root.current`, updated in
 * place by the commands.  Loading and saving the JSON snapshot are not part of
 * this model; the constructor stands for a loaded snapshot.
 */
module Store {
  import opened Wrappers
  import opened OrderedMap
  import opened TagGraph
  import opened FileSystem

  class Tager {
    var tags: Tags
    var current: Option<string>

    ghost predicate Valid()
      reads this
    {
      ValidTags(tags)
    }

    constructor (tags: Tags, current: Option<string>)
      requires ValidTags(tags)
      ensures Valid() && this.tags == tags && this.current == current
    {
      this.tags := tags;
      this.current := current;
    }
  }

  /** The node with its `files` map replaced. */
  function WithFiles(n: TagNode, fm: OMap<string>): TagNode {
    n.(files := Some(fm))
  }

  /** `Child("files")` as a map that `Set` may create. */
  function FilesOrEmpty(n: TagNode): (fm: OMap<string>)
    ensures ValidNode(n) ==> fm.Valid()
  {
    if n.files.Some? then n.files.value else Empty()
  }

  /** Writing a valid node under any name keeps the store valid. */
  lemma SetKeepsValid(m: Tags, k: string, n: TagNode)
    requires ValidTags(m) && ValidNode(n)
    ensures ValidTags(m.Set(k, n))
  {
  }

  // ----------------------------------------------------------------- tagAddFile

  /**
   * One match of struct.go `tagAddFile`: register `file` under its absolute
   * path unless that path is there; the `files` map is created by the first
   * registration.
   */
  function AddMatch(n: TagNode, env: Env, file: string): (r: TagNode)
    ensures ValidNode(n) ==> ValidNode(r)
  {
    var full := AbsOrEmpty(env, file);
    if FilesOrEmpty(n).Has(full) then n else WithFiles(n, FilesOrEmpty(n).Set(full, file))
  }

  function AddMatches(n: TagNode, env: Env, files: seq<string>): (r: TagNode)
    ensures ValidNode(n) ==> ValidNode(r)
  {
    if files == [] then n
    else AddMatch(AddMatches(n, env, files[..|files| - 1]), env, files[|files| - 1])
  }

  /** All matches of all globs, in order. */
  function AddGlobs(n: TagNode, env: Env, globs: seq<string>): (r: TagNode)
    ensures ValidNode(n) ==> ValidNode(r)
  {
    if globs == [] then n
    else AddMatches(AddGlobs(n, env, globs[..|globs| - 1]), env, env.glob(globs[|globs| - 1]))
  }

  /**
   * Registering matches never overwrites a key and touches nothing but the
   * `files` map; every match's absolute path is a key afterwards; and every new
   * key is the absolute path of some match, with that match as its value.
   */
  lemma {:induction false} AddMatchesRegisters(n: TagNode, env: Env, files: seq<string>)
    requires ValidNode(n)
    ensures var r := AddMatches(n, env, files);
      var fm, rm := FilesOrEmpty(n), FilesOrEmpty(r);
      && ValidNode(r) && r.tags == n.tags && r.comment == n.comment
      && fm.keys <= rm.keys
      && (forall k :: k in fm.vals ==> k in rm.vals && rm.vals[k] == fm.vals[k])
      && (forall f :: f in files ==> AbsOrEmpty(env, f) in rm.vals)
      && (forall k :: k in rm.vals && k !in fm.vals ==>
            exists f :: f in files && AbsOrEmpty(env, f) == k && rm.vals[k] == f)
  {
    if files != [] {
      var init, f := files[..|files| - 1], files[|files| - 1];
      AddMatchesRegisters(n, env, init);
      var r0 := AddMatches(n, env, init);
      var rm := FilesOrEmpty(AddMatches(n, env, files));
      forall k | k in rm.vals && k !in FilesOrEmpty(n).vals
        ensures exists g :: g in files && AbsOrEmpty(env, g) == k && rm.vals[k] == g
      {
        if k in FilesOrEmpty(r0).vals {
          var g :| g in init && AbsOrEmpty(env, g) == k && FilesOrEmpty(r0).vals[k] == g;
          assert g in files;
        } else {
          assert f in files;
        }
      }
    }
  }

  lemma {:induction false} AddGlobsRegisters(n: TagNode, env: Env, globs: seq<string>)
    requires ValidNode(n)
    ensures var r := AddGlobs(n, env, globs);
      var fm, rm := FilesOrEmpty(n), FilesOrEmpty(r);
      && ValidNode(r) && r.tags == n.tags && r.comment == n.comment
      && fm.keys <= rm.keys
      && (forall k :: k in fm.vals ==> k in rm.vals && rm.vals[k] == fm.vals[k])
      && (forall g, f :: g in globs && f in env.glob(g) ==> AbsOrEmpty(env, f) in rm.vals)
  {
    if globs != [] {
      var init, g := globs[..|globs| - 1], globs[|globs| - 1];
      AddGlobsRegisters(n, env, init);
      AddMatchesRegisters(AddGlobs(n, env, init), env, env.glob(g));
    }
  }

  /** The inner loop of `tagAddFile`, over the matches of one glob. */
  method AddMatchesTo(t: Tager, env: Env, name: string, files: seq<string>)
    requires t.Valid() && name in t.tags.vals
    modifies t
    ensures t.Valid() && t.current == old(t.current)
    ensures t.tags == old(t.tags).Set(name, AddMatches(old(t.tags).vals[name], env, files))
  {
    var n := t.tags.vals[name];
    ghost var tags0 := t.tags;
    SetSame(tags0, name);
    for fi := 0 to |files|
      invariant t.Valid() && t.current == old(t.current)
      invariant t.tags == tags0.Set(name, AddMatches(n, env, files[..fi]))
    {
      assert files[..fi + 1][..fi] == files[..fi];
      var file := files[fi];
      var full := AbsOrEmpty(env, file);
      var cur := t.tags.vals[name];
      if FilesOrEmpty(cur).Has(full) {
        continue;
      }
      SetSet(tags0, name, cur, AddMatch(cur, env, file));
      t.tags := t.tags.Set(name, WithFiles(cur, FilesOrEmpty(cur).Set(full, file)));
    }
    assert files[..|files|] == files;
  }

  /**
   * struct.go `tagAddFile`: resolve `tag` (so "." is the current tag); on
   * failure the process exits and nothing changes (`ok` is false).  Otherwise
   * every match of every glob is registered under its absolute path, with the
   * match as typed as its value, unless that path is already registered.
   */
  method TagAddFile(t: Tager, env: Env, tag: string, globs: seq<string>) returns (ok: bool)
    requires t.Valid()
    modifies t
    ensures t.Valid() && t.current == old(t.current)
    ensures ok == GetTag(old(t.tags), old(t.current), tag).Ok?
    ensures !ok ==> t.tags == old(t.tags)
    ensures ok ==> var name := GetTag(old(t.tags), old(t.current), tag).value;
      t.tags == old(t.tags).Set(name, AddGlobs(old(t.tags).vals[name], env, globs))
  {
    var r := GetTag(t.tags, t.current, tag);
    if r.Err? {
      return false;
    }
    var name := r.value;
    var n := t.tags.vals[name];
    ghost var tags0 := t.tags;
    SetSame(tags0, name);
    for gi := 0 to |globs|
      invariant t.Valid() && t.current == old(t.current)
      invariant t.tags == tags0.Set(name, AddGlobs(n, env, globs[..gi]))
    {
      assert globs[..gi + 1][..gi] == globs[..gi];
      ghost var before := AddGlobs(n, env, globs[..gi]);
      AddMatchesTo(t, env, name, env.glob(globs[gi]));
      SetSet(tags0, name, before, AddMatches(before, env, env.glob(globs[gi])));
    }
    assert globs[..|globs|] == globs;
    ok := true;
  }
}
