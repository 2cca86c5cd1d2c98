/**
 * The state-changing commands of main.go: `create`, `delete` and `ch`.
 * Each command body is a method on the store, proved against a function of
 * the old store; the lemmas state what those functions promise.
 */
module MainCommands {
  import opened Wrappers
  import opened Lists
  import opened OrderedMap
  import opened TagGraph
  import opened Store

  // --------------------------------------------------------------------- create

  /** One argument of `create`: an existing tag is left alone, a new one is an empty map. */
  function CreateOne(m: Tags, v: string): Tags {
    if m.Has(v) then m else m.Set(v, Blank)
  }

  function CreateAll(m: Tags, names: seq<string>): Tags {
    if names == [] then m else CreateOne(CreateAll(m, names[..|names| - 1]), names[|names| - 1])
  }

  /** After `create` the tags are the old ones and the arguments. */
  lemma {:induction false} CreateAllDomain(m: Tags, names: seq<string>)
    requires m.Valid()
    ensures CreateAll(m, names).Valid()
    ensures forall k :: k in CreateAll(m, names).vals <==> k in m.vals || k in names
  {
    if names != [] {
      CreateAllDomain(m, names[..|names| - 1]);
    }
  }

  /**
   * After `create`: existing tags are untouched and every new name, reserved
   * ones included, holds an empty node.
   */
  lemma {:induction false} CreateAllNodes(m: Tags, names: seq<string>)
    requires ValidTags(m)
    ensures var r := CreateAll(m, names);
      && ValidTags(r)
      && (forall k :: k in m.vals ==> k in r.vals && r.vals[k] == m.vals[k])
      && (forall k :: k in names && k !in m.vals ==> k in r.vals && r.vals[k] == Blank)
  {
    if names != [] {
      var init := names[..|names| - 1];
      CreateAllNodes(m, init);
      CreateAllDomain(m, init);
    }
  }

  /** The names `create` adds, after one more argument `v`. */
  lemma NewNamesStep(init: seq<string>, v: string, existing: set<string>)
    ensures Unique(Except(init + [v], existing)) ==
      if v in existing || v in init then Unique(Except(init, existing))
      else Unique(Except(init, existing)) + [v]
  {
    ExceptAppend(init, [v], existing);
    assert Except([v], existing) == if v in existing then [] else [v] by {
      assert [v][..0] == [];
    }
    var e0 := Except(init, existing);
    if v !in existing {
      var e := e0 + [v];
      assert e[..|e| - 1] == e0;
      UniqueMembers(e0);
      ExceptMembers(init, existing);
    } else {
      assert e0 + [] == e0;
    }
  }

  /** The new names follow the old ones, in the order of their first occurrence among the arguments. */
  lemma {:induction false} CreateAllOrder(m: Tags, names: seq<string>)
    requires m.Valid()
    ensures CreateAll(m, names).keys == m.keys + Unique(Except(names, m.vals.Keys))
  {
    if names == [] {
      assert Except(names, m.vals.Keys) == [];
    } else {
      var init, v := names[..|names| - 1], names[|names| - 1];
      assert names == init + [v];
      var before := CreateAll(m, init);
      CreateAllOrder(m, init);
      CreateAllDomain(m, init);
      NewNamesStep(init, v, m.vals.Keys);
      assert CreateAll(m, names) == CreateOne(before, v);
      assert CreateOne(before, v).keys == if v in before.vals then before.keys else before.keys + [v];
      assert v in before.vals <==> v in m.vals.Keys || v in init;
    }
  }

  /**
   * main.go `create`: with no arguments only the help is shown; otherwise each
   * name that is not a tag yet becomes an empty tag (names with "/" and "."
   * are only warned about), and the store is saved.
   */
  method Create(t: Tager, args: seq<string>) returns (saved: bool)
    requires t.Valid()
    modifies t
    ensures t.Valid() && t.current == old(t.current)
    ensures saved == (|args| > 0)
    ensures t.tags == CreateAll(old(t.tags), args)
  {
    CreateAllNodes(old(t.tags), []);
    if |args| == 0 {
      return false;
    }
    for i := 0 to |args|
      invariant t.Valid() && t.current == old(t.current)
      invariant t.tags == CreateAll(old(t.tags), args[..i])
    {
      assert args[..i + 1][..i] == args[..i];
      CreateAllNodes(old(t.tags), args[..i + 1]);
      var v := args[i];
      if t.tags.Has(v) {
        continue;
      }
      t.tags := t.tags.Set(v, Blank);
    }
    assert args[..|args|] == args;
    saved := true;
  }

  // --------------------------------------------------------------------- delete

  function DeleteOne(m: Tags, v: string): Tags {
    if !m.Has(v) then m else m.Remove(v)
  }

  function DeleteAll(m: Tags, names: seq<string>): Tags {
    if names == [] then m else DeleteOne(DeleteAll(m, names[..|names| - 1]), names[|names| - 1])
  }

  lemma DeleteOneEffect(m: Tags, v: string)
    requires m.Valid()
    ensures DeleteOne(m, v).Valid()
    ensures DeleteOne(m, v).vals == m.vals - {v}
    ensures DeleteOne(m, v).keys == Except(m.keys, {v})
  {
    if v !in m.vals {
      assert m.vals - {v} == m.vals;
      ExceptNone(m.keys, {v});
    }
  }

  /** The set of names a sequence mentions. */
  ghost function Names(s: seq<string>): set<string> {
    set v | v in s
  }

  lemma NamesSnoc(s: seq<string>, v: string)
    ensures Names(s + [v]) == Names(s) + {v}
  {
  }

  lemma {:induction false} DeleteAllValid(m: Tags, names: seq<string>)
    requires m.Valid()
    ensures DeleteAll(m, names).Valid()
  {
    if names != [] {
      DeleteAllValid(m, names[..|names| - 1]);
    }
  }

  /**
   * After `delete`: exactly the named tags are gone, and the others keep
   * their whole node, child edges that name a deleted tag included.
   */
  lemma {:induction false} DeleteAllVals(m: Tags, names: seq<string>)
    requires m.Valid()
    ensures DeleteAll(m, names).vals == m.vals - Names(names)
  {
    if names == [] {
      assert Names(names) == {};
    } else {
      var init, v := names[..|names| - 1], names[|names| - 1];
      assert names == init + [v];
      NamesSnoc(init, v);
      DeleteAllValid(m, init);
      DeleteAllVals(m, init);
      DeleteOneEffect(DeleteAll(m, init), v);
      assert m.vals - (Names(init) + {v}) == (m.vals - Names(init)) - {v};
    }
  }

  /** After `delete` the surviving tags keep their relative order. */
  lemma {:induction false} DeleteAllKeys(m: Tags, names: seq<string>)
    requires m.Valid()
    ensures DeleteAll(m, names).keys == Except(m.keys, Names(names))
  {
    if names == [] {
      ExceptNone(m.keys, {});
      assert Names(names) == {};
    } else {
      var init, v := names[..|names| - 1], names[|names| - 1];
      assert names == init + [v];
      NamesSnoc(init, v);
      DeleteAllValid(m, init);
      DeleteAllKeys(m, init);
      DeleteOneEffect(DeleteAll(m, init), v);
      ExceptExcept(m.keys, Names(init), {v});
    }
  }

  /**
   * main.go `delete`: with no arguments only the help is shown; otherwise each
   * existing named tag is removed (absent ones are reported and skipped) and
   * the store is saved.
   */
  method Delete(t: Tager, args: seq<string>) returns (saved: bool)
    requires t.Valid()
    modifies t
    ensures t.Valid() && t.current == old(t.current)
    ensures saved == (|args| > 0)
    ensures t.tags == DeleteAll(old(t.tags), args)
  {
    if |args| == 0 {
      return false;
    }
    for i := 0 to |args|
      invariant t.Valid() && t.current == old(t.current)
      invariant t.tags == DeleteAll(old(t.tags), args[..i])
    {
      assert args[..i + 1][..i] == args[..i];
      DeleteOneEffect(t.tags, args[i]);
      var v := args[i];
      if !t.tags.Has(v) {
        continue;
      }
      t.tags := t.tags.Remove(v);
    }
    assert args[..|args|] == args;
    saved := true;
  }

  // ------------------------------------------------------------------------- ch

  /**
   * main.go `ch`: exactly one argument naming an existing tag becomes the
   * current tag, so that "." resolves to it; anything else exits without a
   * change.
   */
  method ChangeCurrent(t: Tager, args: seq<string>) returns (saved: bool)
    requires t.Valid()
    modifies t
    ensures t.Valid() && t.tags == old(t.tags)
    ensures saved <==> |args| == 1 && args[0] in old(t.tags).vals
    ensures t.current == if saved then Some(args[0]) else old(t.current)
    ensures saved ==> GetTag(t.tags, t.current, ".") == Ok(args[0])
  {
    if |args| != 1 {
      return false;
    }
    if !t.tags.Has(args[0]) {
      return false;
    }
    t.current := Some(args[0]);
    saved := true;
  }
}
