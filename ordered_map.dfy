/**
 * The part of the nestmap library that the tag engine relies on: a string-keyed
 * map whose `Keys()` come in a fixed order.  The model keeps that order
 * explicitly; a key that is set for the first time goes to the end.
 */
module OrderedMap {
  import opened Lists

  datatype OMap<V> = OMap(keys: seq<string>, vals: map<string, V>) {

    /** The key order lists every key exactly once. */
    ghost predicate Valid() {
      NoDup(keys) && forall k :: k in vals <==> k in keys
    }

    /** `HasChild`. */
    predicate Has(k: string) {
      k in vals
    }

    /** `Child(k).Set(v)`: an existing key keeps its place, a new one is appended. */
    function Set(k: string, v: V): (r: OMap<V>)
      ensures Valid() ==> r.Valid()
      ensures r.vals == vals[k := v]
      ensures Valid() && k in vals ==> r.keys == keys
      ensures Valid() && k !in vals ==> r.keys == keys + [k]
    {
      if k in vals then OMap(keys, vals[k := v]) else OMap(keys + [k], vals[k := v])
    }

    /** `Child(k).Remove()`: absent keys are ignored. */
    function Remove(k: string): (r: OMap<V>)
      ensures Valid() ==> r.Valid()
      ensures r.vals == vals - {k}
      ensures r.keys == Except(keys, {k})
    {
      ExceptMembers(keys, {k});
      OMap(Except(keys, {k}), vals - {k})
    }
  }

  /** A later `Set` of the same key wins. */
  lemma SetSet<V>(m: OMap<V>, k: string, a: V, b: V)
    requires m.Valid()
    ensures m.Set(k, a).Set(k, b) == m.Set(k, b)
  {
  }

  /** Setting a key to the value it has changes nothing. */
  lemma SetSame<V>(m: OMap<V>, k: string)
    requires m.Valid() && k in m.vals
    ensures m.Set(k, m.vals[k]) == m
  {
  }

  function Empty<V>(): (r: OMap<V>)
    ensures r.Valid() && r.keys == []
  {
    OMap([], map[])
  }

  /**
   * The autoremove loops: walk the key list `ks` (a snapshot of `Keys()`) and
   * remove every key for which `keep` says no.
   */
  function Prune<V>(m: OMap<V>, ks: seq<string>, keep: string -> bool): OMap<V>
  {
    if ks == [] then m
    else
      var rest := Prune(m, ks[..|ks| - 1], keep);
      if keep(ks[|ks| - 1]) then rest else rest.Remove(ks[|ks| - 1])
  }

  /** The keys of `ks` that `keep` rejects. */
  ghost function Rejected(ks: seq<string>, keep: string -> bool): set<string>
  {
    set k | k in ks && !keep(k)
  }

  /** Pruning removes exactly the rejected keys, keeps the others in order and with their values. */
  lemma {:induction false} PruneRemovesRejected<V>(m: OMap<V>, ks: seq<string>, keep: string -> bool)
    requires m.Valid()
    ensures Prune(m, ks, keep).Valid()
    ensures Prune(m, ks, keep).keys == Except(m.keys, Rejected(ks, keep))
    ensures Prune(m, ks, keep).vals == m.vals - Rejected(ks, keep)
  {
    if ks == [] {
      ExceptNone(m.keys, {});
      assert Rejected(ks, keep) == {};
    } else {
      var init, last := ks[..|ks| - 1], ks[|ks| - 1];
      PruneRemovesRejected(m, init, keep);
      if keep(last) {
        assert Rejected(ks, keep) == Rejected(init, keep);
      } else {
        assert Rejected(ks, keep) == Rejected(init, keep) + {last};
        ExceptExcept(m.keys, Rejected(init, keep), {last});
      }
    }
  }

  /** When `keep` accepts every key of `ks`, pruning changes nothing. */
  lemma {:induction false} PruneKeepsAll<V>(m: OMap<V>, ks: seq<string>, keep: string -> bool)
    requires forall k :: k in ks ==> keep(k)
    ensures Prune(m, ks, keep) == m
  {
    if ks != [] {
      PruneKeepsAll(m, ks[..|ks| - 1], keep);
    }
  }

  /** A prune over all keys leaves only accepted keys, so a second one is a no-op. */
  lemma PruneIdempotent<V>(m: OMap<V>, keep: string -> bool)
    requires m.Valid()
    ensures forall k :: k in Prune(m, m.keys, keep).keys ==> keep(k)
    ensures var r := Prune(m, m.keys, keep); Prune(r, r.keys, keep) == r
  {
    PruneRemovesRejected(m, m.keys, keep);
    var r := Prune(m, m.keys, keep);
    ExceptMembers(m.keys, Rejected(m.keys, keep));
    PruneKeepsAll(r, r.keys, keep);
  }
}
