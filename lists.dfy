/**
 * The slice algebra of main.go: `andStrings` (an order-preserving filter of
 * one list by membership in another) and `uniqueStrings` (an order-preserving
 * de-duplication).  Each is a function that specifies it, lemmas about that
 * function, and the loop of the source as a method proved against it.
 */
module Lists {

  predicate NoDup<T(==)>(s: seq<T>) {
    forall i, j :: 0 <= i < j < |s| ==> s[i] != s[j]
  }

  /** Index of the first occurrence of `x` in `s`. */
  function FirstIndex<T(==)>(s: seq<T>, x: T): (r: nat)
    requires x in s
    ensures r < |s| && s[r] == x && x !in s[..r]
  {
    if s[0] == x then 0 else 1 + FirstIndex(s[1..], x)
  }

  lemma FirstIndexUnique<T>(s: seq<T>, x: T, k: nat)
    requires k < |s| && s[k] == x && x !in s[..k]
    ensures FirstIndex(s, x) == k
  {
  }

  /** Prepending more elements does not move the first occurrence of one already present. */
  lemma FirstIndexPrefix<T>(s: seq<T>, t: seq<T>, x: T)
    requires x in s
    ensures FirstIndex(s + t, x) == FirstIndex(s, x)
  {
    var k := FirstIndex(s, x);
    assert (s + t)[..k] == s[..k];
    FirstIndexUnique(s + t, x, k);
  }

  // ------------------------------------------------------------------- Except

  /** `s` without the values in `drop`, the rest in order. */
  function Except(s: seq<string>, drop: set<string>): seq<string>
  {
    if s == [] then []
    else Except(s[..|s| - 1], drop) + (if s[|s| - 1] in drop then [] else [s[|s| - 1]])
  }

  lemma {:induction false} ExceptMembers(s: seq<string>, drop: set<string>)
    ensures forall x :: x in Except(s, drop) <==> x in s && x !in drop
    ensures NoDup(s) ==> NoDup(Except(s, drop))
  {
    if s != [] {
      var init := s[..|s| - 1];
      assert s == init + [s[|s| - 1]];
      ExceptMembers(init, drop);
      if NoDup(s) {
        assert NoDup(init);
      }
    }
  }

  /** Dropping one set after another is dropping their union. */
  lemma {:induction false} ExceptExcept(s: seq<string>, a: set<string>, b: set<string>)
    ensures Except(Except(s, a), b) == Except(s, a + b)
  {
    if s != [] {
      var init, last := s[..|s| - 1], s[|s| - 1];
      ExceptExcept(init, a, b);
      var e := Except(init, a);
      if last in a {
        assert Except(s, a) == e;
      } else {
        var ea := e + [last];
        assert Except(s, a) == ea;
        assert ea[..|ea| - 1] == e;
      }
    }
  }

  lemma {:induction false} ExceptAppend(s: seq<string>, t: seq<string>, drop: set<string>)
    ensures Except(s + t, drop) == Except(s, drop) + Except(t, drop)
  {
    if t == [] {
      assert s + t == s;
    } else {
      var init := t[..|t| - 1];
      assert (s + t)[..|s + t| - 1] == s + init;
      ExceptAppend(s, init, drop);
    }
  }

  /** Filtering commutes with cutting the sequence in two. */
  lemma ExceptSplit(s: seq<string>, i: nat, drop: set<string>)
    requires i <= |s|
    ensures Except(s, drop) == Except(s[..i], drop) + Except(s[i..], drop)
  {
    var front, back := s[..i], s[i..];
    assert front + back == s;
    ExceptAppend(front, back, drop);
  }

  lemma {:induction false} ExceptNone(s: seq<string>, drop: set<string>)
    requires forall x :: x in s ==> x !in drop
    ensures Except(s, drop) == s
  {
    if s != [] {
      var init := s[..|s| - 1];
      assert s == init + [s[|s| - 1]];
      ExceptNone(init, drop);
    }
  }

  // ---------------------------------------------------------------- andStrings

  /** The elements of `a` that occur somewhere in `b`, in `a`'s order, repeats kept. */
  function And(a: seq<string>, b: seq<string>): seq<string>
  {
    if a == [] then []
    else
      var rest := And(a[..|a| - 1], b);
      if a[|a| - 1] in b then rest + [a[|a| - 1]] else rest
  }

  /** Each value occurs in `And(a, b)` exactly as often as in `a` when it is in `b`, and never otherwise. */
  lemma {:induction false} AndCounts(a: seq<string>, b: seq<string>)
    ensures forall x :: multiset(And(a, b))[x] == if x in b then multiset(a)[x] else 0
  {
    if a != [] {
      var init, last := a[..|a| - 1], a[|a| - 1];
      assert a == init + [last];
      AndCounts(init, b);
    }
  }

  lemma AndMembers(a: seq<string>, b: seq<string>)
    ensures forall x :: x in And(a, b) <==> x in a && x in b
    ensures |And(a, b)| <= |a|
  {
    AndCounts(a, b);
    forall x ensures x in And(a, b) <==> x in a && x in b {
      assert x in And(a, b) <==> multiset(And(a, b))[x] > 0;
      assert x in a <==> multiset(a)[x] > 0;
    }
    AndLength(a, b);
  }

  lemma {:induction false} AndLength(a: seq<string>, b: seq<string>)
    ensures |And(a, b)| <= |a|
  {
    if a != [] {
      AndLength(a[..|a| - 1], b);
    }
  }

  /** The filter works element by element, so it keeps the order of `a`. */
  lemma {:induction false} AndAppend(a1: seq<string>, a2: seq<string>, b: seq<string>)
    ensures And(a1 + a2, b) == And(a1, b) + And(a2, b)
  {
    if a2 == [] {
      assert a1 + a2 == a1;
    } else {
      var init := a2[..|a2| - 1];
      assert (a1 + a2)[..|a1 + a2| - 1] == a1 + init;
      AndAppend(a1, init, b);
    }
  }

  /** Filtering a list by one that contains all of it changes nothing. */
  lemma {:induction false} AndAllPresent(a: seq<string>, b: seq<string>)
    requires forall x :: x in a ==> x in b
    ensures And(a, b) == a
  {
    if a != [] {
      var init := a[..|a| - 1];
      assert a == init + [a[|a| - 1]];
      AndAllPresent(init, b);
    }
  }

  /** The loop of `andStrings`: for each `v` of `a`, look for the last index of `v` in `b`. */
  method AndStrings(a: seq<string>, b: seq<string>) returns (c: seq<string>)
    ensures c == And(a, b)
    ensures forall x :: x in c <==> x in a && x in b
    ensures |c| <= |a|
  {
    c := [];
    for i := 0 to |a|
      invariant c == And(a[..i], b)
    {
      var v := a[i];
      var index := -1;
      for n2 := 0 to |b|
        invariant index == -1 <==> v !in b[..n2]
        invariant index != -1 ==> 0 <= index < n2 && b[index] == v
      {
        if v == b[n2] {
          index := n2;
        }
      }
      assert b[..|b|] == b;
      assert a[..i + 1][..i] == a[..i];
      if index == -1 {
        continue;
      }
      c := c + [b[index]];
    }
    assert a[..|a|] == a;
    AndMembers(a, b);
  }

  // ------------------------------------------------------------- uniqueStrings

  /** `s` without repeats, each value where it first occurs. */
  function Unique(s: seq<string>): seq<string>
  {
    if s == [] then []
    else
      var rest := Unique(s[..|s| - 1]);
      if s[|s| - 1] in rest then rest else rest + [s[|s| - 1]]
  }

  lemma {:induction false} UniqueMembers(s: seq<string>)
    ensures forall x :: x in Unique(s) <==> x in s
  {
    if s != [] {
      var init := s[..|s| - 1];
      assert s == init + [s[|s| - 1]];
      UniqueMembers(init);
    }
  }

  lemma {:induction false} UniqueNoDup(s: seq<string>)
    ensures NoDup(Unique(s))
  {
    if s != [] {
      UniqueNoDup(s[..|s| - 1]);
    }
  }

  /** A list without repeats is its own de-duplication. */
  lemma {:induction false} UniqueOfNoDup(s: seq<string>)
    requires NoDup(s)
    ensures Unique(s) == s
  {
    if s != [] {
      var init := s[..|s| - 1];
      assert NoDup(init);
      UniqueOfNoDup(init);
      assert s[|s| - 1] !in init;
    }
  }

  lemma UniqueIdempotent(s: seq<string>)
    ensures Unique(Unique(s)) == Unique(s)
  {
    UniqueNoDup(s);
    UniqueOfNoDup(Unique(s));
  }

  /** The output lists values in the order of their first occurrence in the input. */
  lemma {:induction false} UniqueFirstOccurrenceOrder(s: seq<string>)
    ensures forall x :: x in Unique(s) ==> x in s
    ensures forall i, j :: 0 <= i < j < |Unique(s)| ==>
      FirstIndex(s, Unique(s)[i]) < FirstIndex(s, Unique(s)[j])
  {
    UniqueMembers(s);
    if s != [] {
      var init, last := s[..|s| - 1], s[|s| - 1];
      assert s == init + [last];
      UniqueFirstOccurrenceOrder(init);
      UniqueMembers(init);
      var u0, u := Unique(init), Unique(s);
      forall i, j | 0 <= i < j < |u| ensures FirstIndex(s, u[i]) < FirstIndex(s, u[j]) {
        assert u[i] == u0[i];
        FirstIndexPrefix(init, [last], u[i]);
        if j < |u0| {
          assert u[j] == u0[j];
          FirstIndexPrefix(init, [last], u[j]);
        } else {
          assert u[j] == last && last !in init;
          FirstIndexUnique(s, last, |s| - 1);
        }
      }
    }
  }

  /** The loop of `uniqueStrings`, with its map of values already seen. */
  method UniqueStrings(ss: seq<string>) returns (result: seq<string>)
    ensures result == Unique(ss)
    ensures NoDup(result)
    ensures forall x :: x in result <==> x in ss
  {
    result := [];
    var unique: map<string, bool> := map[];
    for i := 0 to |ss|
      invariant result == Unique(ss[..i])
      invariant forall x :: x in unique <==> x in result
    {
      var v := ss[i];
      assert ss[..i + 1][..i] == ss[..i];
      if v in unique {
        continue;
      }
      unique := unique[v := true];
      result := result + [v];
    }
    assert ss[..|ss|] == ss;
    UniqueNoDup(ss);
    UniqueMembers(ss);
  }

  // ------------------------------------------------------------ progressive AND

  /** The progressive `andStrings` of a first list with each later one. */
  function AndAll(a: seq<string>, ls: seq<seq<string>>): seq<string> {
    if ls == [] then a else And(AndAll(a, ls[..|ls| - 1]), ls[|ls| - 1])
  }

  /** `x` is in every list of `ls`. */
  predicate InAll(x: string, ls: seq<seq<string>>) {
    forall i :: 0 <= i < |ls| ==> x in ls[i]
  }

  /** The elements of `a` that are in every list of `ls`, in `a`'s order, repeats kept. */
  function KeepInAll(a: seq<string>, ls: seq<seq<string>>): (r: seq<string>)
    ensures |r| <= |a|
  {
    if a == [] then []
    else KeepInAll(a[..|a| - 1], ls) + (if InAll(a[|a| - 1], ls) then [a[|a| - 1]] else [])
  }

  lemma {:induction false} KeepInAllStep(a: seq<string>, ls: seq<seq<string>>, l: seq<string>)
    ensures And(KeepInAll(a, ls), l) == KeepInAll(a, ls + [l])
  {
    if a != [] {
      var init, x := a[..|a| - 1], a[|a| - 1];
      KeepInAllStep(init, ls, l);
      var tail := if InAll(x, ls) then [x] else [];
      AndAppend(KeepInAll(init, ls), tail, l);
      assert InAll(x, ls + [l]) <==> InAll(x, ls) && x in l by {
        if InAll(x, ls) && x in l {
          forall i | 0 <= i < |ls + [l]| ensures x in (ls + [l])[i] {
            if i < |ls| {
              assert (ls + [l])[i] == ls[i];
            }
          }
        }
        if InAll(x, ls + [l]) {
          assert (ls + [l])[|ls|] == l;
          forall i | 0 <= i < |ls| ensures x in ls[i] {
            assert (ls + [l])[i] == ls[i];
          }
        }
      }
      if InAll(x, ls) {
        assert tail[..0] == [];
        assert And(tail, l) == And([], l) + (if x in l then [x] else []);
      } else {
        assert And(tail, l) == [];
      }
    }
  }

  /**
   * The progressive AND is an order-preserving filter of the first list: it
   * keeps the first list's elements, repeats included, that occur in every
   * later list.
   */
  lemma {:induction false} AndAllIsFilter(a: seq<string>, ls: seq<seq<string>>)
    ensures AndAll(a, ls) == KeepInAll(a, ls)
  {
    if ls == [] {
      KeepInAllNone(a);
    } else {
      var init, l := ls[..|ls| - 1], ls[|ls| - 1];
      assert ls == init + [l];
      AndAllIsFilter(a, init);
      KeepInAllStep(a, init, l);
    }
  }

  lemma {:induction false} KeepInAllNone(a: seq<string>)
    ensures KeepInAll(a, []) == a
  {
    if a != [] {
      KeepInAllNone(a[..|a| - 1]);
      assert a[..|a| - 1] + [a[|a| - 1]] == a;
    }
  }

  lemma {:induction false} KeepInAllMembers(a: seq<string>, ls: seq<seq<string>>)
    ensures forall x :: x in KeepInAll(a, ls) <==> x in a && InAll(x, ls)
  {
    if a != [] {
      KeepInAllMembers(a[..|a| - 1], ls);
      assert a == a[..|a| - 1] + [a[|a| - 1]];
    }
  }
}
