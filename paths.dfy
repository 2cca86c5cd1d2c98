/**
 * `strings.Join` and `strings.Split` with a one-character separator: `nestTag`
 * joins its arguments with "/" and splits them again, and `add comment` joins
 * its words with " ".
 */
module PathStrings {

  function Join(parts: seq<string>, sep: char): string
  {
    if parts == [] then ""
    else if |parts| == 1 then parts[0]
    else parts[0] + [sep] + Join(parts[1..], sep)
  }

  /** Position of the first `sep` in `s`, or `|s|` when there is none. */
  function IndexOf(s: string, sep: char): (i: nat)
    ensures i <= |s| && sep !in s[..i]
    ensures i < |s| ==> s[i] == sep
  {
    if s == [] then 0
    else if s[0] == sep then 0
    else
      var j := 1 + IndexOf(s[1..], sep);
      assert s[..j] == [s[0]] + s[1..][..j - 1];
      j
  }

  /** The first separator is where the characterisation of `IndexOf` says it is. */
  lemma IndexOfAt(s: string, sep: char, k: nat)
    requires k <= |s| && sep !in s[..k]
    requires k < |s| ==> s[k] == sep
    ensures IndexOf(s, sep) == k
  {
  }

  /** Splitting always yields at least one part, and no part holds the separator. */
  function Split(s: string, sep: char): (r: seq<string>)
    ensures |r| >= 1
    ensures forall p :: p in r ==> sep !in p
    decreases |s|
  {
    var i := IndexOf(s, sep);
    if i == |s| then
      assert s[..i] == s;
      [s]
    else [s[..i]] + Split(s[i + 1..], sep)
  }

  lemma {:induction false} JoinSplit(s: string, sep: char)
    ensures Join(Split(s, sep), sep) == s
    decreases |s|
  {
    var i := IndexOf(s, sep);
    if i < |s| {
      JoinSplit(s[i + 1..], sep);
      var parts := Split(s, sep);
      assert parts[1..] == Split(s[i + 1..], sep);
      assert s == s[..i] + [sep] + s[i + 1..];
    }
  }

  lemma {:induction false} SplitJoin(parts: seq<string>, sep: char)
    requires |parts| >= 1
    requires forall p :: p in parts ==> sep !in p
    ensures Split(Join(parts, sep), sep) == parts
  {
    var s := Join(parts, sep);
    if |parts| == 1 {
      assert s[..|s|] == s;
      IndexOfAt(s, sep, |s|);
    } else {
      var p, rest := parts[0], Join(parts[1..], sep);
      assert s == p + [sep] + rest;
      assert s[..|p|] == p;
      IndexOfAt(s, sep, |p|);
      assert s[|p| + 1..] == rest;
      SplitJoin(parts[1..], sep);
    }
  }
}
