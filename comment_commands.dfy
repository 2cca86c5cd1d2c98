/**
 * comment.go: `add comment` stores the words after the tag name, joined by
 * single spaces, as the tag's comment; `show comment` reads it back.  Both
 * look the tag up directly among the stored tags, with no "." alias.
 */
module CommentCommands {
  import opened Wrappers
  import opened OrderedMap
  import opened PathStrings
  import opened TagGraph
  import opened Store

  /** The comment `add comment` writes: the words joined by single spaces. */
  function CommentText(words: seq<string>): string {
    Join(words, ' ')
  }

  /** The store after `add comment`; too few arguments or an unknown tag change nothing. */
  function SetComment(m: Tags, args: seq<string>): Tags {
    if |args| <= 1 || args[0] !in m.vals then m
    else m.Set(args[0], m.vals[args[0]].(comment := Some(CommentText(args[1..]))))
  }

  /**
   * comment.go `add comment`: needs a tag and at least one word, and the tag
   * must exist; the comment is overwritten and the store saved.
   */
  method AddCommentCmd(t: Tager, args: seq<string>) returns (saved: bool)
    requires t.Valid()
    modifies t
    ensures t.Valid() && t.current == old(t.current)
    ensures saved == (|args| > 1 && args[0] in old(t.tags).vals)
    ensures t.tags == SetComment(old(t.tags), args)
  {
    if |args| <= 1 {
      return false;
    }
    if !t.tags.Has(args[0]) {
      return false;
    }
    var cur := t.tags.vals[args[0]];
    var arg := Join(args[1..], ' ');
    t.tags := t.tags.Set(args[0], cur.(comment := Some(arg)));
    saved := true;
  }

  /**
   * comment.go `show comment`: nothing without arguments, for an unknown tag
   * or for a tag without a comment; otherwise the stored comment.
   */
  function ShowComment(root: Tags, args: seq<string>): (r: Option<string>)
    ensures r.Some? <==> |args| > 0 && args[0] in root.vals && root.vals[args[0]].comment.Some?
    ensures r.Some? ==> r == root.vals[args[0]].comment
  {
    if |args| == 0 || args[0] !in root.vals then None
    else root.vals[args[0]].comment
  }

  /**
   * `add comment` changes only the comment of the named tag, replacing any
   * earlier one; no tag is added or moved.
   */
  lemma SetCommentEffect(m: Tags, args: seq<string>)
    requires ValidTags(m)
    ensures var r := SetComment(m, args);
      && ValidTags(r)
      && r.keys == m.keys
      && (forall k :: k in r.vals <==> k in m.vals)
      && (forall k :: k in m.vals ==> r.vals[k].tags == m.vals[k].tags && r.vals[k].files == m.vals[k].files)
      && (forall k :: k in m.vals && (|args| <= 1 || k != args[0]) ==> r.vals[k] == m.vals[k])
  {
  }

  /**
   * Round trip: after a successful `add comment`, `show comment` on the same
   * tag gives the words joined by spaces; when no word holds a space, splitting
   * that comment at spaces gives the words back.
   */
  lemma CommentRoundTrip(m: Tags, args: seq<string>)
    requires |args| > 1 && args[0] in m.vals
    ensures ShowComment(SetComment(m, args), [args[0]]) == Some(CommentText(args[1..]))
    ensures (forall w :: w in args[1..] ==> ' ' !in w) ==>
      Split(ShowComment(SetComment(m, args), [args[0]]).value, ' ') == args[1..]
  {
    if forall w :: w in args[1..] ==> ' ' !in w {
      SplitJoin(args[1..], ' ');
    }
  }

  /** Too few arguments or an unknown tag: `add comment` leaves the store as it was. */
  lemma SetCommentRejects(m: Tags, args: seq<string>)
    requires |args| <= 1 || args[0] !in m.vals
    ensures SetComment(m, args) == m
    ensures |args| > 0 ==> ShowComment(SetComment(m, args), args) == ShowComment(m, args)
  {
  }
}
