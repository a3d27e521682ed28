/** `SyntaxNodeExtensions.Parents`: the nodes above a node, nearest first, optionally
    preceded by the node itself. */
module SyntaxNodeExtensions {
  import opened Wrappers
  import opened Exceptions
  import opened SyntaxTree

  /** `source.Parents(includeSelf)` enumerated to the end: a missing source is an
      `ArgumentNullException` on `source`; otherwise the source when `includeSelf` is set,
      then its parent, its parent's parent, and so on up to the root. */
  function Parents(source: Option<Node>, includeSelf: bool): (r: Result<seq<Node>, Exception>)
    ensures r.Failure? <==> source.None?
    ensures r.Failure? ==> r.error == ArgumentNull("source")
    ensures r.Success? ==> |r.value| == Depth(source.value) + (if includeSelf then 1 else 0)
    ensures r.Success? && includeSelf ==> IsParentChain(source, r.value)
    ensures r.Success? && !includeSelf ==> IsParentChain(source.value.parent, r.value)
  {
    if source.None? then Failure(ArgumentNull("source"))
    else if includeSelf then Success([source.value] + Walk(source.value.parent))
    else Success(Walk(source.value.parent))
  }

  /** Without `includeSelf` the source itself is never listed, and no node is listed twice;
      each listed node lies strictly above the source. */
  lemma ParentsAreProperAncestors(source: Node)
    ensures var s := Parents(Some(source), false).value;
      && source !in s
      && (forall i | 0 <= i < |s| :: Depth(s[i]) < Depth(source))
      && (forall i, j | 0 <= i < j < |s| :: s[i] != s[j])
  {
    var s := Parents(Some(source), false).value;
    ParentChainIsWalk(source.parent, s);
    WalkHasNoRepeats(source.parent);
  }

  /** The last node listed is the root of the tree, the same root whatever the flag. */
  lemma ParentsEndAtRoot(source: Node, includeSelf: bool)
    requires includeSelf || source.parent.Some?
    ensures var s := Parents(Some(source), includeSelf).value;
      |s| > 0 && s[|s| - 1].parent.None? && Depth(s[|s| - 1]) == 0
  {
    var s := Parents(Some(source), includeSelf).value;
    if includeSelf {
      ParentChainIsWalk(Some(source), s);
    } else {
      ParentChainIsWalk(source.parent, s);
    }
  }
}
