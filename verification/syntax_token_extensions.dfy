/** `SyntaxTokenExtensions.Parents`: the nodes above a token, nearest first. */
module SyntaxTokenExtensions {
  import opened Wrappers
  import opened SyntaxTree
  import SyntaxNodeExtensions

  /** `token.Parents()` enumerated to the end: the token's parent, its parent, and so on up
      to the root; nothing for a token outside any node. */
  function Parents(token: Token): (s: seq<Node>)
    ensures |s| == Height(token.parent)
    ensures IsParentChain(token.parent, s)
  {
    Walk(token.parent)
  }

  /** The token's parents are the parents of the node holding it, that node included. */
  lemma TokenParentsAreNodeParents(token: Token)
    requires token.parent.Some?
    ensures Parents(token) == SyntaxNodeExtensions.Parents(token.parent, true).value
  {
    ParentChainIsWalk(token.parent, SyntaxNodeExtensions.Parents(token.parent, true).value);
  }
}
