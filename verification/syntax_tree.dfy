/** The part of a Roslyn syntax tree the parent walks see: every node and every token
    knows its kind and its parent node, and the root has none. */
module SyntaxTree {
  import opened Wrappers

  /** A syntax node; `parent` is `SyntaxNode.Parent`. */
  datatype Node = Node(rawKind: int, parent: Option<Node>)

  /** A syntax token; `parent` is `SyntaxToken.Parent`, the node that holds the token. */
  datatype Token = Token(rawKind: int, parent: Option<Node>)

  /** The number of nodes above `n`. */
  function Depth(n: Node): nat
    decreases n
  {
    match n.parent
    case None => 0
    case Some(p) => Depth(p) + 1
  }

  /** The number of nodes on the way up from `start`, `start` included. */
  function Height(start: Option<Node>): nat {
    if start.None? then 0 else Depth(start.value) + 1
  }

  /** `s` lists `start` and then each node's parent in turn, up to and including the root. */
  ghost predicate IsParentChain(start: Option<Node>, s: seq<Node>) {
    && (start.None? <==> |s| == 0)
    && (start.Some? ==> s[0] == start.value && s[|s| - 1].parent.None?)
    && forall i | 0 <= i < |s| - 1 :: s[i].parent == Some(s[i + 1])
  }

  /** `for (node = start; node is not null; node = node.Parent) yield return node;`. */
  function Walk(start: Option<Node>): (s: seq<Node>)
    ensures |s| == Height(start)
    ensures IsParentChain(start, s)
    ensures forall i | 0 <= i < |s| :: Depth(s[i]) == Height(start) - 1 - i
    decreases start
  {
    match start
    case None => []
    case Some(n) =>
      var rest := Walk(n.parent);
      assert forall i | 0 < i < |rest| + 1 :: ([n] + rest)[i] == rest[i - 1];
      [n] + rest
  }

  /** The chain from a node is unique: any sequence that starts at `start`, steps from
      each node to its parent and ends at the root is the walk. */
  lemma {:induction false} ParentChainIsWalk(start: Option<Node>, s: seq<Node>)
    requires IsParentChain(start, s)
    ensures s == Walk(start)
    decreases |s|
  {
    if start.Some? {
      var n := start.value;
      if |s| == 1 {
        assert Walk(n.parent) == [];
      } else {
        assert n.parent == Some(s[1]);
        assert s[1..][|s| - 2] == s[|s| - 1];
        assert IsParentChain(n.parent, s[1..]) by {
          forall i | 0 <= i < |s[1..]| - 1 ensures s[1..][i].parent == Some(s[1..][i + 1]) {
            assert s[i + 1].parent == Some(s[i + 2]);
          }
        }
        ParentChainIsWalk(n.parent, s[1..]);
        assert s == [n] + s[1..];
      }
    }
  }

  /** The walk never meets a node twice, so in particular never meets its start again
      after the first step. */
  lemma WalkHasNoRepeats(start: Option<Node>)
    ensures var s := Walk(start);
      forall i, j | 0 <= i < j < |s| :: s[i] != s[j]
  {
    var s := Walk(start);
    forall i, j | 0 <= i < j < |s| ensures s[i] != s[j] {
      assert Depth(s[i]) != Depth(s[j]);
    }
  }
}
