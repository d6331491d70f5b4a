/** Syntax nodes: the parser's result shape, and the parent-linked node arena the crawl leaves behind. */
module Tree {
  import opened Wrappers

  datatype FnKind = DeclarationKind | ExpressionKind | ArrowKind

  /** The argument of a rest element: a plain identifier or a destructuring pattern. */
  datatype Pattern = Identifier(name: string) | OtherPattern

  /** A declared parameter: a rest element, or any other parameter form. */
  datatype Param = PlainParam | RestElement(argument: Pattern)

  /** A function node as the parser yields it. */
  datatype FnNode = FnNode(kind: FnKind, params: seq<Param>)

  /** The parser's result: a function, an object literal (with the value of each property), or anything else. */
  datatype Expr = Function(fn: FnNode) | ObjectExpression(propertyValues: seq<Expr>) | OtherExpression

  /** Node types as far as the ancestor walk needs them. */
  datatype NodeTag = FunctionDeclarationNode | FunctionExpressionNode | ArrowFunctionNode | OtherNode

  /** An arena slot: the node's type and the index of its parent, if it has one. */
  datatype ArenaNode = ArenaNode(tag: NodeTag, parent: Option<nat>)

  /** The `Function` node test; it matches arrow functions too. */
  predicate IsFunction(n: ArenaNode) {
    n.tag != OtherNode
  }

  /** Nodes are numbered so that every parent precedes its children, which makes parent chains finite. */
  ghost predicate WellFormed(nodes: seq<ArenaNode>) {
    forall i :: 0 <= i < |nodes| && nodes[i].parent.Some? ==> nodes[i].parent.value < i
  }

  /** The parent chain from node `i` outward, the node itself first. */
  ghost function Ancestors(nodes: seq<ArenaNode>, i: nat): (c: seq<nat>)
    requires WellFormed(nodes) && i < |nodes|
    ensures |c| > 0 && c[0] == i
    ensures forall k :: k in c ==> k <= i
    decreases i
  {
    match nodes[i].parent
    case None => [i]
    case Some(j) => [i] + Ancestors(nodes, j)
  }

  /** The first node on the parent chain of `i` that satisfies `p`. */
  function Nearest(nodes: seq<ArenaNode>, i: nat, p: ArenaNode -> bool): (r: Option<nat>)
    requires WellFormed(nodes) && i < |nodes|
    ensures r.Some? ==> r.value <= i && p(nodes[r.value])
    decreases i
  {
    if p(nodes[i]) then Some(i)
    else
      match nodes[i].parent
      case None => None
      case Some(j) => Nearest(nodes, j, p)
  }

  /** The node found is an ancestor satisfying `p` with no satisfying ancestor below it, and none
      is found exactly when no ancestor satisfies `p`. */
  lemma {:induction false} NearestMeaning(nodes: seq<ArenaNode>, i: nat, p: ArenaNode -> bool)
    requires WellFormed(nodes) && i < |nodes|
    ensures Nearest(nodes, i, p).Some? ==> Nearest(nodes, i, p).value in Ancestors(nodes, i)
    ensures Nearest(nodes, i, p).Some? ==>
      forall k :: k in Ancestors(nodes, i) && k > Nearest(nodes, i, p).value ==> !p(nodes[k])
    ensures Nearest(nodes, i, p).None? <==> forall k :: k in Ancestors(nodes, i) ==> !p(nodes[k])
    decreases i
  {
    if !p(nodes[i]) && nodes[i].parent.Some? {
      NearestMeaning(nodes, nodes[i].parent.value, p);
    }
  }

  /** `closest`: walks parent links from `start` until a node satisfies `p`. */
  method Closest(arena: array<ArenaNode>, start: nat, p: ArenaNode -> bool) returns (r: Option<nat>)
    requires WellFormed(arena[..]) && start < arena.Length
    ensures r == Nearest(arena[..], start, p)
    ensures r.Some? ==> r.value < arena.Length && p(arena[r.value])
  {
    var node: Option<nat> := Some(start);
    while node.Some?
      invariant node.Some? ==> node.value < arena.Length
      invariant Nearest(arena[..], start, p) == if node.Some? then Nearest(arena[..], node.value, p) else None
      decreases if node.Some? then node.value + 1 else 0
    {
      if p(arena[node.value]) {
        return node;
      }
      node := arena[node.value].parent;
    }
    return None;
  }
}
