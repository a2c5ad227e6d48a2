/**
 * The fragment of the ESTree syntax tree that the member-discovery engine looks at.
 * Node kinds it never inspects by type are folded into `Other`, which keeps their children.
 */
module EsTree {
  import opened Wrappers

  datatype Node =
    | This                                          // ThisExpression
    | Ident(name: string)                           // Identifier
    | Member(obj: Node, prop: Node, computed: bool) // MemberExpression: obj.prop or obj[prop]
    | Assign(left: Node, right: Node)               // AssignmentExpression
    | Call(callee: Node, args: seq<Node>)           // CallExpression
    | Func(children: seq<Node>)                     // FunctionExpression: its id, params and body
    | VarDecl(id: Node, init: Option<Node>)         // VariableDeclarator
    | Other(children: seq<Node>)                    // every other node kind (Program, statements, literals, ...)

  /**
   * The children of a node in the order the traversal enters them:
   * object before property, left before right, callee before arguments, id before init.
   */
  function Children(node: Node): (cs: seq<Node>)
    ensures forall c :: c in cs ==> c < node
    ensures node.Call? ==> |cs| > 0 && cs[0] == node.callee
  {
    match node
    case This => []
    case Ident(_) => []
    case Member(obj, prop, _) => [obj, prop]
    case Assign(left, right) => [left, right]
    case Call(callee, args) => [callee] + args
    case Func(children) => children
    case VarDecl(id, init) => if init.Some? then [id, init.value] else [id]
    case Other(children) => children
  }

  /** Every node of the tree rooted at `node`, in the pre-order in which the traversal enters them. */
  function Preorder(node: Node): (ns: seq<Node>)
    decreases node, 1, 0
  {
    [node] + PreorderChildren(node, |Children(node)|)
  }

  /** The pre-order listings of the first `n` children of `parent`, one after another. */
  function PreorderChildren(parent: Node, n: nat): seq<Node>
    requires n <= |Children(parent)|
    decreases parent, 0, n
  {
    if n == 0 then [] else PreorderChildren(parent, n - 1) + Preorder(Children(parent)[n - 1])
  }

  /**
   * A node as the traversal enters it: with its parent (`None` at the root) and whether it is
   * the callee of that parent call.
   */
  datatype Entered = Entered(node: Node, parent: Option<Node>, isCallee: bool)

  /** `Preorder` with each node's parent and callee flag. */
  function Entries(node: Node, parent: Option<Node>, isCallee: bool): seq<Entered>
    decreases node, 1, 0
  {
    [Entered(node, parent, isCallee)] + EntriesChildren(node, |Children(node)|)
  }

  /** The entries of the first `n` children of `parent`; child 0 of a call is its callee. */
  function EntriesChildren(parent: Node, n: nat): seq<Entered>
    requires n <= |Children(parent)|
    decreases parent, 0, n
  {
    if n == 0 then []
    else EntriesChildren(parent, n - 1) + Entries(Children(parent)[n - 1], Some(parent), parent.Call? && n == 1)
  }

  function NodesOf(es: seq<Entered>): (ns: seq<Node>)
  {
    seq(|es|, i requires 0 <= i < |es| => es[i].node)
  }

  lemma NodesOfAppend(a: seq<Entered>, b: seq<Entered>)
    ensures NodesOf(a + b) == NodesOf(a) + NodesOf(b)
  {
  }

  /** The entries list the pre-order, node for node. */
  lemma {:induction false} EntriesArePreorder(node: Node, parent: Option<Node>, isCallee: bool)
    ensures NodesOf(Entries(node, parent, isCallee)) == Preorder(node)
    decreases node, 1, 0
  {
    EntriesChildrenArePreorder(node, |Children(node)|);
    NodesOfAppend([Entered(node, parent, isCallee)], EntriesChildren(node, |Children(node)|));
  }

  lemma {:induction false} EntriesChildrenArePreorder(parent: Node, n: nat)
    requires n <= |Children(parent)|
    ensures NodesOf(EntriesChildren(parent, n)) == PreorderChildren(parent, n)
    decreases parent, 0, n
  {
    if n > 0 {
      var c := Children(parent)[n - 1];
      EntriesChildrenArePreorder(parent, n - 1);
      EntriesArePreorder(c, Some(parent), parent.Call? && n == 1);
      NodesOfAppend(EntriesChildren(parent, n - 1), Entries(c, Some(parent), parent.Call? && n == 1));
    }
  }
}
