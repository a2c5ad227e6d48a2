/**
 * The member-discovery pass of src/ThisCompletionItemProvider.js as a pure fold over the
 * pre-order traversal: the state the three node handlers build up, how each handler changes
 * it, the final assembly, and what the pass is proved to compute.
 */
module Discovery {
  import opened Wrappers
  import opened EsTree
  import opened Completion

  /**
   * The per-request discovery state: the direct records (`completionItems`), which of them a
   * prototype assignment pushed (`fromPrototype`, one flag per direct record, kept for the
   * proofs only), the alias records (`selfCompletionItems`), the labels already recorded from
   * accesses (`processedLabels`) and whether an alias variable was declared (`includeSelfItems`).
   */
  datatype Acc = Acc(
    direct: seq<Item>,
    fromPrototype: seq<bool>,
    alias: seq<Item>,
    processed: seq<string>,
    includeAlias: bool)

  /** The state every request starts from. */
  const Fresh: Acc := Acc([], [], [], [], false)

  /** `var <alias> = ...`: a declarator whose identifier is a configured alias name. */
  predicate DeclaresAlias(aliases: seq<string>, node: Node)
  {
    node.VarDecl? && node.id.Ident? && node.id.name in aliases
  }

  /** `<anything>.prototype.<name> = ...` with an identifier as the member name. */
  predicate IsPrototypeAssignment(node: Node)
  {
    node.Assign? && node.left.Member? && node.left.obj.Member?
    && node.left.obj.prop.Ident? && node.left.obj.prop.name == Prototype
    && node.left.prop.Ident?
  }

  /** A non-computed access `this.<name>`. */
  predicate IsThisAccess(node: Node)
  {
    node.Member? && !node.computed && node.prop.Ident? && node.obj.This?
  }

  /** A non-computed access `<alias>.<name>` through a configured alias name. */
  predicate IsAliasAccess(aliases: seq<string>, node: Node)
  {
    node.Member? && !node.computed && node.prop.Ident? && node.obj.Ident? && node.obj.name in aliases
  }

  predicate IsTrackedAccess(aliases: seq<string>, node: Node)
  {
    IsThisAccess(node) || IsAliasAccess(aliases, node)
  }

  /** `processVariableDeclarator`. */
  function DeclaratorStep(aliases: seq<string>, node: Node, st: Acc): (r: Acc)
    requires node.VarDecl?
    ensures r.includeAlias == (st.includeAlias || DeclaresAlias(aliases, node))
    ensures r.(includeAlias := st.includeAlias) == st
  {
    if node.id.Ident? && IndexOf(aliases, node.id.name) != -1 then st.(includeAlias := true) else st
  }

  /** `processAssignmentExpression`: a prototype member is pushed, never deduplicated. */
  function AssignmentStep(node: Node, st: Acc): (r: Acc)
    requires node.Assign?
    ensures IsPrototypeAssignment(node) ==>
      r.direct == st.direct + [PrototypeItem(node.left.prop.name, node.right)]
      && r.fromPrototype == st.fromPrototype + [true]
    ensures !IsPrototypeAssignment(node) ==> r == st
    ensures r.alias == st.alias && r.processed == st.processed && r.includeAlias == st.includeAlias
  {
    var left := node.left;
    if left.Member? && left.obj.Member? && left.obj.prop.Ident? && left.obj.prop.name == Prototype
       && left.prop.Ident?
    then
      st.(direct := st.direct + [PrototypeItem(left.prop.name, node.right)],
          fromPrototype := st.fromPrototype + [true])
    else st
  }

  /** `processMemberExpression`: `this` accesses go to the direct list, alias accesses to the alias list. */
  function MemberStep(aliases: seq<string>, node: Node, parent: Option<Node>, isCallee: bool, st: Acc): (r: Acc)
    requires node.Member?
    ensures r == if !IsTrackedAccess(aliases, node) || node.prop.name in st.processed then st
                 else if IsThisAccess(node) then
                   st.(direct := st.direct + [AccessItem(node.prop.name, parent, isCallee)],
                       fromPrototype := st.fromPrototype + [false], processed := st.processed + [node.prop.name])
                 else
                   st.(alias := st.alias + [AccessItem(node.prop.name, parent, isCallee)],
                       processed := st.processed + [node.prop.name])
  {
    if !node.computed && node.prop.Ident? then
      if node.obj.This? then
        var (item, processed) := CreateItem(node.prop.name, parent, isCallee, st.processed);
        if item.Some? then
          st.(direct := st.direct + [item.value], fromPrototype := st.fromPrototype + [false], processed := processed)
        else st.(processed := processed)
      else if node.obj.Ident? && IndexOf(aliases, node.obj.name) != -1 then
        var (item, processed) := CreateItem(node.prop.name, parent, isCallee, st.processed);
        if item.Some? then st.(alias := st.alias + [item.value], processed := processed)
        else st.(processed := processed)
      else st
    else st
  }

  /** The `enter` callback: dispatch on the node type. */
  function Enter(aliases: seq<string>, node: Node, parent: Option<Node>, isCallee: bool, st: Acc): Acc
  {
    if node.VarDecl? then DeclaratorStep(aliases, node, st)
    else if node.Assign? then AssignmentStep(node, st)
    else if node.Member? then MemberStep(aliases, node, parent, isCallee, st)
    else st
  }

  /** The traversal: enter `node`, then its children in order, each with `node` as its parent. */
  function Walk(aliases: seq<string>, node: Node, parent: Option<Node>, isCallee: bool, st: Acc): Acc
    decreases node, 1, 0
  {
    WalkChildren(aliases, node, |Children(node)|, Enter(aliases, node, parent, isCallee, st))
  }

  /** The traversal of the first `n` children of `parent`; child 0 of a call is its callee. */
  function WalkChildren(aliases: seq<string>, parent: Node, n: nat, st: Acc): Acc
    requires n <= |Children(parent)|
    decreases parent, 0, n
  {
    if n == 0 then st
    else Walk(aliases, Children(parent)[n - 1], Some(parent), parent.Call? && n == 1,
              WalkChildren(aliases, parent, n - 1, st))
  }

  /** The end of `prepareCompletionItems`: alias records are appended only if an alias was declared. */
  function Assemble(st: Acc): seq<Item>
  {
    if st.includeAlias then st.direct + st.alias else st.direct
  }

  /** Which entries of `Assemble(st)` a prototype assignment pushed. */
  function AssembledOrigins(st: Acc): seq<bool>
  {
    if st.includeAlias then st.fromPrototype + seq(|st.alias|, _ => false) else st.fromPrototype
  }

  /** The state after one traversal of `root` from a fresh state. */
  function Discover(aliases: seq<string>, root: Node): Acc
  {
    Walk(aliases, root, None, false, Fresh)
  }

  /** The completion list one request returns for `root`. */
  function Collect(aliases: seq<string>, root: Node): seq<Item>
  {
    Assemble(Discover(aliases, root))
  }

  // ---------------------------------------------------------------------------
  // Reference definitions, stated over the pre-order listing of the tree.

  function ToSet(s: seq<string>): set<string>
  {
    set x | x in s
  }

  /** The names accessed through `this` or an alias anywhere among `ns`. */
  function TrackedNames(aliases: seq<string>, ns: seq<Node>): set<string>
  {
    set m | m in ns && IsTrackedAccess(aliases, m) :: m.prop.name
  }

  /** The records of the prototype assignments among `ns`, in order. */
  function PrototypeItems(ns: seq<Node>): seq<Item>
  {
    if ns == [] then []
    else
      var m := ns[|ns| - 1];
      PrototypeItems(ns[..|ns| - 1])
      + (if IsPrototypeAssignment(m) then [PrototypeItem(m.left.prop.name, m.right)] else [])
  }

  /** The items whose flag equals `keep`, in order. */
  function Masked(items: seq<Item>, mask: seq<bool>, keep: bool): seq<Item>
    requires |items| == |mask|
  {
    if items == [] then []
    else
      Masked(items[..|items| - 1], mask[..|mask| - 1], keep)
      + (if mask[|mask| - 1] == keep then [items[|items| - 1]] else [])
  }

  /** Entry `i` of the direct list came from a `this` access (not a prototype assignment). */
  predicate IsAccessEntry(st: Acc, i: int)
  {
    0 <= i < |st.direct| && i < |st.fromPrototype| && !st.fromPrototype[i]
  }

  /** The labels of all records made from `this` and alias accesses. */
  function AccessNames(st: Acc): set<string>
  {
    (set i | 0 <= i < |st.direct| && IsAccessEntry(st, i) :: st.direct[i].name)
    + (set j | 0 <= j < |st.alias| :: st.alias[j].name)
  }

  /** No two records made from accesses share a label, across both lists. */
  ghost predicate AccessNamesDistinct(st: Acc)
  {
    (forall i, k :: IsAccessEntry(st, i) && IsAccessEntry(st, k) && i != k ==> st.direct[i].name != st.direct[k].name)
    && (forall j, l :: 0 <= j < |st.alias| && 0 <= l < |st.alias| && j != l ==> st.alias[j].name != st.alias[l].name)
    && (forall i, j :: IsAccessEntry(st, i) && 0 <= j < |st.alias| ==> st.direct[i].name != st.alias[j].name)
  }

  predicate AllWellFormed(items: seq<Item>)
  {
    forall i :: 0 <= i < |items| ==> WellFormed(items[i])
  }

  /** What every state reached by the traversal satisfies. */
  ghost predicate Inv(st: Acc)
  {
    |st.direct| == |st.fromPrototype|
    && AllWellFormed(st.direct) && AllWellFormed(st.alias)
    && AccessNamesDistinct(st)
    && AccessNames(st) == ToSet(st.processed)
  }

  // ---------------------------------------------------------------------------
  // The invariant.

  lemma FreshInv()
    ensures Inv(Fresh)
  {
    assert AccessNames(Fresh) == {};
    assert ToSet([]) == {};
  }

  /** Facts about the access labels of a state that hold by `Inv` alone. */
  lemma AccessLabelsProcessed(st: Acc)
    requires Inv(st)
    ensures forall i :: IsAccessEntry(st, i) ==> st.direct[i].name in st.processed
    ensures forall j :: 0 <= j < |st.alias| ==> st.alias[j].name in st.processed
  {
    forall i | IsAccessEntry(st, i) ensures st.direct[i].name in st.processed {
      assert st.direct[i].name in AccessNames(st);
    }
    forall j | 0 <= j < |st.alias| ensures st.alias[j].name in st.processed {
      assert st.alias[j].name in AccessNames(st);
    }
  }

  /** A first-seen `this` access appended to the direct list keeps every access label distinct. */
  lemma AddDirectAccessKeepsInv(st: Acc, it: Item)
    requires Inv(st) && WellFormed(it) && it.name !in st.processed
    ensures Inv(st.(direct := st.direct + [it], fromPrototype := st.fromPrototype + [false],
                    processed := st.processed + [it.name]))
  {
    var r := st.(direct := st.direct + [it], fromPrototype := st.fromPrototype + [false],
                 processed := st.processed + [it.name]);
    AccessLabelsProcessed(st);
    var n := |st.direct|;
    assert forall i :: IsAccessEntry(r, i) <==> IsAccessEntry(st, i) || i == n;
    assert ToSet(r.processed) == ToSet(st.processed) + {it.name};
    assert AccessNames(r) == AccessNames(st) + {it.name} by {
      assert r.direct[n].name == it.name;
      forall x | x in AccessNames(r) ensures x in AccessNames(st) + {it.name} {
        if x in (set i | 0 <= i < |r.direct| && IsAccessEntry(r, i) :: r.direct[i].name) {
          var i :| 0 <= i < |r.direct| && IsAccessEntry(r, i) && r.direct[i].name == x;
          if i < n { assert st.direct[i].name == x && IsAccessEntry(st, i); }
        }
      }
    }
  }

  /** A first-seen alias access appended to the alias list keeps every access label distinct. */
  lemma AddAliasAccessKeepsInv(st: Acc, it: Item)
    requires Inv(st) && WellFormed(it) && it.name !in st.processed
    ensures Inv(st.(alias := st.alias + [it], processed := st.processed + [it.name]))
  {
    var r := st.(alias := st.alias + [it], processed := st.processed + [it.name]);
    AccessLabelsProcessed(st);
    var n := |st.alias|;
    assert forall i :: IsAccessEntry(r, i) <==> IsAccessEntry(st, i);
    assert ToSet(r.processed) == ToSet(st.processed) + {it.name};
    assert AccessNames(r) == AccessNames(st) + {it.name} by {
      assert r.alias[n].name == it.name;
      forall x | x in AccessNames(r) ensures x in AccessNames(st) + {it.name} {
        if x in (set j | 0 <= j < |r.alias| :: r.alias[j].name) {
          var j :| 0 <= j < |r.alias| && r.alias[j].name == x;
          if j < n { assert st.alias[j].name == x; }
        }
      }
      forall x | x in AccessNames(st) + {it.name} ensures x in AccessNames(r) {
        if x == it.name {
          assert x in (set j | 0 <= j < |r.alias| :: r.alias[j].name);
        } else if x in (set j | 0 <= j < |st.alias| :: st.alias[j].name) {
          var j :| 0 <= j < |st.alias| && st.alias[j].name == x;
          assert r.alias[j].name == x;
          assert x in (set j | 0 <= j < |r.alias| :: r.alias[j].name);
        }
      }
    }
  }

  lemma {:induction false} EnterKeepsInv(aliases: seq<string>, node: Node, parent: Option<Node>, isCallee: bool, st: Acc)
    requires Inv(st)
    ensures Inv(Enter(aliases, node, parent, isCallee, st))
  {
    var r := Enter(aliases, node, parent, isCallee, st);
    if node.Assign? && r != st {
      assert forall i :: IsAccessEntry(r, i) <==> IsAccessEntry(st, i);
      assert AccessNames(r) == AccessNames(st);
    } else if node.Member? && IsTrackedAccess(aliases, node) && node.prop.name !in st.processed {
      var it := AccessItem(node.prop.name, parent, isCallee);
      if IsThisAccess(node) { AddDirectAccessKeepsInv(st, it); } else { AddAliasAccessKeepsInv(st, it); }
    }
  }

  lemma {:induction false} WalkKeepsInv(aliases: seq<string>, node: Node, parent: Option<Node>, isCallee: bool, st: Acc)
    requires Inv(st)
    ensures Inv(Walk(aliases, node, parent, isCallee, st))
    decreases node, 1, 0
  {
    EnterKeepsInv(aliases, node, parent, isCallee, st);
    WalkChildrenKeepsInv(aliases, node, |Children(node)|, Enter(aliases, node, parent, isCallee, st));
  }

  lemma {:induction false} WalkChildrenKeepsInv(aliases: seq<string>, parent: Node, n: nat, st: Acc)
    requires n <= |Children(parent)|
    requires Inv(st)
    ensures Inv(WalkChildren(aliases, parent, n, st))
    decreases parent, 0, n
  {
    if n > 0 {
      WalkChildrenKeepsInv(aliases, parent, n - 1, st);
      WalkKeepsInv(aliases, Children(parent)[n - 1], Some(parent), parent.Call? && n == 1,
                   WalkChildren(aliases, parent, n - 1, st));
    } else {
      assert WalkChildren(aliases, parent, n, st) == st;
    }
  }

  // ---------------------------------------------------------------------------
  // Nodes that no handler acts on.

  /** A node that declares no alias, assigns no prototype member and is no tracked access. */
  predicate Inert(aliases: seq<string>, node: Node)
  {
    !DeclaresAlias(aliases, node) && !IsPrototypeAssignment(node) && !IsTrackedAccess(aliases, node)
  }

  /** A subtree all of whose nodes are inert. */
  predicate Quiet(aliases: seq<string>, node: Node)
    decreases node
  {
    Inert(aliases, node) && forall i :: 0 <= i < |Children(node)| ==> Quiet(aliases, Children(node)[i])
  }

  /** The `enter` callback changes nothing on an inert node. */
  lemma EnterInert(aliases: seq<string>, node: Node, parent: Option<Node>, isCallee: bool, st: Acc)
    requires Inert(aliases, node)
    ensures Enter(aliases, node, parent, isCallee, st) == st
  {
  }

  /** Traversing a node whose children are all quiet does what entering the node does. */
  lemma {:induction false} WalkOverQuietChildren(aliases: seq<string>, node: Node, parent: Option<Node>, isCallee: bool, st: Acc)
    requires forall i :: 0 <= i < |Children(node)| ==> Quiet(aliases, Children(node)[i])
    ensures Walk(aliases, node, parent, isCallee, st) == Enter(aliases, node, parent, isCallee, st)
    decreases node, 1, 0
  {
    WalkChildrenQuiet(aliases, node, |Children(node)|, Enter(aliases, node, parent, isCallee, st));
  }

  /** A stretch of quiet children leaves the state as it was. */
  lemma {:induction false} WalkChildrenQuiet(aliases: seq<string>, parent: Node, n: nat, st: Acc)
    requires n <= |Children(parent)|
    requires forall i :: 0 <= i < n ==> Quiet(aliases, Children(parent)[i])
    ensures WalkChildren(aliases, parent, n, st) == st
    decreases parent, 0, n
  {
    if n > 0 {
      var c := Children(parent)[n - 1];
      WalkChildrenQuiet(aliases, parent, n - 1, st);
      EnterInert(aliases, c, Some(parent), parent.Call? && n == 1, st);
      WalkOverQuietChildren(aliases, c, Some(parent), parent.Call? && n == 1, st);
    }
  }

  // ---------------------------------------------------------------------------
  // Alias gating.

  /** After entering `es` the flag is set exactly when it was before or one of them declares an alias. */
  lemma {:induction false} EnterAllIncludeAlias(aliases: seq<string>, es: seq<Entered>, st: Acc)
    ensures EnterAll(aliases, es, st).includeAlias
        <==> st.includeAlias || exists m :: m in NodesOf(es) && DeclaresAlias(aliases, m)
    decreases |es|
  {
    if es != [] {
      var e := es[0];
      var st1 := Enter(aliases, e.node, e.parent, e.isCallee, st);
      assert st1.includeAlias <==> st.includeAlias || DeclaresAlias(aliases, e.node);
      EnterAllIncludeAlias(aliases, es[1..], st1);
      assert NodesOf(es) == [e.node] + NodesOf(es[1..]) by {
        assert es == [e] + es[1..];
        NodesOfAppend([e], es[1..]);
      }
    } else {
      assert NodesOf(es) == [];
    }
  }

  lemma WalkIncludeAlias(aliases: seq<string>, node: Node, parent: Option<Node>, isCallee: bool, st: Acc)
    ensures Walk(aliases, node, parent, isCallee, st).includeAlias
        <==> st.includeAlias || exists m :: m in Preorder(node) && DeclaresAlias(aliases, m)
  {
    WalkIsEnterAll(aliases, node, parent, isCallee, st);
    EnterAllIncludeAlias(aliases, Entries(node, parent, isCallee), st);
    EntriesArePreorder(node, parent, isCallee);
  }

  /**
   * The alias records are part of the result exactly when some declarator binds an alias name;
   * otherwise the result is the direct records alone.
   */
  lemma AliasGating(aliases: seq<string>, root: Node)
    ensures var st := Discover(aliases, root);
      Collect(aliases, root) ==
        if exists m :: m in Preorder(root) && DeclaresAlias(aliases, m) then st.direct + st.alias else st.direct
  {
    WalkIncludeAlias(aliases, root, None, false, Fresh);
  }

  // ---------------------------------------------------------------------------
  // The processed labels are exactly the names accessed through `this` or an alias.

  lemma TrackedNamesAppend(aliases: seq<string>, a: seq<Node>, b: seq<Node>)
    ensures TrackedNames(aliases, a + b) == TrackedNames(aliases, a) + TrackedNames(aliases, b)
  {
    forall x | x in TrackedNames(aliases, a + b) ensures x in TrackedNames(aliases, a) + TrackedNames(aliases, b) {
      var m :| m in a + b && IsTrackedAccess(aliases, m) && m.prop.name == x;
      if m in a { assert x in TrackedNames(aliases, a); } else { assert x in TrackedNames(aliases, b); }
    }
    forall x | x in TrackedNames(aliases, a) + TrackedNames(aliases, b) ensures x in TrackedNames(aliases, a + b) {
      if x in TrackedNames(aliases, a) {
        var m :| m in a && IsTrackedAccess(aliases, m) && m.prop.name == x;
        assert m in a + b;
      } else {
        var m :| m in b && IsTrackedAccess(aliases, m) && m.prop.name == x;
        assert m in a + b;
      }
    }
  }

  lemma {:induction false} EnterProcessed(aliases: seq<string>, node: Node, parent: Option<Node>, isCallee: bool, st: Acc)
    ensures ToSet(Enter(aliases, node, parent, isCallee, st).processed) == ToSet(st.processed) + TrackedNames(aliases, [node])
  {
    var r := Enter(aliases, node, parent, isCallee, st);
    if IsTrackedAccess(aliases, node) {
      assert TrackedNames(aliases, [node]) == {node.prop.name};
      if node.prop.name !in st.processed {
        assert r.processed == st.processed + [node.prop.name];
      }
    } else {
      assert TrackedNames(aliases, [node]) == {};
    }
  }

  /** Entering a list of entries adds to the processed labels exactly the names they access. */
  lemma {:induction false} EnterAllProcessed(aliases: seq<string>, es: seq<Entered>, st: Acc)
    ensures ToSet(EnterAll(aliases, es, st).processed) == ToSet(st.processed) + TrackedNames(aliases, NodesOf(es))
    decreases |es|
  {
    if es != [] {
      var e := es[0];
      var st1 := Enter(aliases, e.node, e.parent, e.isCallee, st);
      EnterProcessed(aliases, e.node, e.parent, e.isCallee, st);
      EnterAllProcessed(aliases, es[1..], st1);
      assert NodesOf(es) == [e.node] + NodesOf(es[1..]) by {
        assert es == [e] + es[1..];
        NodesOfAppend([e], es[1..]);
      }
      TrackedNamesAppend(aliases, [e.node], NodesOf(es[1..]));
    } else {
      assert NodesOf(es) == [];
      assert TrackedNames(aliases, []) == {};
    }
  }

  lemma WalkProcessed(aliases: seq<string>, node: Node, parent: Option<Node>, isCallee: bool, st: Acc)
    ensures ToSet(Walk(aliases, node, parent, isCallee, st).processed)
         == ToSet(st.processed) + TrackedNames(aliases, Preorder(node))
  {
    WalkIsEnterAll(aliases, node, parent, isCallee, st);
    EnterAllProcessed(aliases, Entries(node, parent, isCallee), st);
    EntriesArePreorder(node, parent, isCallee);
  }

  /**
   * Every name accessed as `this.<name>` or `<alias>.<name>` anywhere in the tree is the label
   * of exactly one record made from an access, and no such record has another label.
   */
  lemma DiscoveredAccessNames(aliases: seq<string>, root: Node)
    ensures AccessNames(Discover(aliases, root)) == TrackedNames(aliases, Preorder(root))
    ensures AccessNamesDistinct(Discover(aliases, root))
  {
    FreshInv();
    WalkKeepsInv(aliases, root, None, false, Fresh);
    WalkProcessed(aliases, root, None, false, Fresh);
    assert ToSet(Fresh.processed) == {};
  }

  // ---------------------------------------------------------------------------
  // The traversal as a fold over the entries, and the access records it makes.

  /** The `enter` callback applied to each entry in turn. */
  function EnterAll(aliases: seq<string>, es: seq<Entered>, st: Acc): Acc
    decreases |es|
  {
    if es == [] then st
    else EnterAll(aliases, es[1..], Enter(aliases, es[0].node, es[0].parent, es[0].isCallee, st))
  }

  lemma {:induction false} EnterAllAppend(aliases: seq<string>, a: seq<Entered>, b: seq<Entered>, st: Acc)
    ensures EnterAll(aliases, a + b, st) == EnterAll(aliases, b, EnterAll(aliases, a, st))
    decreases |a|
  {
    if a != [] {
      assert (a + b)[0] == a[0] && (a + b)[1..] == a[1..] + b;
      EnterAllAppend(aliases, a[1..], b, Enter(aliases, a[0].node, a[0].parent, a[0].isCallee, st));
    } else {
      assert a + b == b;
    }
  }

  /** The recursive traversal enters the nodes one by one, in the order `Entries` lists them. */
  lemma {:induction false} WalkIsEnterAll(aliases: seq<string>, node: Node, parent: Option<Node>, isCallee: bool, st: Acc)
    ensures Walk(aliases, node, parent, isCallee, st) == EnterAll(aliases, Entries(node, parent, isCallee), st)
    decreases node, 1, 0, 0
  {
    var e := Entered(node, parent, isCallee);
    var entered := Enter(aliases, node, parent, isCallee, st);
    WalkChildrenIsEnterAll(aliases, node, |Children(node)|, entered);
    EnterAllAppend(aliases, [e], EntriesChildren(node, |Children(node)|), st);
    assert [e][1..] == [];
    assert EnterAll(aliases, [e], st) == entered;
  }

  lemma {:induction false} WalkChildrenIsEnterAll(aliases: seq<string>, parent: Node, n: nat, st: Acc)
    requires n <= |Children(parent)|
    ensures WalkChildren(aliases, parent, n, st) == EnterAll(aliases, EntriesChildren(parent, n), st)
    decreases parent, 0, n, 1
  {
    if n > 0 {
      WalkChildrenIsEnterAll(aliases, parent, n - 1, st);
      NextChildIsEnterAll(aliases, parent, n, st);
    } else {
      assert EntriesChildren(parent, n) == [];
      assert WalkChildren(aliases, parent, n, st) == st;
    }
  }

  /** The step of `WalkChildrenIsEnterAll`: the first `n - 1` children, then child `n - 1`. */
  lemma {:induction false} NextChildIsEnterAll(aliases: seq<string>, parent: Node, n: nat, st: Acc)
    requires 0 < n <= |Children(parent)|
    requires WalkChildren(aliases, parent, n - 1, st) == EnterAll(aliases, EntriesChildren(parent, n - 1), st)
    ensures WalkChildren(aliases, parent, n, st) == EnterAll(aliases, EntriesChildren(parent, n), st)
    decreases parent, 0, n, 0
  {
    var c, isCallee := Children(parent)[n - 1], parent.Call? && n == 1;
    var mid := WalkChildren(aliases, parent, n - 1, st);
    var before, after := EntriesChildren(parent, n - 1), Entries(c, Some(parent), isCallee);
    assert c in Children(parent);
    WalkIsEnterAll(aliases, c, Some(parent), isCallee, mid);
    assert EntriesChildren(parent, n) == before + after;
    EnterAllAppend(aliases, before, after, st);
  }

  /** The records of the first entry, if it is a first-seen access through the base `viaThis` picks. */
  function HeadAccess(aliases: seq<string>, e: Entered, seen: set<string>, viaThis: bool): seq<Item>
  {
    if IsTrackedAccess(aliases, e.node) && e.node.prop.name !in seen && IsThisAccess(e.node) == viaThis
    then [AccessItem(e.node.prop.name, e.parent, e.isCallee)] else []
  }

  /** The names seen after entry `e`. */
  function SeenAfter(aliases: seq<string>, e: Entered, seen: set<string>): set<string>
  {
    if IsTrackedAccess(aliases, e.node) then seen + {e.node.prop.name} else seen
  }

  /**
   * The records of the first tracked access of each name among `es`, in order: an entry counts
   * when it is an access through `this` or an alias whose name is not in `seen`, and `seen`
   * grows by the name of every such access. `viaThis` picks the `this` accesses (true) or the
   * alias accesses (false).
   */
  function FirstAccesses(aliases: seq<string>, es: seq<Entered>, seen: set<string>, viaThis: bool): seq<Item>
    decreases |es|
  {
    if es == [] then []
    else HeadAccess(aliases, es[0], seen, viaThis) + FirstAccesses(aliases, es[1..], SeenAfter(aliases, es[0], seen), viaThis)
  }

  /** The direct records made from `this` accesses, in order. */
  function DirectAccessItems(st: Acc): seq<Item>
    requires |st.direct| == |st.fromPrototype|
  {
    Masked(st.direct, st.fromPrototype, false)
  }

  lemma MaskedPush(items: seq<Item>, mask: seq<bool>, it: Item, flag: bool, keep: bool)
    requires |items| == |mask|
    ensures Masked(items + [it], mask + [flag], keep) == Masked(items, mask, keep) + (if flag == keep then [it] else [])
  {
    assert (items + [it])[..|items|] == items;
    assert (mask + [flag])[..|mask|] == mask;
  }

  /** One handler adds the record of a first-seen access to the list of its base, and no other. */
  lemma {:induction false} EnterAccesses(aliases: seq<string>, node: Node, parent: Option<Node>, isCallee: bool, st: Acc)
    requires |st.direct| == |st.fromPrototype|
    ensures var r := Enter(aliases, node, parent, isCallee, st);
      var first := IsTrackedAccess(aliases, node) && node.prop.name !in st.processed;
      |r.direct| == |r.fromPrototype|
      && DirectAccessItems(r) == DirectAccessItems(st)
         + (if first && IsThisAccess(node) then [AccessItem(node.prop.name, parent, isCallee)] else [])
      && r.alias == st.alias
         + (if first && !IsThisAccess(node) then [AccessItem(node.prop.name, parent, isCallee)] else [])
  {
    var r := Enter(aliases, node, parent, isCallee, st);
    if IsPrototypeAssignment(node) {
      var it := PrototypeItem(node.left.prop.name, node.right);
      assert r.direct == st.direct + [it] && r.fromPrototype == st.fromPrototype + [true] && r.alias == st.alias;
      MaskedPush(st.direct, st.fromPrototype, it, true, false);
    } else if IsTrackedAccess(aliases, node) && node.prop.name !in st.processed {
      var it := AccessItem(node.prop.name, parent, isCallee);
      if IsThisAccess(node) {
        assert r.direct == st.direct + [it] && r.fromPrototype == st.fromPrototype + [false] && r.alias == st.alias;
        MaskedPush(st.direct, st.fromPrototype, it, false, false);
      } else {
        assert r.direct == st.direct && r.fromPrototype == st.fromPrototype && r.alias == st.alias + [it];
      }
    } else {
      assert r.direct == st.direct && r.fromPrototype == st.fromPrototype && r.alias == st.alias;
    }
  }

  lemma {:induction false} EnterAllAccesses(aliases: seq<string>, es: seq<Entered>, st: Acc)
    requires |st.direct| == |st.fromPrototype|
    ensures var r := EnterAll(aliases, es, st);
      |r.direct| == |r.fromPrototype|
      && DirectAccessItems(r) == DirectAccessItems(st) + FirstAccesses(aliases, es, ToSet(st.processed), true)
      && r.alias == st.alias + FirstAccesses(aliases, es, ToSet(st.processed), false)
    decreases |es|, 1
  {
    if es != [] {
      var e := es[0];
      var st1 := Enter(aliases, e.node, e.parent, e.isCallee, st);
      var seen := ToSet(st.processed);
      assert |st1.direct| == |st1.fromPrototype|
        && DirectAccessItems(st1) == DirectAccessItems(st) + HeadAccess(aliases, e, seen, true)
        && st1.alias == st.alias + HeadAccess(aliases, e, seen, false) by {
        EnterAccesses(aliases, e.node, e.parent, e.isCallee, st);
      }
      assert ToSet(st1.processed) == SeenAfter(aliases, e, seen) by {
        EnterProcessed(aliases, e.node, e.parent, e.isCallee, st);
        if IsTrackedAccess(aliases, e.node) {
          assert TrackedNames(aliases, [e.node]) == {e.node.prop.name};
        } else {
          assert TrackedNames(aliases, [e.node]) == {};
        }
      }
      EnterAllAccessesTail(aliases, es, st, st1);
    } else {
      assert DirectAccessItems(st) + [] == DirectAccessItems(st);
      assert st.alias + [] == st.alias;
    }
  }

  /** The rest of the fold, once the first entry has taken `st` to `st1`. */
  lemma {:induction false} EnterAllAccessesTail(aliases: seq<string>, es: seq<Entered>, st: Acc, st1: Acc)
    requires es != [] && |st.direct| == |st.fromPrototype| && |st1.direct| == |st1.fromPrototype|
    requires DirectAccessItems(st1) == DirectAccessItems(st) + HeadAccess(aliases, es[0], ToSet(st.processed), true)
    requires st1.alias == st.alias + HeadAccess(aliases, es[0], ToSet(st.processed), false)
    requires ToSet(st1.processed) == SeenAfter(aliases, es[0], ToSet(st.processed))
    ensures var r := EnterAll(aliases, es[1..], st1);
      |r.direct| == |r.fromPrototype|
      && DirectAccessItems(r) == DirectAccessItems(st) + FirstAccesses(aliases, es, ToSet(st.processed), true)
      && r.alias == st.alias + FirstAccesses(aliases, es, ToSet(st.processed), false)
    decreases |es|, 0
  {
    EnterAllAccesses(aliases, es[1..], st1);
    FoldConcat(DirectAccessItems(st), HeadAccess(aliases, es[0], ToSet(st.processed), true),
               FirstAccesses(aliases, es[1..], ToSet(st1.processed), true));
    FoldConcat(st.alias, HeadAccess(aliases, es[0], ToSet(st.processed), false),
               FirstAccesses(aliases, es[1..], ToSet(st1.processed), false));
  }

  lemma FoldConcat(a: seq<Item>, b: seq<Item>, c: seq<Item>)
    ensures a + b + c == a + (b + c)
  {
  }

  /**
   * The records the traversal makes from accesses are, for each name accessed through `this`
   * or an alias, the record of its first such access in traversal order, classified by that
   * access's parent: in the direct list when that first access is through `this`, in the alias
   * list when it is through an alias.
   */
  lemma DiscoveredAccessRecords(aliases: seq<string>, root: Node)
    ensures var st := Discover(aliases, root);
      var es := Entries(root, None, false);
      |st.direct| == |st.fromPrototype|
      && DirectAccessItems(st) == FirstAccesses(aliases, es, {}, true)
      && st.alias == FirstAccesses(aliases, es, {}, false)
  {
    WalkIsEnterAll(aliases, root, None, false, Fresh);
    EnterAllAccesses(aliases, Entries(root, None, false), Fresh);
    assert ToSet(Fresh.processed) == {};
    assert DirectAccessItems(Fresh) == [];
  }

  /**
   * The records of the result made from accesses: the first `this` access of each tracked name,
   * in traversal order, followed, when some declarator binds an alias name, by the first alias
   * access of each name whose first tracked access is through an alias.
   */
  lemma CollectAccessRecords(aliases: seq<string>, root: Node)
    ensures var out := Collect(aliases, root);
      var origin := AssembledOrigins(Discover(aliases, root));
      var es := Entries(root, None, false);
      |out| == |origin|
      && Masked(out, origin, false)
         == FirstAccesses(aliases, es, {}, true)
            + (if exists m :: m in Preorder(root) && DeclaresAlias(aliases, m) then FirstAccesses(aliases, es, {}, false) else [])
  {
    var st := Discover(aliases, root);
    DiscoveredAccessRecords(aliases, root);
    WalkIncludeAlias(aliases, root, None, false, Fresh);
    if st.includeAlias {
      MaskedAppendUnflagged(st.direct, st.fromPrototype, st.alias, false);
    } else {
      assert FirstAccesses(aliases, Entries(root, None, false), {}, true) + [] == DirectAccessItems(st);
    }
  }

  /** The direct record of one entry: its prototype record, or its record as a first-seen `this` access. */
  function HeadDirect(aliases: seq<string>, e: Entered, seen: set<string>): seq<Item>
  {
    if IsPrototypeAssignment(e.node) then [PrototypeItem(e.node.left.prop.name, e.node.right)]
    else HeadAccess(aliases, e, seen, true)
  }

  /**
   * The direct list a traversal of `es` builds, in order: every prototype assignment, and the
   * first `this` access of each name not in `seen`, interleaved as they occur.
   */
  function DirectRecords(aliases: seq<string>, es: seq<Entered>, seen: set<string>): seq<Item>
    decreases |es|
  {
    if es == [] then []
    else HeadDirect(aliases, es[0], seen) + DirectRecords(aliases, es[1..], SeenAfter(aliases, es[0], seen))
  }

  /** One handler appends to the direct list exactly the direct record of its entry. */
  lemma {:induction false} EnterDirect(aliases: seq<string>, e: Entered, st: Acc)
    ensures var r := Enter(aliases, e.node, e.parent, e.isCallee, st);
      r.direct == st.direct + HeadDirect(aliases, e, ToSet(st.processed))
      && ToSet(r.processed) == SeenAfter(aliases, e, ToSet(st.processed))
  {
    var r := Enter(aliases, e.node, e.parent, e.isCallee, st);
    EnterProcessed(aliases, e.node, e.parent, e.isCallee, st);
    if IsTrackedAccess(aliases, e.node) {
      assert TrackedNames(aliases, [e.node]) == {e.node.prop.name};
      assert e.node.prop.name in ToSet(st.processed) <==> e.node.prop.name in st.processed;
    } else {
      assert TrackedNames(aliases, [e.node]) == {};
      if !IsPrototypeAssignment(e.node) {
        assert r.direct == st.direct;
      }
    }
  }

  /** Entering a list of entries appends to the direct list exactly their direct records. */
  lemma {:induction false} EnterAllDirect(aliases: seq<string>, es: seq<Entered>, st: Acc)
    ensures EnterAll(aliases, es, st).direct == st.direct + DirectRecords(aliases, es, ToSet(st.processed))
    decreases |es|
  {
    if es != [] {
      var e := es[0];
      var st1 := Enter(aliases, e.node, e.parent, e.isCallee, st);
      var head := HeadDirect(aliases, e, ToSet(st.processed));
      EnterDirect(aliases, e, st);
      EnterAllDirect(aliases, es[1..], st1);
      FoldConcat(st.direct, head, DirectRecords(aliases, es[1..], ToSet(st1.processed)));
    } else {
      assert st.direct + [] == st.direct;
    }
  }

  /**
   * The whole result of a request, in order: the direct records as the traversal meets them,
   * prototype assignments and first `this` accesses interleaved, followed by the first alias
   * accesses exactly when some declarator binds an alias name.
   */
  lemma CollectRecords(aliases: seq<string>, root: Node)
    ensures var es := Entries(root, None, false);
      Collect(aliases, root)
        == DirectRecords(aliases, es, {})
           + (if exists m :: m in Preorder(root) && DeclaresAlias(aliases, m) then FirstAccesses(aliases, es, {}, false) else [])
  {
    var es := Entries(root, None, false);
    var st := Discover(aliases, root);
    assert st.direct == DirectRecords(aliases, es, {}) by {
      WalkIsEnterAll(aliases, root, None, false, Fresh);
      EnterAllDirect(aliases, es, Fresh);
      assert ToSet(Fresh.processed) == {};
      assert Fresh.direct + DirectRecords(aliases, es, {}) == DirectRecords(aliases, es, {});
    }
    assert st.alias == FirstAccesses(aliases, es, {}, false) by {
      DiscoveredAccessRecords(aliases, root);
    }
    AliasGating(aliases, root);
  }

  // ---------------------------------------------------------------------------
  // Prototype records: one per prototype assignment, in traversal order, never deduplicated.

  lemma {:induction false} PrototypeItemsAppend(a: seq<Node>, b: seq<Node>)
    ensures PrototypeItems(a + b) == PrototypeItems(a) + PrototypeItems(b)
    decreases |b|
  {
    if b != [] {
      assert (a + b)[..|a + b| - 1] == a + b[..|b| - 1];
      PrototypeItemsAppend(a, b[..|b| - 1]);
    } else {
      assert a + b == a;
    }
  }

  /** Appending entries flagged as not from a prototype (the alias records). */
  lemma {:induction false} MaskedAppendUnflagged(items: seq<Item>, mask: seq<bool>, more: seq<Item>, keep: bool)
    requires |items| == |mask|
    ensures Masked(items + more, mask + seq(|more|, _ => false), keep)
         == Masked(items, mask, keep) + (if keep then [] else more)
    decreases |more|
  {
    var falses := seq(|more|, _ => false);
    if more != [] {
      var k := |more| - 1;
      assert (items + more)[..|items + more| - 1] == items + more[..k];
      assert (mask + falses)[..|mask + falses| - 1] == mask + seq(k, _ => false);
      MaskedAppendUnflagged(items, mask, more[..k], keep);
      assert more == more[..k] + [more[k]];
    } else {
      assert items + more == items && mask + falses == mask;
    }
  }

  /** Prototype records collected over two consecutive stretches of the traversal. */
  lemma MaskedChain(st: Acc, mid: Acc, r: Acc, before: seq<Node>, after: seq<Node>)
    requires |st.direct| == |st.fromPrototype| && |mid.direct| == |mid.fromPrototype| && |r.direct| == |r.fromPrototype|
    requires Masked(mid.direct, mid.fromPrototype, true) == Masked(st.direct, st.fromPrototype, true) + PrototypeItems(before)
    requires Masked(r.direct, r.fromPrototype, true) == Masked(mid.direct, mid.fromPrototype, true) + PrototypeItems(after)
    ensures Masked(r.direct, r.fromPrototype, true) == Masked(st.direct, st.fromPrototype, true) + PrototypeItems(before + after)
  {
    PrototypeItemsAppend(before, after);
  }

  lemma {:induction false} EnterPrototype(aliases: seq<string>, node: Node, parent: Option<Node>, isCallee: bool, st: Acc)
    requires |st.direct| == |st.fromPrototype|
    ensures var r := Enter(aliases, node, parent, isCallee, st);
      |r.direct| == |r.fromPrototype|
      && Masked(r.direct, r.fromPrototype, true) == Masked(st.direct, st.fromPrototype, true) + PrototypeItems([node])
  {
    var r := Enter(aliases, node, parent, isCallee, st);
    if IsPrototypeAssignment(node) {
      var it := PrototypeItem(node.left.prop.name, node.right);
      assert PrototypeItems([node]) == [it] by { assert [node][..0] == []; }
      assert r.direct == st.direct + [it] && r.fromPrototype == st.fromPrototype + [true];
      MaskedPush(st.direct, st.fromPrototype, it, true, true);
    } else {
      assert PrototypeItems([node]) == [] by { assert [node][..0] == []; }
      if node.Member? && IsThisAccess(node) && node.prop.name !in st.processed {
        var it := AccessItem(node.prop.name, parent, isCallee);
        assert r.direct == st.direct + [it] && r.fromPrototype == st.fromPrototype + [false];
        MaskedPush(st.direct, st.fromPrototype, it, false, true);
      } else {
        assert r.direct == st.direct && r.fromPrototype == st.fromPrototype;
      }
    }
  }

  /** Entering a list of entries appends one prototype record per prototype assignment among them, in order. */
  lemma {:induction false} EnterAllPrototype(aliases: seq<string>, es: seq<Entered>, st: Acc)
    requires |st.direct| == |st.fromPrototype|
    ensures var r := EnterAll(aliases, es, st);
      |r.direct| == |r.fromPrototype|
      && Masked(r.direct, r.fromPrototype, true) == Masked(st.direct, st.fromPrototype, true) + PrototypeItems(NodesOf(es))
    decreases |es|
  {
    if es != [] {
      var e := es[0];
      var st1 := Enter(aliases, e.node, e.parent, e.isCallee, st);
      EnterPrototype(aliases, e.node, e.parent, e.isCallee, st);
      EnterAllPrototype(aliases, es[1..], st1);
      assert NodesOf(es) == [e.node] + NodesOf(es[1..]) by {
        assert es == [e] + es[1..];
        NodesOfAppend([e], es[1..]);
      }
      MaskedChain(st, st1, EnterAll(aliases, es[1..], st1), [e.node], NodesOf(es[1..]));
    } else {
      assert NodesOf(es) == [];
      assert Masked(st.direct, st.fromPrototype, true) + [] == Masked(st.direct, st.fromPrototype, true);
    }
  }

  /** Traversing a subtree appends one prototype record per prototype assignment in it, in traversal order. */
  lemma WalkPrototype(aliases: seq<string>, node: Node, parent: Option<Node>, isCallee: bool, st: Acc)
    requires |st.direct| == |st.fromPrototype|
    ensures var r := Walk(aliases, node, parent, isCallee, st);
      |r.direct| == |r.fromPrototype|
      && Masked(r.direct, r.fromPrototype, true) == Masked(st.direct, st.fromPrototype, true) + PrototypeItems(Preorder(node))
  {
    WalkIsEnterAll(aliases, node, parent, isCallee, st);
    EnterAllPrototype(aliases, Entries(node, parent, isCallee), st);
    EntriesArePreorder(node, parent, isCallee);
  }

  /**
   * The records of the result that prototype assignments pushed are, in order, exactly one per
   * prototype assignment in the tree, classified by its right-hand side.
   */
  lemma PrototypeRecords(aliases: seq<string>, root: Node)
    ensures var st := Discover(aliases, root);
      |Collect(aliases, root)| == |AssembledOrigins(st)|
      && Masked(Collect(aliases, root), AssembledOrigins(st), true) == PrototypeItems(Preorder(root))
  {
    var st := Discover(aliases, root);
    WalkPrototype(aliases, root, None, false, Fresh);
    if st.includeAlias {
      MaskedAppendUnflagged(st.direct, st.fromPrototype, st.alias, true);
    }
  }

  // ---------------------------------------------------------------------------
  // Properties of the result list.

  /** Every record of the result inserts `label()` if it is a method and its bare label otherwise. */
  lemma CollectWellFormed(aliases: seq<string>, root: Node)
    ensures AllWellFormed(Collect(aliases, root))
  {
    FreshInv();
    WalkKeepsInv(aliases, root, None, false, Fresh);
  }

  /** No two records of the result that came from `this` or alias accesses share a label. */
  lemma CollectAccessLabelsDistinct(aliases: seq<string>, root: Node)
    ensures var st := Discover(aliases, root); var out := Collect(aliases, root); var origin := AssembledOrigins(st);
      |out| == |origin|
      && forall i, j :: 0 <= i < j < |out| && !origin[i] && !origin[j] ==> out[i].name != out[j].name
  {
    var st := Discover(aliases, root);
    FreshInv();
    WalkKeepsInv(aliases, root, None, false, Fresh);
    var out := Assemble(st);
    var origin := AssembledOrigins(st);
    var d := |st.direct|;
    forall i, j | 0 <= i < j < |out| && !origin[i] && !origin[j] ensures out[i].name != out[j].name {
      if j < d {
        assert IsAccessEntry(st, i) && IsAccessEntry(st, j);
      } else if i < d {
        assert IsAccessEntry(st, i) && out[j] == st.alias[j - d];
      } else {
        assert out[i] == st.alias[i - d] && out[j] == st.alias[j - d];
      }
    }
  }
}
