/** Small trees and the completion lists the discovery pass yields for them. */
module Examples {
  import opened Wrappers
  import opened EsTree
  import opened Completion
  import opened Discovery

  function ExprStatement(e: Node): Node { Other([e]) }
  function Literal(): Node { Other([]) }
  function Dot(obj: Node, name: string): Node { Member(obj, Ident(name), false) }

  lemma LeafQuiet(aliases: seq<string>, n: Node)
    requires n.This? || n.Ident? || n == Literal() || n == Func([])
    ensures Quiet(aliases, n)
  {
    assert Children(n) == [];
  }

  /** An access on a leaf base: only the member handler acts. */
  lemma WalkDot(aliases: seq<string>, obj: Node, name: string, parent: Option<Node>, isCallee: bool, st: Acc)
    requires obj.This? || obj.Ident?
    ensures Walk(aliases, Dot(obj, name), parent, isCallee, st) == MemberStep(aliases, Dot(obj, name), parent, isCallee, st)
  {
    LeafQuiet(aliases, obj);
    LeafQuiet(aliases, Ident(name));
    assert Children(Dot(obj, name)) == [obj, Ident(name)];
    WalkOverQuietChildren(aliases, Dot(obj, name), parent, isCallee, st);
  }

  lemma WalkQuiet(aliases: seq<string>, n: Node, parent: Option<Node>, isCallee: bool, st: Acc)
    requires Quiet(aliases, n)
    ensures Walk(aliases, n, parent, isCallee, st) == st
  {
    EnterInert(aliases, n, parent, isCallee, st);
    WalkOverQuietChildren(aliases, n, parent, isCallee, st);
  }

  lemma WalkOneChild(aliases: seq<string>, n: Node, parent: Option<Node>, isCallee: bool, st: Acc)
    requires |Children(n)| == 1
    ensures Walk(aliases, n, parent, isCallee, st)
         == Walk(aliases, Children(n)[0], Some(n), n.Call?, Enter(aliases, n, parent, isCallee, st))
  {
    var entered := Enter(aliases, n, parent, isCallee, st);
    assert WalkChildren(aliases, n, 0, entered) == entered;
  }

  lemma WalkTwoChildren(aliases: seq<string>, n: Node, parent: Option<Node>, isCallee: bool, st: Acc)
    requires |Children(n)| == 2
    ensures Walk(aliases, n, parent, isCallee, st)
         == Walk(aliases, Children(n)[1], Some(n), false,
                 Walk(aliases, Children(n)[0], Some(n), n.Call?, Enter(aliases, n, parent, isCallee, st)))
  {
    var entered := Enter(aliases, n, parent, isCallee, st);
    assert WalkChildren(aliases, n, 0, entered) == entered;
    assert WalkChildren(aliases, n, 1, entered) == Walk(aliases, Children(n)[0], Some(n), n.Call?, entered);
  }

  lemma WalkStatement(aliases: seq<string>, e: Node, parent: Option<Node>, st: Acc)
    ensures Walk(aliases, ExprStatement(e), parent, false, st) == Walk(aliases, e, Some(ExprStatement(e)), false, st)
  {
    var es := ExprStatement(e);
    assert Children(es) == [e];
    assert Enter(aliases, es, parent, false, st) == st;
    assert WalkChildren(aliases, es, 0, st) == st;
    assert WalkChildren(aliases, es, 1, st) == Walk(aliases, e, Some(es), false, st);
  }

  lemma WalkProgram(aliases: seq<string>, s1: Node, s2: Node)
    ensures Discover(aliases, Other([s1, s2]))
         == Walk(aliases, s2, Some(Other([s1, s2])), false, Walk(aliases, s1, Some(Other([s1, s2])), false, Fresh))
  {
    var root := Other([s1, s2]);
    assert Children(root) == [s1, s2];
    assert Enter(aliases, root, None, false, Fresh) == Fresh;
    assert WalkChildren(aliases, root, 0, Fresh) == Fresh;
    assert WalkChildren(aliases, root, 1, Fresh) == Walk(aliases, s1, Some(root), false, Fresh);
    assert WalkChildren(aliases, root, 2, Fresh)
        == Walk(aliases, s2, Some(root), false, WalkChildren(aliases, root, 1, Fresh));
  }

  /**
   * `C.prototype.f = 0; C.prototype.m = function () {};` yields the field `f`, then the method
   * `m()`, whatever the constructor is called.
   */
  lemma PrototypeFieldThenMethod(ctor: string, f: string, m: string)
    ensures Collect([], Other([
              ExprStatement(Assign(Dot(Dot(Ident(ctor), Prototype), f), Literal())),
              ExprStatement(Assign(Dot(Dot(Ident(ctor), Prototype), m), Func([])))]))
         == [Item(f, Field, f), Item(m, Method, m + CallableSuffix)]
  {
    var a1 := Assign(Dot(Dot(Ident(ctor), Prototype), f), Literal());
    var a2 := Assign(Dot(Dot(Ident(ctor), Prototype), m), Func([]));
    var st1 := Acc([Item(f, Field, f)], [true], [], [], false);
    var st2 := Acc([Item(f, Field, f), Item(m, Method, m + CallableSuffix)], [true, true], [], [], false);
    forall name: string ensures Quiet([], Dot(Dot(Ident(ctor), Prototype), name)) {
      var inner := Dot(Ident(ctor), Prototype);
      LeafQuiet([], Ident(ctor));
      LeafQuiet([], Ident(Prototype));
      LeafQuiet([], Ident(name));
      assert Children(inner) == [Ident(ctor), Ident(Prototype)];
      assert Children(Dot(inner, name)) == [inner, Ident(name)];
    }
    LeafQuiet([], Literal());
    LeafQuiet([], Func([]));
    assert Children(a1) == [a1.left, a1.right];
    assert Children(a2) == [a2.left, a2.right];
    WalkOverQuietChildren([], a1, Some(ExprStatement(a1)), false, Fresh);
    WalkOverQuietChildren([], a2, Some(ExprStatement(a2)), false, st1);
    WalkStatement([], a1, Some(Other([ExprStatement(a1), ExprStatement(a2)])), Fresh);
    WalkStatement([], a2, Some(Other([ExprStatement(a1), ExprStatement(a2)])), st1);
    WalkProgram([], ExprStatement(a1), ExprStatement(a2));
    assert IsPrototypeAssignment(a1) && IsPrototypeAssignment(a2);
    assert Enter([], a1, Some(ExprStatement(a1)), false, Fresh) == st1;
    assert Enter([], a2, Some(ExprStatement(a2)), false, st1) == st2;
    assert Discover([], Other([ExprStatement(a1), ExprStatement(a2)])) == st2;
  }

  /**
   * `this.m = function () {};` on its own yields a Field: the access's parent is the
   * assignment, not a call.
   */
  lemma AssignedFunctionOnThisIsField(m: string)
    ensures Collect([], Other([ExprStatement(Assign(Dot(This, m), Func([])))])) == [Item(m, Field, m)]
  {
    var a := Assign(Dot(This, m), Func([]));
    var es := ExprStatement(a);
    var root := Other([es]);
    var st := Acc([Item(m, Field, m)], [false], [], [m], false);
    assert Children(a) == [Dot(This, m), Func([])];
    WalkTwoChildren([], a, Some(es), false, Fresh);
    assert Enter([], a, Some(es), false, Fresh) == Fresh;
    WalkDot([], This, m, Some(a), false, Fresh);
    assert MemberStep([], Dot(This, m), Some(a), false, Fresh) == st;
    LeafQuiet([], Func([]));
    WalkQuiet([], Func([]), Some(a), false, st);
    WalkStatement([], a, Some(root), Fresh);
    assert Children(root) == [es];
    WalkOneChild([], root, None, false, Fresh);
    assert Enter([], root, None, false, Fresh) == Fresh;
  }

  /** `this.f(); g(this.C);` with an upper-case `C`: `f` is a method, `C` an enum constant. */
  lemma CalleeIsMethodArgumentIsByCase(f: string, g: string, c: string)
    requires f != c && NoLowercase(c)
    ensures Collect([], Other([
              ExprStatement(Call(Dot(This, f), [])),
              ExprStatement(Call(Ident(g), [Dot(This, c)]))]))
         == [Item(f, Method, f + CallableSuffix), Item(c, Enum, c)]
  {
    var call1 := Call(Dot(This, f), []);
    var call2 := Call(Ident(g), [Dot(This, c)]);
    var s1, s2 := ExprStatement(call1), ExprStatement(call2);
    var root := Other([s1, s2]);
    var st1 := Acc([Item(f, Method, f + CallableSuffix)], [false], [], [f], false);
    var st2 := Acc([Item(f, Method, f + CallableSuffix), Item(c, Enum, c)], [false, false], [], [f, c], false);
    assert Children(call1) == [Dot(This, f)];
    WalkOneChild([], call1, Some(s1), false, Fresh);
    assert Enter([], call1, Some(s1), false, Fresh) == Fresh;
    WalkDot([], This, f, Some(call1), true, Fresh);
    assert MemberStep([], Dot(This, f), Some(call1), true, Fresh) == st1;
    assert Children(call2) == [Ident(g), Dot(This, c)];
    WalkTwoChildren([], call2, Some(s2), false, st1);
    assert Enter([], call2, Some(s2), false, st1) == st1;
    LeafQuiet([], Ident(g));
    WalkQuiet([], Ident(g), Some(call2), true, st1);
    WalkDot([], This, c, Some(call2), false, st1);
    assert MemberStep([], Dot(This, c), Some(call2), false, st1) == st2;
    WalkStatement([], call1, Some(root), Fresh);
    WalkStatement([], call2, Some(root), st1);
    WalkProgram([], s1, s2);
  }

  /** `var a = this; a.x = 1;` yields `x` for a configured alias `a`; without the declaration, nothing. */
  lemma AliasNeedsDeclaration(a: string, x: string)
    ensures Collect([a], Other([
              VarDecl(Ident(a), Some(This)),
              ExprStatement(Assign(Dot(Ident(a), x), Literal()))]))
         == [Item(x, Field, x)]
    ensures Collect([a], Other([ExprStatement(Assign(Dot(Ident(a), x), Literal()))])) == []
  {
    var decl := VarDecl(Ident(a), Some(This));
    var asg := Assign(Dot(Ident(a), x), Literal());
    var es := ExprStatement(asg);
    var declared := Acc([], [], [], [], true);
    var found := Acc([], [], [Item(x, Field, x)], [x], false);
    // The declaration.
    assert Children(decl) == [Ident(a), This];
    LeafQuiet([a], Ident(a));
    LeafQuiet([a], This);
    WalkOverQuietChildren([a], decl, Some(Other([decl, es])), false, Fresh);
    assert Enter([a], decl, Some(Other([decl, es])), false, Fresh) == declared;
    // The assignment through the alias, from any state with nothing processed yet.
    assert Children(asg) == [Dot(Ident(a), x), Literal()];
    LeafQuiet([a], Literal());
    forall st: Acc | st.processed == [] && st.alias == []
      ensures Walk([a], asg, Some(es), false, st) == st.(alias := found.alias, processed := found.processed)
    {
      WalkTwoChildren([a], asg, Some(es), false, st);
      assert Enter([a], asg, Some(es), false, st) == st;
      WalkDot([a], Ident(a), x, Some(asg), false, st);
      WalkQuiet([a], Literal(), Some(asg), false, st.(alias := found.alias, processed := found.processed));
    }
    WalkStatement([a], asg, Some(Other([decl, es])), declared);
    WalkProgram([a], decl, es);
    assert Discover([a], Other([decl, es])) == declared.(alias := found.alias, processed := found.processed);
    // Without the declaration.
    WalkStatement([a], asg, Some(Other([es])), Fresh);
    assert Children(Other([es])) == [es];
    WalkOneChild([a], Other([es]), None, false, Fresh);
    assert Enter([a], Other([es]), None, false, Fresh) == Fresh;
    assert Discover([a], Other([es])) == found;
  }

  /**
   * `a.x; this.x;` with `a` configured but not declared: the alias access claims the label
   * first and its record is then dropped, so `this.x` is not offered either.
   */
  lemma UndeclaredAliasShadowsThisAccess(a: string, x: string)
    ensures Collect([a], Other([ExprStatement(Dot(Ident(a), x)), ExprStatement(Dot(This, x))])) == []
  {
    var s1, s2 := ExprStatement(Dot(Ident(a), x)), ExprStatement(Dot(This, x));
    var root := Other([s1, s2]);
    var st := Acc([], [], [Item(x, Field, x)], [x], false);
    WalkDot([a], Ident(a), x, Some(s1), false, Fresh);
    WalkDot([a], This, x, Some(s2), false, st);
    assert MemberStep([a], Dot(Ident(a), x), Some(s1), false, Fresh) == st;
    assert MemberStep([a], Dot(This, x), Some(s2), false, st) == st;
    WalkStatement([a], Dot(Ident(a), x), Some(root), Fresh);
    WalkStatement([a], Dot(This, x), Some(root), st);
    WalkProgram([a], s1, s2);
    assert Discover([a], root) == st;
  }

  /**
   * `C.prototype.m = function () {}; this.m();` yields the method `m()` twice: the prototype
   * path never consults the processed labels, so a label can appear once from a prototype
   * assignment and once more from an access.
   */
  lemma PrototypeAndAccessShareLabel(ctor: string, m: string)
    ensures Collect([], Other([
              ExprStatement(Assign(Dot(Dot(Ident(ctor), Prototype), m), Func([]))),
              ExprStatement(Call(Dot(This, m), []))]))
         == [Item(m, Method, m + CallableSuffix), Item(m, Method, m + CallableSuffix)]
  {
    var it := Item(m, Method, m + CallableSuffix);
    var asg := Assign(Dot(Dot(Ident(ctor), Prototype), m), Func([]));
    var call := Call(Dot(This, m), []);
    var s1, s2 := ExprStatement(asg), ExprStatement(call);
    var root := Other([s1, s2]);
    var st1 := Acc([it], [true], [], [], false);
    var st2 := Acc([it, it], [true, false], [], [m], false);
    // The prototype assignment.
    var inner := Dot(Ident(ctor), Prototype);
    LeafQuiet([], Ident(ctor));
    LeafQuiet([], Ident(Prototype));
    LeafQuiet([], Ident(m));
    LeafQuiet([], Func([]));
    assert Children(inner) == [Ident(ctor), Ident(Prototype)];
    assert Children(Dot(inner, m)) == [inner, Ident(m)];
    assert Children(asg) == [asg.left, asg.right];
    WalkOverQuietChildren([], asg, Some(s1), false, Fresh);
    assert IsPrototypeAssignment(asg);
    assert Enter([], asg, Some(s1), false, Fresh) == st1;
    // The call on `this`.
    assert Children(call) == [Dot(This, m)];
    WalkOneChild([], call, Some(s2), false, st1);
    assert Enter([], call, Some(s2), false, st1) == st1;
    WalkDot([], This, m, Some(call), true, st1);
    assert MemberStep([], Dot(This, m), Some(call), true, st1) == st2;
    WalkStatement([], asg, Some(root), Fresh);
    WalkStatement([], call, Some(root), st1);
    WalkProgram([], s1, s2);
  }

  /**
   * `this.a; C.prototype.m = function () {};` yields the field `a` and then the method `m()`:
   * records from accesses and from prototype assignments share the direct list in the order
   * the traversal meets them.
   */
  lemma AccessThenPrototypeKeepOrder(a: string, ctor: string, m: string)
    ensures Collect([], Other([
              ExprStatement(Dot(This, a)),
              ExprStatement(Assign(Dot(Dot(Ident(ctor), Prototype), m), Func([])))]))
         == [Item(a, Field, a), Item(m, Method, m + CallableSuffix)]
  {
    var fa := Item(a, Field, a);
    var it := Item(m, Method, m + CallableSuffix);
    var acc := Dot(This, a);
    var asg := Assign(Dot(Dot(Ident(ctor), Prototype), m), Func([]));
    var s1, s2 := ExprStatement(acc), ExprStatement(asg);
    var root := Other([s1, s2]);
    var st1 := Acc([fa], [false], [], [a], false);
    var st2 := Acc([fa, it], [false, true], [], [a], false);
    // The access on `this`.
    WalkDot([], This, a, Some(s1), false, Fresh);
    assert MemberStep([], acc, Some(s1), false, Fresh) == st1;
    // The prototype assignment.
    var inner := Dot(Ident(ctor), Prototype);
    LeafQuiet([], Ident(ctor));
    LeafQuiet([], Ident(Prototype));
    LeafQuiet([], Ident(m));
    LeafQuiet([], Func([]));
    assert Children(inner) == [Ident(ctor), Ident(Prototype)];
    assert Children(Dot(inner, m)) == [inner, Ident(m)];
    assert Children(asg) == [asg.left, asg.right];
    WalkOverQuietChildren([], asg, Some(s2), false, st1);
    assert IsPrototypeAssignment(asg);
    assert Enter([], asg, Some(s2), false, st1) == st2;
    WalkStatement([], acc, Some(root), Fresh);
    WalkStatement([], asg, Some(root), st1);
    WalkProgram([], s1, s2);
  }
}
