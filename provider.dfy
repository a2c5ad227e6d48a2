/**
 * The completion item provider of src/ThisCompletionItemProvider.js. The module-level
 * variables of the source are the fields of `CompletionItemProvider`; the traversal callback
 * is the recursive `Visit`, proved against the pure fold `Discovery.Walk`.
 */
module ThisCompletion {
  import opened Wrappers
  import opened EsTree
  import opened Completion
  import opened Discovery
  import opened Utils

  class CompletionItemProvider {
    var alsoThisVars: seq<string>
    var completionItems: seq<Item>
    var selfCompletionItems: seq<Item>
    var processedLabels: seq<string>
    var includeSelfItems: bool
    /** For each entry of `completionItems`: whether a prototype assignment pushed it. */
    ghost var fromPrototype: seq<bool>

    /** The discovery state the fields hold. */
    ghost function State(): Acc
      reads this
    {
      Acc(completionItems, fromPrototype, selfCompletionItems, processedLabels, includeSelfItems)
    }

    /** The module as it is loaded: the configured aliases and an empty discovery state. */
    constructor (configured: seq<string>)
      ensures alsoThisVars == configured && State() == Fresh
    {
      alsoThisVars := configured;
      completionItems := [];
      selfCompletionItems := [];
      processedLabels := [];
      includeSelfItems := false;
      fromPrototype := [];
    }

    /** `processVariableDeclarator`: declaring an alias name lets the alias records in. */
    method ProcessVariableDeclarator(node: Node)
      requires node.VarDecl?
      modifies this`includeSelfItems
      ensures State() == DeclaratorStep(alsoThisVars, node, old(State()))
      ensures includeSelfItems == (old(includeSelfItems) || DeclaresAlias(alsoThisVars, node))
    {
      if node.id.Ident? && IndexOf(alsoThisVars, node.id.name) != -1 {
        includeSelfItems := true;
      }
    }

    /** `processAssignmentExpression`: pushes one record per prototype member assignment. */
    method ProcessAssignmentExpression(node: Node)
      requires node.Assign?
      modifies this`completionItems, this`fromPrototype
      ensures State() == AssignmentStep(node, old(State()))
      ensures completionItems ==
        old(completionItems) + (if IsPrototypeAssignment(node) then [PrototypeItem(node.left.prop.name, node.right)] else [])
    {
      var left := node.left;
      if left.Member? && left.obj.Member? && left.obj.prop.Ident? && left.obj.prop.name == Prototype
         && left.prop.Ident?
      {
        var name := left.prop.name;
        var insertText := name;
        var kind := Field;
        if node.right.Ident? {
          kind := ResolveTypeOfProperty(name);
        } else if node.right.Func? {
          insertText := name + CallableSuffix;
          kind := Method;
        }
        completionItems := completionItems + [Item(name, kind, insertText)];
        fromPrototype := fromPrototype + [true];
      }
    }

    /**
     * `createCompletionItem`: the record for the access `node` on first sight of its label,
     * which is then marked processed; nothing, and no change, for a label seen before.
     */
    method CreateCompletionItem(node: Node, parent: Option<Node>, isCallee: bool) returns (item: Option<Item>)
      requires node.Member? && node.prop.Ident?
      modifies this`processedLabels
      ensures (item, processedLabels) == CreateItem(node.prop.name, parent, isCallee, old(processedLabels))
    {
      item := None;
      var kind := Field;
      var name := node.prop.name;
      var insertText := name;
      if IndexOf(processedLabels, name) == -1 {
        processedLabels := processedLabels + [name];
        if parent.Some? && parent.value.Member? {
          kind := ResolveTypeOfProperty(name);
        } else if parent.Some? && parent.value.Call? {
          if isCallee {
            kind := Method;
            insertText := insertText + CallableSuffix;
          } else {
            kind := ResolveTypeOfProperty(name);
          }
        }
        item := Some(Item(name, kind, insertText));
      }
    }

    /** `processMemberExpression`: `this.x` feeds the direct list, `<alias>.x` the alias list. */
    method ProcessMemberExpression(node: Node, parent: Option<Node>, isCallee: bool)
      requires node.Member?
      modifies this`completionItems, this`fromPrototype, this`selfCompletionItems, this`processedLabels
      ensures State() == MemberStep(alsoThisVars, node, parent, isCallee, old(State()))
    {
      if !node.computed && node.prop.Ident? {
        if node.obj.This? {
          var item := CreateCompletionItem(node, parent, isCallee);
          if item.Some? {
            completionItems := completionItems + [item.value];
            fromPrototype := fromPrototype + [false];
          }
        } else if node.obj.Ident? && IndexOf(alsoThisVars, node.obj.name) != -1 {
          var item := CreateCompletionItem(node, parent, isCallee);
          if item.Some? {
            selfCompletionItems := selfCompletionItems + [item.value];
          }
        }
      }
    }

    /**
     * The traversal: the `enter` callback on `node`, then each child with `node` as its parent.
     * `isCallee` says that `node` is the callee of its parent call (`parent.callee === node`).
     */
    method Visit(node: Node, parent: Option<Node>, isCallee: bool)
      modifies this
      ensures alsoThisVars == old(alsoThisVars)
      ensures State() == Walk(alsoThisVars, node, parent, isCallee, old(State()))
      decreases node
    {
      if node.VarDecl? {
        ProcessVariableDeclarator(node);
      }
      if node.Assign? {
        ProcessAssignmentExpression(node);
      }
      if node.Member? {
        ProcessMemberExpression(node, parent, isCallee);
      }
      ghost var entered := State();
      var children := Children(node);
      var i := 0;
      while i < |children|
        invariant 0 <= i <= |children|
        invariant alsoThisVars == old(alsoThisVars)
        invariant State() == WalkChildren(alsoThisVars, node, i, entered)
      {
        Visit(children[i], Some(node), node.Call? && i == 0);
        i := i + 1;
      }
    }

    /**
     * `prepareCompletionItems`: resolves the tree through the cache, traverses it when there is
     * one, and appends the alias records if an alias variable was declared.
     */
    method PrepareCompletionItems(cache: SyntaxTreeCache, parsed: Option<Node>)
      modifies this, cache
      ensures alsoThisVars == old(alsoThisVars)
      ensures cache.lastValidSyntaxTree == AfterParse(old(cache.lastValidSyntaxTree), parsed)
      ensures var tree := cache.lastValidSyntaxTree;
        var st := if tree.Some? then Walk(alsoThisVars, tree.value, None, false, old(State())) else old(State());
        completionItems == Assemble(st) && fromPrototype == AssembledOrigins(st)
    {
      var tree := cache.ResolveAst(parsed);
      if tree.Some? {
        Visit(tree.value, None, false);
      }
      if includeSelfItems {
        fromPrototype := fromPrototype + seq(|selfCompletionItems|, _ => false);
        completionItems := completionItems + selfCompletionItems;
      }
    }

    /**
     * `provideCompletionItems`: resets the state, then either collects the records of the
     * resolved tree (when the word before the cursor is `this` or an alias) or returns no
     * records and reloads the cache.
     */
    method ProvideCompletionItems(cache: SyntaxTreeCache, configured: seq<string>, previousWord: string,
                                  languageId: string, parsed: Option<Node>) returns (items: seq<Item>)
      modifies this, cache
      ensures alsoThisVars == configured
      ensures ShouldComplete(previousWord, configured) ==>
        cache.lastValidSyntaxTree == AfterParse(old(cache.lastValidSyntaxTree), parsed)
        && items == (if cache.lastValidSyntaxTree.Some? then Collect(configured, cache.lastValidSyntaxTree.value) else [])
      ensures !ShouldComplete(previousWord, configured) ==>
        items == [] && cache.lastValidSyntaxTree == (if languageId == JavascriptLanguageId then parsed else None)
    {
      alsoThisVars := configured;
      completionItems := [];
      selfCompletionItems := [];
      includeSelfItems := false;
      processedLabels := [];
      fromPrototype := [];

      if ShouldComplete(previousWord, alsoThisVars) {
        PrepareCompletionItems(cache, parsed);
      } else {
        cache.LoadSyntaxTree(languageId, parsed);
      }
      items := completionItems;
    }
  }

  /** State is reset at entry: two requests on the same tree and aliases give the same list. */
  method RepeatedRequestsAgree(provider: CompletionItemProvider, cache: SyntaxTreeCache, configured: seq<string>,
                               previousWord: string, languageId: string, tree: Node)
    returns (first: seq<Item>, second: seq<Item>)
    modifies provider, cache
    ensures first == second
  {
    first := provider.ProvideCompletionItems(cache, configured, previousWord, languageId, Some(tree));
    second := provider.ProvideCompletionItems(cache, configured, previousWord, languageId, Some(tree));
  }

  /**
   * A document that parsed, then became unparseable mid-edit, still gets the records of the
   * last tree that parsed.
   */
  method StaleTreeFallback(provider: CompletionItemProvider, cache: SyntaxTreeCache, configured: seq<string>,
                           previousWord: string, languageId: string, tree: Node)
    returns (before: seq<Item>, after: seq<Item>)
    requires ShouldComplete(previousWord, configured)
    modifies provider, cache
    ensures before == after == Collect(configured, tree)
  {
    before := provider.ProvideCompletionItems(cache, configured, previousWord, languageId, Some(tree));
    after := provider.ProvideCompletionItems(cache, configured, previousWord, languageId, None);
  }
}
