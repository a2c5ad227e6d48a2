/**
 * The last-valid-tree cache of src/Utils.js: one module-wide slot holding the most recent
 * syntax tree the parser produced. The parser itself is an oracle: `parsed` is what it made
 * of the text, `None` when it threw.
 */
module Utils {
  import opened Wrappers
  import opened EsTree

  const JavascriptLanguageId: string := "javascript"

  /** The slot after one `resolveAst` whose parse had outcome `parsed`. */
  function AfterParse(slot: Option<Node>, parsed: Option<Node>): Option<Node>
  {
    if parsed.Some? then parsed else slot
  }

  /** The slot after a run of `resolveAst` calls, one per parse outcome, earliest first. */
  function Replay(slot: Option<Node>, outcomes: seq<Option<Node>>): Option<Node>
    decreases |outcomes|
  {
    if outcomes == [] then slot else Replay(AfterParse(slot, outcomes[0]), outcomes[1..])
  }

  /** The tree of the last successful parse among `outcomes`, or `initial` if none succeeded. */
  function LastSuccessful(initial: Option<Node>, outcomes: seq<Option<Node>>): Option<Node>
    decreases |outcomes|
  {
    if outcomes == [] then initial
    else if outcomes[|outcomes| - 1].Some? then outcomes[|outcomes| - 1]
    else LastSuccessful(initial, outcomes[..|outcomes| - 1])
  }

  class SyntaxTreeCache {
    var lastValidSyntaxTree: Option<Node>

    /** The slot as the module is loaded: empty. */
    constructor ()
      ensures lastValidSyntaxTree == None
    {
      lastValidSyntaxTree := None;
    }

    /**
     * `resolveAst(text)`: on a successful parse the slot takes the new tree, which is returned;
     * when the parse throws, the slot is kept and its tree (possibly none) is returned.
     */
    method ResolveAst(parsed: Option<Node>) returns (result: Option<Node>)
      modifies this
      ensures parsed.Some? ==> result == parsed && lastValidSyntaxTree == parsed
      ensures parsed.None? ==> result == old(lastValidSyntaxTree) && lastValidSyntaxTree == old(lastValidSyntaxTree)
      ensures lastValidSyntaxTree == AfterParse(old(lastValidSyntaxTree), parsed)
    {
      if parsed.Some? {
        result := parsed;
        lastValidSyntaxTree := result;
      } else {
        result := lastValidSyntaxTree;
      }
    }

    /**
     * `loadSyntaxTree(document)`: clears the slot, then re-parses only a JavaScript document,
     * so no tree of an earlier document survives.
     */
    method LoadSyntaxTree(languageId: string, parsed: Option<Node>)
      modifies this
      ensures lastValidSyntaxTree == (if languageId == JavascriptLanguageId then parsed else None)
    {
      lastValidSyntaxTree := None;
      if languageId == JavascriptLanguageId {
        var _ := ResolveAst(parsed);
      }
    }
  }

  /** A run of `resolveAst` calls leaves the slot holding the tree of its last successful parse. */
  lemma {:induction false} ReplayKeepsLastSuccessful(slot: Option<Node>, outcomes: seq<Option<Node>>)
    ensures Replay(slot, outcomes) == LastSuccessful(slot, outcomes)
    decreases |outcomes|
  {
    if outcomes != [] {
      var rest := outcomes[1..];
      ReplayKeepsLastSuccessful(AfterParse(slot, outcomes[0]), rest);
      LastSuccessfulAfterFirst(slot, outcomes);
    }
  }

  /** Folding in the first outcome early gives the same last success. */
  lemma {:induction false} LastSuccessfulAfterFirst(slot: Option<Node>, outcomes: seq<Option<Node>>)
    requires outcomes != []
    ensures LastSuccessful(AfterParse(slot, outcomes[0]), outcomes[1..]) == LastSuccessful(slot, outcomes)
    decreases |outcomes|
  {
    var n := |outcomes|;
    if n > 1 && outcomes[n - 1].None? {
      assert outcomes[1..][..n - 2] == outcomes[..n - 1][1..];
      LastSuccessfulAfterFirst(slot, outcomes[..n - 1]);
    }
  }

  /** Failing parses change nothing: after them every call still returns the last good tree. */
  lemma {:induction false} FailuresKeepLastTree(slot: Option<Node>, good: seq<Option<Node>>, failures: seq<Option<Node>>)
    requires forall i :: 0 <= i < |failures| ==> failures[i].None?
    ensures Replay(slot, good + failures) == Replay(slot, good)
    decreases |failures|
  {
    ReplayKeepsLastSuccessful(slot, good + failures);
    ReplayKeepsLastSuccessful(slot, good);
    if failures != [] {
      var n := |failures|;
      assert (good + failures)[..|good + failures| - 1] == good + failures[..n - 1];
      FailuresKeepLastTree(slot, good, failures[..n - 1]);
      ReplayKeepsLastSuccessful(slot, good + failures[..n - 1]);
    } else {
      assert good + failures == good;
    }
  }
}
