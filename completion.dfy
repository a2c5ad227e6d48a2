/**
 * Completion records and the classification rules of src/ThisCompletionItemProvider.js:
 * the upper-case rule, the kind of a prototype member, the kind of a `this`/alias access,
 * first-sight deduplication, and the trigger test.
 */
module Completion {
  import opened Wrappers
  import opened EsTree

  datatype Kind = Field | Method | Enum

  /** A completion record: its label (`name`, what the editor shows), its kind, and the text it inserts. */
  datatype Item = Item(name: string, kind: Kind, insertText: string)

  const CallableSuffix: string := "()"
  const ThisKeyword: string := "this"
  const Prototype: string := "prototype"

  /** A method inserts its name followed by `()`; every other record inserts its bare name. */
  predicate WellFormed(it: Item)
  {
    if it.kind == Method then it.insertText == it.name + CallableSuffix else it.insertText == it.name
  }

  predicate IsLower(c: char)
  {
    'a' <= c <= 'z'
  }

  /** `toUpperCase` restricted to ASCII letters. */
  function ToUpper(s: string): (u: string)
    ensures |u| == |s|
  {
    if s == [] then []
    else [if IsLower(s[0]) then (s[0] as int - 32) as char else s[0]] + ToUpper(s[1..])
  }

  predicate NoLowercase(s: string)
  {
    forall i :: 0 <= i < |s| ==> !IsLower(s[i])
  }

  /** Upper-casing leaves a name unchanged exactly when it has no lower-case letter. */
  lemma {:induction false} UpperFixedIffNoLowercase(s: string)
    ensures ToUpper(s) == s <==> NoLowercase(s)
  {
    if s != [] {
      UpperFixedIffNoLowercase(s[1..]);
      assert s == [s[0]] + s[1..];
      if ToUpper(s) == s {
        assert ToUpper(s)[0] == s[0];
        assert ToUpper(s)[1..] == ToUpper(s[1..]);
      }
      if NoLowercase(s) {
        assert NoLowercase(s[1..]) by {
          forall i | 0 <= i < |s[1..]| ensures !IsLower(s[1..][i]) { assert s[1..][i] == s[i + 1]; }
        }
      } else {
        var i :| 0 <= i < |s| && IsLower(s[i]);
        if i > 0 { assert s[1..][i - 1] == s[i]; }
      }
    }
  }

  /** `resolveTypeOfProperty`: Enum when upper-casing the name changes nothing, else Field. */
  function ResolveTypeOfProperty(name: string): (k: Kind)
    ensures k != Method
    ensures k == Enum <==> NoLowercase(name)
  {
    UpperFixedIffNoLowercase(name);
    if ToUpper(name) == name then Enum else Field
  }

  /** The record for `<anything>.prototype.<name> = right`. */
  function PrototypeItem(name: string, right: Node): (it: Item)
    ensures it.name == name && WellFormed(it)
    ensures it.kind == Method <==> right.Func?
    ensures it.kind == Enum <==> right.Ident? && NoLowercase(name)
  {
    if right.Ident? then Item(name, ResolveTypeOfProperty(name), name)
    else if right.Func? then Item(name, Method, name + CallableSuffix)
    else Item(name, Field, name)
  }

  /** The record for an access `this.<name>` or `<alias>.<name>`, classified by its parent. */
  function AccessItem(name: string, parent: Option<Node>, isCallee: bool): (it: Item)
    ensures it.name == name && WellFormed(it)
    ensures it.kind == Method <==> parent.Some? && parent.value.Call? && isCallee
    ensures it.kind == Enum <==>
      NoLowercase(name) && parent.Some? && (parent.value.Member? || (parent.value.Call? && !isCallee))
  {
    if parent.Some? && parent.value.Member? then
      Item(name, ResolveTypeOfProperty(name), name)
    else if parent.Some? && parent.value.Call? then
      if isCallee then Item(name, Method, name + CallableSuffix)
      else Item(name, ResolveTypeOfProperty(name), name)
    else Item(name, Field, name)
  }

  /** `indexOf`: the position of the first occurrence of `x` in `s`, or -1 when `s` has none. */
  function IndexOf(s: seq<string>, x: string): (i: int)
    ensures -1 <= i < |s|
    ensures i == -1 <==> x !in s
    ensures 0 <= i ==> s[i] == x && x !in s[..i]
  {
    if s == [] then -1
    else if s[0] == x then 0
    else
      var j := IndexOf(s[1..], x);
      assert s == [s[0]] + s[1..];
      if j == -1 then -1
      else
        assert s[..j + 1] == [s[0]] + s[1..][..j];
        j + 1
  }

  /**
   * `createCompletionItem` on the processed labels: a name seen for the first time is
   * recorded and yields a record; a name seen before yields nothing and changes nothing.
   */
  function CreateItem(name: string, parent: Option<Node>, isCallee: bool, processed: seq<string>)
    : (r: (Option<Item>, seq<string>))
    ensures name in processed ==> r.0 == None && r.1 == processed
    ensures name !in processed ==>
      r.0.Some? && r.0.value == AccessItem(name, parent, isCallee) && r.1 == processed + [name]
  {
    if IndexOf(processed, name) == -1 then (Some(AccessItem(name, parent, isCallee)), processed + [name])
    else (None, processed)
  }

  /** The test of `shouldComplete` on the word before the cursor. */
  function ShouldComplete(previousWord: string, aliases: seq<string>): (b: bool)
    ensures b <==> previousWord == ThisKeyword || previousWord in aliases
  {
    previousWord == ThisKeyword || IndexOf(aliases, previousWord) != -1
  }

  /**
   * The column shift of `shouldComplete` that moves from the cursor to the word before it:
   * one column before the start of the word under the cursor, or one column before the
   * cursor when no word is under it. Columns are never negative; the landed column is,
   * exactly when the word (or the cursor, with no word) starts at column 0.
   */
  function PreviousWordOffset(character: int, wordStart: Option<int>): (offset: int)
    requires 0 <= character
    requires wordStart.Some? ==> 0 <= wordStart.value <= character
    ensures offset < 0
    ensures character + offset == (if wordStart.Some? then wordStart.value else character) - 1
    ensures character + offset < 0 <==> (if wordStart.Some? then wordStart.value else character) == 0
  {
    if wordStart.Some? then (character - wordStart.value + 1) * -1 else -1
  }
}
