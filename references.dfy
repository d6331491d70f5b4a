/** Whether the analysed function itself uses its implicit `arguments` (`hasArgumentsReference`). */
module References {
  import opened Wrappers
  import opened Tree
  import opened Scopes

  /** The nearest function node enclosing (or being) node `i`; arrow functions count. */
  function EnclosingFunction(nodes: seq<ArenaNode>, i: nat): (r: Option<nat>)
    requires WellFormed(nodes) && i < |nodes|
    ensures r.Some? ==> r.value <= i && IsFunction(nodes[r.value])
  {
    Nearest(nodes, i, IsFunction)
  }

  /** The `some` over the references from index `from` on, in order: the first reference whose
      enclosing function is `root` answers true; a reference with no enclosing function met first
      is an error. */
  function OwnReferenceFrom(nodes: seq<ArenaNode>, refs: seq<nat>, root: nat, from: nat): (r: Result<bool>)
    requires WellFormed(nodes) && from <= |refs| && forall i :: 0 <= i < |refs| ==> refs[i] < |nodes|
    ensures r.Err? ==> r.error == NoAncestorFunction
    ensures from == |refs| ==> r == Ok(false)
    decreases |refs| - from
  {
    if from == |refs| then Ok(false)
    else
      match EnclosingFunction(nodes, refs[from])
      case None => Err(NoAncestorFunction)
      case Some(k) => if k == root then Ok(true) else OwnReferenceFrom(nodes, refs, root, from + 1)
  }

  /** The `some` over all the references. */
  function SomeOwnReference(nodes: seq<ArenaNode>, refs: seq<nat>, root: nat): (r: Result<bool>)
    requires WellFormed(nodes) && forall i :: 0 <= i < |refs| ==> refs[i] < |nodes|
    ensures r.Err? ==> r.error == NoAncestorFunction
    ensures refs == [] ==> r == Ok(false)
  {
    OwnReferenceFrom(nodes, refs, root, 0)
  }

  /** From index `from` on: true means some reference lies directly in `root`; false means every
      reference has an enclosing function and none is `root`; an error means a reference without
      one comes before any own reference; with an enclosing function everywhere there is no error. */
  lemma {:induction false} OwnReferenceFromMeaning(nodes: seq<ArenaNode>, refs: seq<nat>, root: nat, from: nat)
    requires WellFormed(nodes) && from <= |refs| && forall i :: 0 <= i < |refs| ==> refs[i] < |nodes|
    ensures OwnReferenceFrom(nodes, refs, root, from) == Ok(true) ==>
      exists i :: from <= i < |refs| && EnclosingFunction(nodes, refs[i]) == Some(root)
    ensures OwnReferenceFrom(nodes, refs, root, from) == Ok(false) ==>
      forall i :: from <= i < |refs| ==>
        EnclosingFunction(nodes, refs[i]).Some? && EnclosingFunction(nodes, refs[i]) != Some(root)
    ensures OwnReferenceFrom(nodes, refs, root, from).Err? ==>
      OwnReferenceFrom(nodes, refs, root, from).error == NoAncestorFunction
    ensures OwnReferenceFrom(nodes, refs, root, from).Err? ==>
      exists i :: from <= i < |refs| && EnclosingFunction(nodes, refs[i]).None? &&
        (forall l :: from <= l < i ==> EnclosingFunction(nodes, refs[l]) != Some(root))
    ensures (forall i :: from <= i < |refs| ==> EnclosingFunction(nodes, refs[i]).Some?) ==>
      OwnReferenceFrom(nodes, refs, root, from).Ok?
    decreases |refs| - from
  {
    if from < |refs| && EnclosingFunction(nodes, refs[from]).Some? && EnclosingFunction(nodes, refs[from]).value != root {
      OwnReferenceFromMeaning(nodes, refs, root, from + 1);
    }
  }

  /** The same over all the references, which is what `hasArgumentsReference` returns. */
  lemma SomeOwnReferenceMeaning(nodes: seq<ArenaNode>, refs: seq<nat>, root: nat)
    requires WellFormed(nodes) && forall i :: 0 <= i < |refs| ==> refs[i] < |nodes|
    ensures SomeOwnReference(nodes, refs, root) == Ok(true) ==>
      exists i :: 0 <= i < |refs| && EnclosingFunction(nodes, refs[i]) == Some(root)
    ensures SomeOwnReference(nodes, refs, root) == Ok(false) ==>
      forall i :: 0 <= i < |refs| ==>
        EnclosingFunction(nodes, refs[i]).Some? && EnclosingFunction(nodes, refs[i]) != Some(root)
    ensures SomeOwnReference(nodes, refs, root).Err? ==> SomeOwnReference(nodes, refs, root).error == NoAncestorFunction
    ensures SomeOwnReference(nodes, refs, root).Err? ==>
      exists i :: 0 <= i < |refs| && EnclosingFunction(nodes, refs[i]).None? &&
        (forall l :: 0 <= l < i ==> EnclosingFunction(nodes, refs[l]) != Some(root))
    ensures (forall i :: 0 <= i < |refs| ==> EnclosingFunction(nodes, refs[i]).Some?) ==>
      SomeOwnReference(nodes, refs, root).Ok?
  {
    OwnReferenceFromMeaning(nodes, refs, root, 0);
  }

  /** `hasArgumentsReference` over the crawled function scope `bindings`. */
  function HasArgumentsReference(kind: FnKind, bindings: map<string, Binding>, nodes: seq<ArenaNode>, root: nat): (r: Result<bool>)
    requires WellFormed(nodes) && Within(bindings, |nodes|)
    ensures kind == ArrowKind ==> r == Ok(false)
    ensures kind != ArrowKind && ArgumentsName !in bindings ==> r == Err(TypeError)
    ensures kind != ArrowKind && ArgumentsName in bindings && bindings[ArgumentsName].definition.Some? ==> r == Ok(false)
    ensures kind != ArrowKind && ArgumentsName in bindings ==> r != Err(TypeError)
    ensures r == Ok(true) ==>
      (kind != ArrowKind && ArgumentsName in bindings && bindings[ArgumentsName].definition.None? &&
       exists x :: x in bindings[ArgumentsName].references && x < |nodes| && EnclosingFunction(nodes, x) == Some(root))
  {
    if kind == ArrowKind then Ok(false)
    else if ArgumentsName !in bindings then Err(TypeError)
    else
      var b := bindings[ArgumentsName];
      if b.definition.Some? then Ok(false)
      else
        assert forall i :: 0 <= i < |b.references| ==> b.references[i] in b.references;
        SomeOwnReferenceMeaning(nodes, b.references, root);
        SomeOwnReference(nodes, b.references, root)
  }

  /** For a non-arrow function the crawled scope always holds `arguments`, and its binding has a
      definition exactly when some declaration redefines `arguments`. */
  lemma ArgumentsAlwaysBound(kind: FnKind, cr: CrawlResult)
    requires cr.Valid() && kind != ArrowKind
    ensures ArgumentsName in FunctionScope(kind, cr)
    ensures FunctionScope(kind, cr)[ArgumentsName].definition.Some? <==>
      exists i :: 0 <= i < |cr.declarations| && Redefines(cr.declarations[i])
    ensures HasArgumentsReference(kind, FunctionScope(kind, cr), cr.nodes, cr.root) != Err(TypeError)
  {
    var seed := map[ArgumentsName := Placeholder];
    GuardedRedefinition(seed, cr.declarations);
    var defined := DefineAll(seed, true, cr.declarations);
    assert FunctionScope(kind, cr) == ReferenceAll(defined, cr.uses);
  }

  /** A declaration of `arguments` with a definition shadows the placeholder: the answer is false. */
  lemma ShadowedArguments(kind: FnKind, cr: CrawlResult, i: nat)
    requires cr.Valid() && kind != ArrowKind
    requires i < |cr.declarations| && Redefines(cr.declarations[i])
    ensures HasArgumentsReference(kind, FunctionScope(kind, cr), cr.nodes, cr.root) == Ok(false)
  {
    ArgumentsAlwaysBound(kind, cr);
  }

  /** When the references are exactly the nodes of the uses of `arguments`, and each has an
      enclosing function, the `some` answers whether one of those uses is the function's own. */
  lemma OwnReferenceAmongUses(nodes: seq<ArenaNode>, refs: seq<nat>, uses: seq<Use>, root: nat)
    requires WellFormed(nodes)
    requires forall j :: 0 <= j < |uses| ==> uses[j].node < |nodes|
    requires forall i :: 0 <= i < |refs| ==> exists j :: 0 <= j < |uses| && uses[j] == Use(ArgumentsName, refs[i])
    requires forall j :: 0 <= j < |uses| && uses[j].name == ArgumentsName ==> uses[j].node in refs
    requires forall j :: 0 <= j < |uses| ==> EnclosingFunction(nodes, uses[j].node).Some?
    ensures forall i :: 0 <= i < |refs| ==> refs[i] < |nodes|
    ensures SomeOwnReference(nodes, refs, root) ==
      Ok(exists j :: 0 <= j < |uses| && uses[j].name == ArgumentsName &&
           EnclosingFunction(nodes, uses[j].node) == Some(root))
  {
    forall i | 0 <= i < |refs|
      ensures refs[i] < |nodes| && EnclosingFunction(nodes, refs[i]).Some?
    {
      var j :| 0 <= j < |uses| && uses[j] == Use(ArgumentsName, refs[i]);
      assert uses[j].node == refs[i];
    }
    SomeOwnReferenceMeaning(nodes, refs, root);
    var r := SomeOwnReference(nodes, refs, root);
    assert r.Ok?;
    if r.value {
      var i :| 0 <= i < |refs| && EnclosingFunction(nodes, refs[i]) == Some(root);
      var j :| 0 <= j < |uses| && uses[j] == Use(ArgumentsName, refs[i]);
      assert uses[j].node == refs[i];
    } else {
      forall j | 0 <= j < |uses| && uses[j].name == ArgumentsName
        ensures EnclosingFunction(nodes, uses[j].node) != Some(root)
      {
        var i :| 0 <= i < |refs| && refs[i] == uses[j].node;
      }
    }
  }

  /** The same answer for the references the crawl records on a placeholder that starts with none. */
  lemma CrawledOwnReference(nodes: seq<ArenaNode>, m: map<string, Binding>, uses: seq<Use>, root: nat)
    requires WellFormed(nodes)
    requires forall j :: 0 <= j < |uses| ==> uses[j].node < |nodes|
    requires ArgumentsName in m && m[ArgumentsName].references == []
    requires forall j :: 0 <= j < |uses| ==> EnclosingFunction(nodes, uses[j].node).Some?
    ensures forall i :: 0 <= i < |ReferenceAll(m, uses)[ArgumentsName].references| ==>
      ReferenceAll(m, uses)[ArgumentsName].references[i] < |nodes|
    ensures SomeOwnReference(nodes, ReferenceAll(m, uses)[ArgumentsName].references, root) ==
      Ok(exists j :: 0 <= j < |uses| && uses[j].name == ArgumentsName &&
           EnclosingFunction(nodes, uses[j].node) == Some(root))
  {
    var refs := ReferenceAll(m, uses)[ArgumentsName].references;
    UsesCollected(m, uses, ArgumentsName, refs);
    OwnReferenceAmongUses(nodes, refs, uses, root);
  }

  /** Every use lies inside the analysed function, so every use has an enclosing function. */
  lemma UsesEnclosed(cr: CrawlResult)
    requires cr.Valid()
    ensures forall j :: 0 <= j < |cr.uses| ==> EnclosingFunction(cr.nodes, cr.uses[j].node).Some?
  {
    forall j | 0 <= j < |cr.uses|
      ensures EnclosingFunction(cr.nodes, cr.uses[j].node).Some?
    {
      NearestMeaning(cr.nodes, cr.uses[j].node, IsFunction);
    }
  }

  /** With no declaration of `arguments` at all, the answer is whether some use of `arguments`
      has the analysed function as its nearest enclosing function. */
  lemma UnshadowedArguments(kind: FnKind, cr: CrawlResult)
    requires cr.Valid() && kind != ArrowKind
    requires forall i :: 0 <= i < |cr.declarations| ==> cr.declarations[i].name != ArgumentsName
    ensures HasArgumentsReference(kind, FunctionScope(kind, cr), cr.nodes, cr.root) ==
      Ok(exists j :: 0 <= j < |cr.uses| && cr.uses[j].name == ArgumentsName &&
           EnclosingFunction(cr.nodes, cr.uses[j].node) == Some(cr.root))
  {
    UsesEnclosed(cr);
    var seed := map[ArgumentsName := Placeholder];
    DefineAllOtherNames(seed, true, cr.declarations, ArgumentsName);
    var defined := DefineAll(seed, true, cr.declarations);
    assert FunctionScope(kind, cr) == ReferenceAll(defined, cr.uses);
    CrawledOwnReference(cr.nodes, defined, cr.uses, cr.root);
  }
}
