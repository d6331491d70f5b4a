/** The function scope's binding table, seeded with a definition-less `arguments`
    (`predefineArgumentsBinding`), and the crawl's declarations and references replayed into it. */
module Scopes {
  import opened Wrappers
  import opened Tree

  /** A binding: its name, the declaring node (if any) and the reference nodes, in insertion order. */
  datatype Binding = Binding(name: string, definition: Option<nat>, references: seq<nat>)

  /** A reference site, by name, that the crawl resolved to the function's own scope. */
  datatype Use = Use(name: string, node: nat)

  const ArgumentsName: string := "arguments"

  /** The injected binding: named `arguments`, no definition, no references yet. */
  const Placeholder: Binding := Binding(ArgumentsName, None, [])

  /** A binding carrying a definition named `arguments`: the only kind the override intercepts. */
  predicate Redefines(b: Binding) {
    b.definition.Some? && b.name == ArgumentsName
  }

  /** Adds a reference node with set semantics: a node already present is not added again. */
  function AddRef(refs: seq<nat>, x: nat): (r: seq<nat>)
    ensures forall y :: y in r <==> y in refs || y == x
    ensures |refs| <= |r| && r[..|refs|] == refs
    ensures x in refs ==> r == refs
    ensures x !in refs ==> r == refs + [x]
  {
    if x in refs then refs else refs + [x]
  }

  /** Adds every node of `xs`, in order. */
  function AddRefs(refs: seq<nat>, xs: seq<nat>): (r: seq<nat>)
    ensures forall y :: y in r <==> y in refs || y in xs
    decreases |xs|
  {
    if xs == [] then refs else AddRefs(AddRef(refs, xs[0]), xs[1..])
  }

  /** `isReferenced`: some reference other than the declaring node itself. */
  predicate IsReferenced(b: Binding)
    ensures b.references == [] ==> !IsReferenced(b)
    ensures b.definition.Some? && b.references == [b.definition.value] ==> !IsReferenced(b)
  {
    exists r :: r in b.references && Some(r) != b.definition
  }

  /** Every binding is filed under its own name. */
  ghost predicate Keyed(m: map<string, Binding>) {
    forall k :: k in m ==> m[k].name == k
  }

  /** Every node the binding mentions is one of the `n` nodes of the arena. */
  ghost predicate BindingWithin(b: Binding, n: nat) {
    (b.definition.Some? ==> b.definition.value < n) && forall r :: r in b.references ==> r < n
  }

  /** Every node a binding of the table mentions is one of the `n` nodes of the arena. */
  ghost predicate Within(m: map<string, Binding>, n: nat) {
    forall k :: k in m ==> BindingWithin(m[k], n)
  }

  /** One `define` call. Without the guard it is the library's own: a name already present keeps
      its binding and gains the new references; a new name is inserted. With the guard installed
      by `PredefineArgumentsBinding`, a definition-carrying `arguments` first deletes the entry. */
  function DefineIn(m: map<string, Binding>, b: Binding, guard: bool): (m': map<string, Binding>)
    ensures m'.Keys == m.Keys + {b.name}
  {
    var base := if guard && Redefines(b) then m - {ArgumentsName} else m;
    if b.name in base then
      base[b.name := base[b.name].(references := AddRefs(base[b.name].references, b.references))]
    else
      base[b.name := b]
  }

  /** What one `define` does to the table: other names are untouched; a guarded redefinition of
      `arguments` and a new name store the binding as given; an existing binding keeps its name and
      definition and gains the references; bindings stay filed under their names. */
  lemma DefineInEffect(m: map<string, Binding>, b: Binding, guard: bool)
    ensures forall k :: k in m && k != b.name ==> DefineIn(m, b, guard)[k] == m[k]
    ensures guard && Redefines(b) ==> DefineIn(m, b, guard)[b.name] == b
    ensures !(guard && Redefines(b)) && b.name !in m ==> DefineIn(m, b, guard)[b.name] == b
    ensures !(guard && Redefines(b)) && b.name in m ==>
      DefineIn(m, b, guard)[b.name].name == m[b.name].name &&
      DefineIn(m, b, guard)[b.name].definition == m[b.name].definition &&
      (forall y :: y in DefineIn(m, b, guard)[b.name].references <==> y in m[b.name].references || y in b.references)
    ensures Keyed(m) ==> Keyed(DefineIn(m, b, guard))
  {
  }

  /** Records one reference on the binding it names, if the scope has one. */
  function ReferenceIn(m: map<string, Binding>, u: Use): (m': map<string, Binding>)
    ensures m'.Keys == m.Keys
  {
    if u.name in m then m[u.name := m[u.name].(references := AddRef(m[u.name].references, u.node))] else m
  }

  /** What recording one reference does: names and definitions stay; only the named binding
      changes, and it gains exactly the use's node. */
  lemma ReferenceInEffect(m: map<string, Binding>, u: Use)
    ensures forall k :: k in m ==>
      ReferenceIn(m, u)[k].name == m[k].name && ReferenceIn(m, u)[k].definition == m[k].definition
    ensures forall k :: k in m && k != u.name ==> ReferenceIn(m, u)[k] == m[k]
    ensures u.name in m ==>
      forall y :: y in ReferenceIn(m, u)[u.name].references <==> y in m[u.name].references || y == u.node
  {
  }

  /** The names the declarations bind. */
  function Names(decls: seq<Binding>): (ns: set<string>)
    ensures forall i :: 0 <= i < |decls| ==> decls[i].name in ns
    ensures forall k :: k in ns ==> exists i :: 0 <= i < |decls| && decls[i].name == k
    decreases |decls|
  {
    if decls == [] then {}
    else
      var init := decls[..|decls| - 1];
      assert forall i :: 0 <= i < |init| ==> init[i] == decls[i];
      Names(init) + {decls[|decls| - 1].name}
  }

  /** The declarations, defined in order. */
  function DefineAll(m: map<string, Binding>, guard: bool, decls: seq<Binding>): (m': map<string, Binding>)
    ensures Keyed(m) ==> Keyed(m')
    decreases |decls|
  {
    if decls == [] then m
    else
      var prev := DefineAll(m, guard, decls[..|decls| - 1]);
      DefineInEffect(prev, decls[|decls| - 1], guard);
      DefineIn(prev, decls[|decls| - 1], guard)
  }

  /** The declarations add exactly the names they bind. */
  lemma {:induction false} DefineAllKeys(m: map<string, Binding>, guard: bool, decls: seq<Binding>)
    ensures DefineAll(m, guard, decls).Keys == m.Keys + Names(decls)
    decreases |decls|
  {
    if decls != [] {
      DefineAllKeys(m, guard, decls[..|decls| - 1]);
    }
  }

  /** The references, recorded in order. */
  function ReferenceAll(m: map<string, Binding>, uses: seq<Use>): (m': map<string, Binding>)
    ensures m'.Keys == m.Keys
    ensures forall k :: k in m ==> m'[k].name == m[k].name && m'[k].definition == m[k].definition
    ensures forall j :: 0 <= j < |uses| && uses[j].name in m ==> uses[j].node in m'[uses[j].name].references
    ensures Keyed(m) ==> Keyed(m')
    decreases |uses|
  {
    if uses == [] then m
    else
      var prev := ReferenceAll(m, uses[..|uses| - 1]);
      ReferenceInEffect(prev, uses[|uses| - 1]);
      ReferenceIn(prev, uses[|uses| - 1])
  }

  /** The crawl's effect on the function scope: declarations first, then references. */
  function Crawled(m: map<string, Binding>, guard: bool, decls: seq<Binding>, uses: seq<Use>): (m': map<string, Binding>)
    ensures m'.Keys == m.Keys + Names(decls)
    ensures Keyed(m) ==> Keyed(m')
  {
    DefineAllKeys(m, guard, decls);
    ReferenceAll(DefineAll(m, guard, decls), uses)
  }

  /** The index of the last declaration that redefines `arguments`, if any. */
  function LastRedefinition(decls: seq<Binding>): (r: Option<nat>)
    ensures r.Some? ==> r.value < |decls| && Redefines(decls[r.value])
    ensures r.Some? ==> forall i :: r.value < i < |decls| ==> !Redefines(decls[i])
    ensures r.None? <==> forall i :: 0 <= i < |decls| ==> !Redefines(decls[i])
    decreases |decls|
  {
    if decls == [] then None
    else if Redefines(decls[|decls| - 1]) then Some(|decls| - 1)
    else LastRedefinition(decls[..|decls| - 1])
  }

  /** With the guard, the placeholder's missing definition survives exactly until some declaration
      redefines `arguments`; from then on the definition is that of the last such declaration. */
  lemma {:induction false} GuardedRedefinition(m: map<string, Binding>, decls: seq<Binding>)
    requires ArgumentsName in m && m[ArgumentsName].definition.None?
    ensures ArgumentsName in DefineAll(m, true, decls)
    ensures DefineAll(m, true, decls)[ArgumentsName].definition ==
      match LastRedefinition(decls)
      case None => None
      case Some(i) => decls[i].definition
    decreases |decls|
  {
    if decls != [] {
      var init := decls[..|decls| - 1];
      GuardedRedefinition(m, init);
      var d := decls[|decls| - 1];
      if !Redefines(d) {
        assert LastRedefinition(decls) == LastRedefinition(init);
        if LastRedefinition(init).Some? {
          assert decls[LastRedefinition(init).value] == init[LastRedefinition(init).value];
        }
      }
    }
  }

  /** Without the guard, the library's `define` keeps the first binding of a name, so a
      redefinition of `arguments` would never replace the placeholder. */
  lemma {:induction false} UnguardedKeepsPlaceholder(m: map<string, Binding>, decls: seq<Binding>)
    requires ArgumentsName in m && m[ArgumentsName].definition.None?
    ensures ArgumentsName in DefineAll(m, false, decls)
    ensures DefineAll(m, false, decls)[ArgumentsName].definition.None?
    decreases |decls|
  {
    if decls != [] {
      UnguardedKeepsPlaceholder(m, decls[..|decls| - 1]);
    }
  }

  /** All the nodes the crawl mentions are arena nodes, so the bindings' nodes are too. */
  lemma {:induction false} CrawledWithin(m: map<string, Binding>, guard: bool, decls: seq<Binding>, uses: seq<Use>, n: nat)
    requires Within(m, n)
    requires forall i :: 0 <= i < |decls| ==> BindingWithin(decls[i], n)
    requires forall j :: 0 <= j < |uses| ==> uses[j].node < n
    ensures Within(Crawled(m, guard, decls, uses), n)
  {
    DefineAllWithin(m, guard, decls, n);
    ReferenceAllWithin(DefineAll(m, guard, decls), uses, n);
  }

  lemma {:induction false} DefineAllWithin(m: map<string, Binding>, guard: bool, decls: seq<Binding>, n: nat)
    requires Within(m, n)
    requires forall i :: 0 <= i < |decls| ==> BindingWithin(decls[i], n)
    ensures Within(DefineAll(m, guard, decls), n)
    decreases |decls|
  {
    if decls != [] {
      var init := decls[..|decls| - 1];
      var d := decls[|decls| - 1];
      DefineAllWithin(m, guard, init, n);
      assert BindingWithin(d, n);
    }
  }

  lemma {:induction false} ReferenceAllWithin(m: map<string, Binding>, uses: seq<Use>, n: nat)
    requires Within(m, n)
    requires forall j :: 0 <= j < |uses| ==> uses[j].node < n
    ensures Within(ReferenceAll(m, uses), n)
    decreases |uses|
  {
    if uses != [] {
      ReferenceAllWithin(m, uses[..|uses| - 1], n);
    }
  }

  /** Declarations of other names leave a binding as it was. */
  lemma {:induction false} DefineAllOtherNames(m: map<string, Binding>, guard: bool, decls: seq<Binding>, k: string)
    requires k in m
    requires forall i :: 0 <= i < |decls| ==> decls[i].name != k
    ensures k in DefineAll(m, guard, decls) && DefineAll(m, guard, decls)[k] == m[k]
    decreases |decls|
  {
    if decls != [] {
      DefineAllOtherNames(m, guard, decls[..|decls| - 1], k);
    }
  }

  /** After the references are recorded, a binding's references are its old ones plus the uses of its name. */
  lemma {:induction false} ReferenceAllCollects(m: map<string, Binding>, uses: seq<Use>, k: string, x: nat)
    requires k in m
    ensures x in ReferenceAll(m, uses)[k].references <==>
      x in m[k].references || exists j :: 0 <= j < |uses| && uses[j] == Use(k, x)
    decreases |uses|
  {
    if uses != [] {
      var init := uses[..|uses| - 1];
      ReferenceAllCollects(m, init, k, x);
      if exists j :: 0 <= j < |init| && init[j] == Use(k, x) {
        var j :| 0 <= j < |init| && init[j] == Use(k, x);
        assert uses[j] == Use(k, x);
      }
      if exists j :: 0 <= j < |uses| && uses[j] == Use(k, x) {
        var j :| 0 <= j < |uses| && uses[j] == Use(k, x);
        if j < |init| {
          assert init[j] == Use(k, x);
        }
      }
    }
  }

  /** A binding that starts without references ends with exactly the nodes of the uses of its name. */
  lemma UsesCollected(m: map<string, Binding>, uses: seq<Use>, k: string, refs: seq<nat>)
    requires k in m && m[k].references == []
    requires refs == ReferenceAll(m, uses)[k].references
    ensures forall i :: 0 <= i < |refs| ==> exists j :: 0 <= j < |uses| && uses[j] == Use(k, refs[i])
    ensures forall j :: 0 <= j < |uses| && uses[j].name == k ==> uses[j].node in refs
  {
    forall i | 0 <= i < |refs|
      ensures exists j :: 0 <= j < |uses| && uses[j] == Use(k, refs[i])
    {
      ReferenceAllCollects(m, uses, k, refs[i]);
    }
    forall j | 0 <= j < |uses| && uses[j].name == k
      ensures uses[j].node in refs
    {
      ReferenceAllCollects(m, uses, k, uses[j].node);
    }
  }

  /** The crawl's own result: the arena with parent links, the function node and its body,
      the declarations made in the function's scope and the references resolved to it. */
  datatype CrawlResult = CrawlResult(nodes: seq<ArenaNode>, root: nat, body: nat, declarations: seq<Binding>, uses: seq<Use>)
  {
    /** The arena is well formed, the root is a function node, and every use lies inside it. */
    ghost predicate Valid() {
      WellFormed(nodes) && root < |nodes| && body < |nodes| && IsFunction(nodes[root]) &&
      (forall i :: 0 <= i < |declarations| ==> BindingWithin(declarations[i], |nodes|)) &&
      (forall j :: 0 <= j < |uses| ==> uses[j].node < |nodes| && root in Ancestors(nodes, uses[j].node))
    }
  }

  /** The function scope after the crawl: seeded and guarded for a non-arrow function, empty for an arrow. */
  function FunctionScope(kind: FnKind, cr: CrawlResult): (m: map<string, Binding>)
    requires cr.Valid()
    ensures Keyed(m) && Within(m, |cr.nodes|)
  {
    var seed := if kind == ArrowKind then map[] else map[ArgumentsName := Placeholder];
    CrawledWithin(seed, kind != ArrowKind, cr.declarations, cr.uses, |cr.nodes|);
    Crawled(seed, kind != ArrowKind, cr.declarations, cr.uses)
  }

  /** A scope object: its binding table and whether `define` has been overridden. */
  class Scope {
    var bindings: map<string, Binding>
    var guardsArguments: bool

    ghost predicate Valid()
      reads this
    {
      Keyed(bindings)
    }

    /** A fresh scope, as the crawl or `createScope` makes one. */
    constructor ()
      ensures Valid() && bindings == map[] && !guardsArguments
    {
      bindings := map[];
      guardsArguments := false;
    }

    /** `define`, as currently installed on this scope. */
    method Define(b: Binding)
      requires Valid()
      modifies this
      ensures Valid() && guardsArguments == old(guardsArguments)
      ensures bindings == DefineIn(old(bindings), b, guardsArguments)
    {
      DefineInEffect(bindings, b, guardsArguments);
      if guardsArguments && b.definition.Some? && b.name == ArgumentsName {
        bindings := bindings - {ArgumentsName};
      }
      if b.name in bindings {
        var existing := bindings[b.name];
        bindings := bindings[b.name := existing.(references := AddRefs(existing.references, b.references))];
      } else {
        bindings := bindings[b.name := b];
      }
    }

    /** Replaces `define` with the override that deletes the placeholder on redefinition. */
    method GuardArguments()
      modifies this
      ensures bindings == old(bindings) && guardsArguments
    {
      guardsArguments := true;
    }

    /** `add` on the binding a reference resolved to. */
    method AddReference(u: Use)
      requires Valid()
      modifies this
      ensures Valid() && guardsArguments == old(guardsArguments)
      ensures bindings == ReferenceIn(old(bindings), u)
    {
      ReferenceInEffect(bindings, u);
      if u.name in bindings {
        var b := bindings[u.name];
        bindings := bindings[u.name := b.(references := AddRef(b.references, u.node))];
      }
    }

    /** The crawl of the function's scope: every declaration through `define`, then every reference. */
    method Crawl(decls: seq<Binding>, uses: seq<Use>)
      requires Valid()
      modifies this
      ensures Valid() && guardsArguments == old(guardsArguments)
      ensures bindings == Crawled(old(bindings), guardsArguments, decls, uses)
    {
      DefineEach(decls);
      ReferenceEach(uses);
    }

    /** The declarations of the crawl, through `define` in order. */
    method DefineEach(decls: seq<Binding>)
      requires Valid()
      modifies this
      ensures Valid() && guardsArguments == old(guardsArguments)
      ensures bindings == DefineAll(old(bindings), guardsArguments, decls)
    {
      var i := 0;
      while i < |decls|
        invariant 0 <= i <= |decls|
        invariant Valid() && guardsArguments == old(guardsArguments)
        invariant bindings == DefineAll(old(bindings), guardsArguments, decls[..i])
      {
        Define(decls[i]);
        assert decls[..i + 1][..i] == decls[..i] && decls[..i + 1][i] == decls[i];
        i := i + 1;
      }
      assert decls[..i] == decls;
    }

    /** The references of the crawl, recorded in order. */
    method ReferenceEach(uses: seq<Use>)
      requires Valid()
      modifies this
      ensures Valid() && guardsArguments == old(guardsArguments)
      ensures bindings == ReferenceAll(old(bindings), uses)
    {
      var j := 0;
      while j < |uses|
        invariant 0 <= j <= |uses|
        invariant Valid() && guardsArguments == old(guardsArguments)
        invariant bindings == ReferenceAll(old(bindings), uses[..j])
      {
        AddReference(uses[j]);
        assert uses[..j + 1][..j] == uses[..j] && uses[..j + 1][j] == uses[j];
        j := j + 1;
      }
      assert uses[..j] == uses;
    }
  }

  /** `predefineArgumentsBinding`: for a non-arrow function, a new scope holding only the placeholder,
      with the overriding `define` installed; an arrow function gets no scope here. */
  method PredefineArgumentsBinding(kind: FnKind) returns (s: Scope?)
    ensures s == null <==> kind == ArrowKind
    ensures s != null ==> fresh(s) && s.Valid() && s.guardsArguments
    ensures s != null ==> s.bindings == map[ArgumentsName := Placeholder]
  {
    if kind == ArrowKind {
      return null;
    }
    s := new Scope();
    s.Define(Placeholder);
    s.GuardArguments();
    assert !s.bindings[ArgumentsName].definition.Some?;
  }
}
