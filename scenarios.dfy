/** Concrete inputs, most of them from guess.test.js, with the outcomes the model gives them. Two are
    built to reach particular branches: an unused rest parameter, and the outer function of the
    escape case, whose use of `arguments` lies inside an arrow. */
module Scenarios {
  import opened Wrappers
  import opened Tokens
  import opened Context
  import opened Tree
  import opened Scopes
  import opened References
  import opened Arity

  function Punct(tag: Tag): (t: Token) {
    Token(TokenType(tag, false, false, false, false), None)
  }

  function NameToken(x: string): (t: Token) {
    Token(TokenType(Name, false, false, false, false), Some(x))
  }

  /** `async function async(a) {}` is a function expression. */
  lemma AsyncFunctionNamedAsync()
    ensures Classify([NameToken("async"), Punct(FunctionKw), NameToken("async"), Punct(ParenL)], 0) ==
      Step(Ok(Some(Expression)), 2)
  {
  }

  /** `async async() {}`, the text of a method named `async`, is a method. */
  lemma AsyncMethodNamedAsync()
    ensures Classify([NameToken("async"), NameToken("async"), Punct(ParenL)], 0) == Step(Ok(Some(Method)), 3)
  {
  }

  /** `async *[name]() {}` is a method, decided after two tokens. */
  lemma AsyncGeneratorComputedName()
    ensures Classify([NameToken("async"), Punct(Star), Punct(BracketL)], 0) == Step(Ok(Some(Method)), 2)
  {
  }

  /** `async t = 1` is no callable definition: the classifier throws on the third token. */
  lemma AsyncNameWithoutParen()
    ensures Classify([NameToken("async"), NameToken("t"), Token(TokenType(OtherTag, false, true, false, false), None)], 0).ctx ==
      Err(RejectedToken)
    ensures Classify([NameToken("async"), NameToken("t"), Punct(OtherTag)], 0).ctx == Err(UnexpectedToken)
  {
  }

  /** The arena of `function (a, ...rest) {}`: node 0 the function, 1 its body, 2 the parameter
      `a`, 3 the rest identifier. */
  const RestNodes: seq<ArenaNode> :=
    [ArenaNode(FunctionExpressionNode, None), ArenaNode(OtherNode, Some(0)),
     ArenaNode(OtherNode, Some(0)), ArenaNode(OtherNode, Some(0))]

  /** Both parameters are declared in the function scope; nothing refers to them. */
  const RestCrawl: CrawlResult :=
    CrawlResult(RestNodes, 0, 1, [Binding("a", Some(2), [2]), Binding("rest", Some(3), [3])], [])

  /** The crawled scope keeps the placeholder and holds `rest` with only its declaring node. */
  lemma RestScope()
    ensures RestCrawl.Valid()
    ensures ArgumentsName in FunctionScope(ExpressionKind, RestCrawl)
    ensures FunctionScope(ExpressionKind, RestCrawl)[ArgumentsName] == Placeholder
    ensures "rest" in FunctionScope(ExpressionKind, RestCrawl)
    ensures FunctionScope(ExpressionKind, RestCrawl)["rest"] == Binding("rest", Some(3), [3])
  {
    var cr := RestCrawl;
    var decls := cr.declarations;
    assert cr.Valid();
    var seed := map[ArgumentsName := Placeholder];
    assert decls[..1][..0] == [] && decls[..2] == decls;
    var d1 := DefineAll(seed, true, decls[..1]);
    assert DefineAll(seed, true, decls[..1][..0]) == seed;
    assert decls[..1] == [decls[0]];
    assert d1 == DefineIn(seed, decls[0], true);
    assert "rest" !in d1;
    var d2 := DefineAll(seed, true, decls);
    assert d2 == DefineIn(d1, decls[1], true);
    assert FunctionScope(ExpressionKind, cr) == ReferenceAll(d2, []) == d2;
  }

  /** With `rest` unused the verdict is `a`'s count, 1. */
  lemma UnusedRestParameter()
    ensures RestCrawl.Valid()
    ensures Select(1, FnNode(ExpressionKind, [PlainParam, RestElement(Identifier("rest"))]), Some("rest"), RestCrawl) ==
      Ok(Finite(1))
  {
    RestScope();
    var scope := FunctionScope(ExpressionKind, RestCrawl);
    assert !IsReferenced(scope["rest"]);
    assert SomeOwnReference(RestNodes, [], 0) == Ok(false);
    assert HasArgumentsReference(ExpressionKind, scope, RestNodes, 0) == Ok(false);
  }

  /** `(...args) => args`: node 0 is the arrow, 1 the identifier `args` in the body (also the
      body), 2 the rest identifier. */
  const SpreadCrawl: CrawlResult :=
    CrawlResult([ArenaNode(ArrowFunctionNode, None), ArenaNode(OtherNode, Some(0)), ArenaNode(OtherNode, Some(0))],
                0, 1, [Binding("args", Some(2), [2])], [Use("args", 1)])

  /** The rest parameter is read in the body, so the verdict is unbounded. */
  lemma ReferencedRestParameter()
    ensures SpreadCrawl.Valid()
    ensures Select(0, FnNode(ArrowKind, [RestElement(Identifier("args"))]), Some("args"), SpreadCrawl) == Ok(Unbounded)
  {
    assert SpreadCrawl.Valid();
    assert 1 in FunctionScope(ArrowKind, SpreadCrawl)["args"].references;
  }

  /** `function () { return arguments; }`: node 0 the function, 1 its body, 2 the `arguments`
      identifier inside the body. */
  const OwnNodes: seq<ArenaNode> :=
    [ArenaNode(FunctionExpressionNode, None), ArenaNode(OtherNode, Some(0)), ArenaNode(OtherNode, Some(1))]

  const OwnCrawl: CrawlResult := CrawlResult(OwnNodes, 0, 1, [], [Use(ArgumentsName, 2)])

  /** The crawled scope holds the placeholder, which has recorded node 2, inside the function itself. */
  lemma OwnScope()
    ensures OwnCrawl.Valid() && EnclosingFunction(OwnNodes, 2) == Some(0)
    ensures ArgumentsName in FunctionScope(ExpressionKind, OwnCrawl)
    ensures FunctionScope(ExpressionKind, OwnCrawl)[ArgumentsName] == Binding(ArgumentsName, None, [2])
  {
    var cr := OwnCrawl;
    assert Nearest(OwnNodes, 1, IsFunction) == Some(0);
    assert cr.Valid();
    var seed := map[ArgumentsName := Placeholder];
    assert DefineAll(seed, true, cr.declarations) == seed;
    assert cr.uses[..|cr.uses| - 1] == [];
    assert FunctionScope(ExpressionKind, cr) == ReferenceAll(seed, cr.uses);
    assert ReferenceAll(seed, cr.uses) == ReferenceIn(seed, Use(ArgumentsName, 2));
  }

  /** The recorded use lies directly in the function, so `hasArgumentsReference` answers true. */
  lemma OwnReference()
    ensures OwnCrawl.Valid()
    ensures HasArgumentsReference(ExpressionKind, FunctionScope(ExpressionKind, OwnCrawl), OwnNodes, 0) == Ok(true)
  {
    OwnScope();
    assert [2][1..] == [];
    assert SomeOwnReference(OwnNodes, [2], 0) == Ok(true);
  }

  /** The function reads its own `arguments`: the verdict is unbounded. */
  lemma OwnArguments()
    ensures OwnCrawl.Valid()
    ensures Select(0, FnNode(ExpressionKind, []), None, OwnCrawl) == Ok(Unbounded)
  {
    OwnReference();
  }

  /** The arena of `function (unused) { (function () { return arguments; })(); }`: node 0 the
      outer function, 1 its body, 2 the parameter, 3 the inner function, 4 its body, 5 `arguments`. */
  const InteriorNodes: seq<ArenaNode> :=
    [ArenaNode(FunctionExpressionNode, None), ArenaNode(OtherNode, Some(0)),
     ArenaNode(OtherNode, Some(0)), ArenaNode(FunctionExpressionNode, Some(1)),
     ArenaNode(OtherNode, Some(3)), ArenaNode(OtherNode, Some(4))]

  /** The `arguments` there has the inner function as its nearest enclosing function. */
  lemma InteriorEnclosing()
    ensures WellFormed(InteriorNodes) && EnclosingFunction(InteriorNodes, 5) == Some(3)
    ensures SomeOwnReference(InteriorNodes, [5], 0) == Ok(false)
  {
    assert Nearest(InteriorNodes, 4, IsFunction) == Some(3);
    assert [5][1..] == [];
  }

  const InteriorCrawl: CrawlResult :=
    CrawlResult(InteriorNodes, 0, 1, [Binding("unused", Some(2), [2])], [Use(ArgumentsName, 5)])

  /** The crawled scope holds the placeholder, which has recorded node 5. */
  lemma InteriorScope()
    ensures InteriorCrawl.Valid()
    ensures ArgumentsName in FunctionScope(ExpressionKind, InteriorCrawl)
    ensures FunctionScope(ExpressionKind, InteriorCrawl)[ArgumentsName] == Binding(ArgumentsName, None, [5])
  {
    var cr := InteriorCrawl;
    var decls := cr.declarations;
    InteriorEnclosing();
    assert cr.Valid();
    var seed := map[ArgumentsName := Placeholder];
    var d := DefineAll(seed, true, decls);
    assert decls[..|decls| - 1] == [];
    assert DefineAll(seed, true, decls[..|decls| - 1]) == seed;
    assert d == DefineIn(seed, Binding("unused", Some(2), [2]), true);
    assert d == seed["unused" := Binding("unused", Some(2), [2])];
    assert cr.uses[..|cr.uses| - 1] == [];
    assert ReferenceAll(d, cr.uses) == ReferenceIn(d, Use(ArgumentsName, 5));
    assert FunctionScope(ExpressionKind, cr) == ReferenceAll(d, cr.uses);
  }

  /** It resolves to the outer placeholder, but its nearest function is the inner one: the verdict is 1. */
  lemma InteriorArguments()
    ensures InteriorCrawl.Valid()
    ensures Select(1, FnNode(ExpressionKind, [PlainParam]), None, InteriorCrawl) == Ok(Finite(1))
  {
    InteriorEnclosing();
    InteriorScope();
    var scope := FunctionScope(ExpressionKind, InteriorCrawl);
    assert HasArgumentsReference(ExpressionKind, scope, InteriorNodes, 0) == Ok(false);
  }

  /** `function anonymous(arguments) { return arguments }`: node 0 the function, 1 its body,
      2 the parameter, 3 the use. The parameter redefines `arguments`, replacing the placeholder. */
  const ShadowCrawl: CrawlResult :=
    CrawlResult([ArenaNode(FunctionExpressionNode, None), ArenaNode(OtherNode, Some(0)),
                 ArenaNode(OtherNode, Some(0)), ArenaNode(OtherNode, Some(1))],
                0, 1, [Binding(ArgumentsName, Some(2), [2])], [Use(ArgumentsName, 3)])

  /** The verdict is the declared count, 1. */
  lemma ParameterNamedArguments()
    ensures ShadowCrawl.Valid()
    ensures Select(1, FnNode(ExpressionKind, [PlainParam]), None, ShadowCrawl) == Ok(Finite(1))
  {
    assert ShadowCrawl.Valid();
    ShadowedArguments(ExpressionKind, ShadowCrawl, 0);
  }

  /** The arena of `function () { return () => arguments; }`: node 0 the function, 1 its body,
      2 the arrow, 3 `arguments` (the arrow's body). */
  const EscapeNodes: seq<ArenaNode> :=
    [ArenaNode(FunctionExpressionNode, None), ArenaNode(OtherNode, Some(0)),
     ArenaNode(ArrowFunctionNode, Some(1)), ArenaNode(OtherNode, Some(2))]

  /** The arrow holds no `arguments` of its own, so the use resolves to the outer placeholder. */
  const EscapeCrawl: CrawlResult := CrawlResult(EscapeNodes, 0, 1, [], [Use(ArgumentsName, 3)])

  /** The nearest function of the use is the arrow, not the analysed function. */
  lemma EscapeEnclosing()
    ensures WellFormed(EscapeNodes) && EnclosingFunction(EscapeNodes, 3) == Some(2)
    ensures SomeOwnReference(EscapeNodes, [3], 0) == Ok(false)
  {
    assert Nearest(EscapeNodes, 3, IsFunction) == Some(2);
    assert [3][1..] == [];
  }

  /** The crawled scope holds the placeholder, which has recorded node 3. */
  lemma EscapeScope()
    ensures EscapeCrawl.Valid()
    ensures ArgumentsName in FunctionScope(ExpressionKind, EscapeCrawl)
    ensures FunctionScope(ExpressionKind, EscapeCrawl)[ArgumentsName] == Binding(ArgumentsName, None, [3])
  {
    var cr := EscapeCrawl;
    EscapeEnclosing();
    assert cr.Valid();
    var seed := map[ArgumentsName := Placeholder];
    assert DefineAll(seed, true, cr.declarations) == seed;
    assert cr.uses[..0] == [];
    assert FunctionScope(ExpressionKind, cr) == ReferenceAll(seed, cr.uses) == ReferenceIn(seed, cr.uses[0]);
  }

  /** The search for the nearest function stops at the arrow, so the outer function's own verdict
      is 0 although its arrow exposes every argument. */
  lemma ArrowEscapesArguments()
    ensures EscapeCrawl.Valid()
    ensures Select(0, FnNode(ExpressionKind, []), None, EscapeCrawl) == Ok(Finite(0))
  {
    EscapeEnclosing();
    EscapeScope();
    var scope := FunctionScope(ExpressionKind, EscapeCrawl);
    assert HasArgumentsReference(ExpressionKind, scope, EscapeNodes, 0) == Ok(false);
  }

  /** The escape test itself analyses the returned arrow `() => arguments`: node 0 the arrow, 1 its
      body. Its `arguments` belongs to the enclosing function's scope, so the arrow's crawl has no use. */
  const EscapedArrowCrawl: CrawlResult :=
    CrawlResult([ArenaNode(ArrowFunctionNode, None), ArenaNode(OtherNode, Some(0))], 0, 1, [], [])

  /** An arrow without a rest parameter takes the shortcut and gets its declared count, 0. */
  lemma EscapedArrowShortcut()
    ensures EscapedArrowCrawl.Valid()
    ensures Analyse(0, Ok(Some(Function(FnNode(ArrowKind, [])))), EscapedArrowCrawl) == Ok(Finite(0))
  {
    assert EscapedArrowCrawl.Valid();
  }
}
