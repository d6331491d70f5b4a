# guess-function-max-arity in Dafny

A model of `guessMaxArity` from guess.js, with proofs about it. The function decides how many
positional arguments a JavaScript function can observe. The answer is its declared length,
or unbounded (`Infinity` in the source) when the function reads its own `arguments` object or
reads its rest parameter.

The pipeline is modelled stage by stage:

- `Tokens`: the screening tokenizer (`tokenize` / `getToken`). It is a class with a cursor over
  the token stream. A token whose type is a loop keyword, an assignment, or carries the
  `prefix` or `postfix` flag is rejected. In acorn those flags sit on `++`/`--` and also on
  the unary operators `!`, `~`, `+`, `-`, `typeof`, `void` and `delete`.
- `Context`: the grammar-context classifier (`guessFnCtx`, `guessFnCtxInAsync`). Two pure
  decision tables say which context the first tokens select and how many tokens are pulled.
  The methods that drive the tokenizer are proved equal to these tables.
- `Parsing`: `parseFn`. The expression parser is a function parameter. The method context
  wraps the text as `({…})` and takes the value of the first property.
- `Tree`: the parent links the crawl sets and `closest`. Nodes form an arena, and each parent
  index is smaller than its child's index. `Nearest` is the specification of the ancestor walk.
  The `Closest` method walks the arena in a loop and is proved equal to `Nearest`.
- `Scopes`: the function scope built by the crawl. `define` adds to an existing binding or
  inserts a new one. `predefineArgumentsBinding` seeds the `arguments` placeholder and
  installs the guard that deletes the placeholder when a real `arguments` is defined.
  `Scope` is a class whose methods update its binding table.
- `References`: `hasArgumentsReference` over the crawled scope.
- `Arity`: `assertFnLength`, the rest-parameter detection, `parseAndGuess`, `guessMaxArity`
  and the `MAYBE_VARIADIC` substring test.
- `Scenarios`: concrete inputs and the verdict the model gives each. Most come from guess.test.js.
  Two are built to reach particular branches. One is an unused rest parameter (guess.js:163-167).
  The other is the outer function of the escape test, whose use of `arguments` lies inside an
  arrow (guess.js:128-131). The escape test's own input, the returned arrow, is
  `Scenarios.EscapedArrowShortcut`.

Two behaviours of the code that the model keeps:

- `closest(refNode, n.Function)` (line 129) stops at the nearest function node of any kind,
  arrows included. So in `function () { return () => arguments; }` the use of `arguments`
  belongs to the arrow, and the outer function gets the verdict 0
  (`Scenarios.ArrowEscapesArguments`).
- An unrecognised first token makes `guessFnCtx` return `null` (line 88). `parseFn` then
  returns `null`, and the failure comes from `n.Function.assert` (`NotAFunction` here).
  The classifier throws in two other ways. The screened first `getToken` (lines 61 and 19-20)
  rejects a token such as `!` or `typeof`. The `async` branch throws when the tokens after
  `async` fit no case (line 56).

## Model

| member | source | states |
|---|---|---|
| Tokens.TokenAt | guess.js:17 | inside the stream the cursor yields the token at its position; past the end it keeps producing an end-of-file token, which is never rejected |
| Tokens.Screen | guess.js:18-22 | the token is rejected exactly when its type is a loop keyword, an assignment, a prefix or a postfix operator; otherwise it is returned unchanged |
| Tokens.Tokenizer.constructor | guess.js:14-15 | a new tokenizer stands at the start of the token stream |
| Tokens.Tokenizer.GetToken | guess.js:16-23 | each call consumes exactly one token and returns the screened token at the old cursor |
| Context.ClassifyAsync | guess.js:35-57 | after `async`: `[`, `*` and `(` give method; `function` gives expression; a name gives method only when a `(` follows, and then two tokens are consumed; everything else is an error, never a null context |
| Context.Classify | guess.js:59-89 | `(` and `function` give expression; `[`, `*` and a name other than `async` give method; `async` defers to the async table; any other token gives null; a rejected token is an error; at most three tokens are consumed |
| Context.ClassifyReadsOnlyWindow | guess.js:35-89 | two token streams that agree on the tokens the classifier pulls classify alike |
| Context.GuessFnCtxInAsync | guess.js:35-57 | driving the tokenizer yields the async table's context and advances the cursor by the number of tokens it consumes |
| Context.GuessFnCtx | guess.js:59-89 | driving the tokenizer yields the classification and advances the cursor by the number of tokens it consumes |
| Parsing.Wrap | guess.js:99 | the method text is the source between `({` and `})` |
| Parsing.FirstPropertyValue | guess.js:99 | the value of the first property of an object expression; any other tree is a type error |
| Parsing.Parsed | guess.js:91-102 | classifier errors propagate; a null context gives a null tree; expression parses the source at 0; method parses the wrapped source and takes its first property value |
| Parsing.ParseFn | guess.js:91-102 | the method computes exactly `Parsed` |
| Tree.Ancestors | guess.js:106 | the chain starts at the node itself and never goes above it in the numbering |
| Tree.Nearest | guess.js:104-110 | a node found is the start or lies above it, and it satisfies the predicate |
| References.EnclosingFunction | guess.js:129 | `closest(refNode, n.Function)`: a node found is at or above the reference and is a function node, arrows included; it is the first such on the chain by `Tree.NearestMeaning` |
| Tree.NearestMeaning | guess.js:104-110 | the node found is an ancestor satisfying the predicate with no satisfying ancestor below it; none is found exactly when no ancestor satisfies it |
| Tree.Closest | guess.js:104-110 | the loop over parent links computes `Nearest` and returns a node that satisfies the predicate |
| Scopes.AddRef | guess.js:128 | adding a reference keeps the existing ones in order; an already recorded node leaves the list unchanged, and a new one is appended at the end |
| Scopes.AddRefs | guess.js:145 | the references afterwards are exactly the old ones and the new ones |
| Scopes.IsReferenced | guess.js:163 | a binding with no references is not referenced, and neither is one whose only reference is its own declaring node |
| Scopes.DefineIn | guess.js:139-146 | one `define` keeps every name and adds the defined one |
| Scopes.DefineInEffect | guess.js:139-146 | one `define` leaves other names untouched; with the guard, a definition-carrying `arguments` replaces the entry; a new name is stored as given; an existing binding keeps its definition and gains the references |
| Scopes.ReferenceIn | guess.js:155 | recording a reference keeps the set of names |
| Scopes.ReferenceInEffect | guess.js:155 | recording a reference leaves names and definitions alone and adds the node to the named binding only |
| Scopes.Names | guess.js:155 | the set holds exactly the names some declaration binds |
| Scopes.DefineAll | guess.js:155 | after the declarations, bindings stay filed under their names |
| Scopes.DefineAllKeys | guess.js:155 | the declarations add exactly the names they bind |
| Scopes.Crawled | guess.js:155 | the crawl leaves the names the table had plus those the declarations bind, still filed under their names; what it records is stated in `UsesCollected` and `GuardedRedefinition` |
| Scopes.ReferenceAll | guess.js:155 | after the references the names and definitions are unchanged and every use of a present name is recorded |
| Scopes.LastRedefinition | guess.js:142 | the last declaration that redefines `arguments`, none exactly when no declaration does |
| Scopes.GuardedRedefinition | guess.js:139-147 | with the guard, the `arguments` definition is that of the last redefinition, or absent when there is none |
| Scopes.UnguardedKeepsPlaceholder | guess.js:140-141 | without the guard, redefinitions would never replace the placeholder, which is why the override exists |
| Scopes.CrawledWithin | guess.js:155 | every node the crawled scope mentions belongs to the arena |
| Scopes.DefineAllWithin | guess.js:155 | declaring arena nodes keeps the table within the arena |
| Scopes.ReferenceAllWithin | guess.js:155 | recording arena nodes keeps the table within the arena |
| Scopes.DefineAllOtherNames | guess.js:139-146 | a name that no declaration uses keeps its binding through the declarations |
| Scopes.ReferenceAllCollects | guess.js:128 | a node is a reference of a binding exactly when it already was or some use of that name is at that node |
| Scopes.UsesCollected | guess.js:128 | a binding that starts without references ends with exactly the nodes of the uses of its name |
| Scopes.FunctionScope | guess.js:154-155 | the crawled function scope is keyed by name and mentions only arena nodes |
| Scopes.Scope.constructor | guess.js:137 | a new scope has no bindings and the library's own `define` |
| Scopes.Scope.Define | guess.js:139-146 | the binding table becomes `DefineIn` of the old one under the installed guard |
| Scopes.Scope.GuardArguments | guess.js:139 | installing the override changes only the guard |
| Scopes.Scope.AddReference | guess.js:155 | the binding table becomes `ReferenceIn` of the old one |
| Scopes.Scope.Crawl | guess.js:155 | declaring and then referencing leaves the table equal to `Crawled` of the old one |
| Scopes.Scope.DefineEach | guess.js:155 | the loop over the declarations leaves the table equal to `DefineAll` of the old one |
| Scopes.Scope.ReferenceEach | guess.js:155 | the loop over the references leaves the table equal to `ReferenceAll` of the old one |
| Scopes.PredefineArgumentsBinding | guess.js:135-149 | no scope for an arrow; otherwise a fresh guarded scope holding only the `arguments` placeholder without a definition |
| References.OwnReferenceFrom | guess.js:128-132 | the in-order `some` from an index on: its only error is `NoAncestorFunction`, and past the last reference it is false; its full meaning is `OwnReferenceFromMeaning` |
| References.SomeOwnReference | guess.js:128-132 | the `some` over all references: its only error is `NoAncestorFunction`, and with no references it is false; its full meaning is `SomeOwnReferenceMeaning` |
| References.OwnReferenceFromMeaning | guess.js:128-132 | from a given index on, the `some` is true only with a reference whose nearest function is the analysed one, false only when every reference has a function and none is it, and an error only for a missing function met before any own reference |
| References.SomeOwnReferenceMeaning | guess.js:128-132 | the same over all references; with a function above every reference there is no error |
| References.HasArgumentsReference | guess.js:120-133 | false for an arrow and for a redefined `arguments`; a type error exactly when a non-arrow scope has no `arguments`; true only with an own reference to the placeholder |
| References.ArgumentsAlwaysBound | guess.js:123-126 | for a non-arrow function `arguments` is always bound, and it has a definition exactly when some declaration redefines it |
| References.ShadowedArguments | guess.js:126 | a redefinition of `arguments` makes the answer false |
| References.OwnReferenceAmongUses | guess.js:128-132 | when the references are the nodes of the `arguments` uses, the `some` answers whether one of those uses lies directly in the analysed function |
| References.CrawledOwnReference | guess.js:128-132 | for the references the crawl records on an empty placeholder, the `some` answers whether a use of `arguments` lies directly in the analysed function |
| References.UsesEnclosed | guess.js:129 | every use the crawl resolves lies inside the analysed function, so the walk from it always finds a function and `NoAncestorFunction` cannot arise from a use |
| References.UnshadowedArguments | guess.js:120-133 | with no declaration of `arguments`, the answer is whether some use of it has the analysed function as its nearest function |
| Arity.Contains | guess.js:12 | true exactly when the pattern occurs at some index of the text |
| Arity.MaybeVariadic | guess.js:12 | `MAYBE_VARIADIC.test(src)` (used at line 180): true exactly when `...` or `arguments` occurs at some index of the source |
| Arity.AssertFnLength | guess.js:112-118 | the declared length is returned exactly when the parameter count, less the rest parameter, equals it; otherwise an inconsistent-count error |
| Arity.RestName | guess.js:188-193 | the name of a final rest parameter that is an identifier; none without a final rest parameter; an error for a destructured rest parameter |
| Arity.Select | guess.js:157-167 | an unset body parent is an error; an error from `hasArgumentsReference` is passed on; an own `arguments` reference gives unbounded; otherwise a rest parameter missing from the scope is a type error, a referenced one gives unbounded, and an absent or unreferenced one gives exactly `assertFnLength`'s answer; a bounded verdict is the checked declared length |
| Arity.OwnArgumentsUseDecides | guess.js:160-167 | with no redefinition of `arguments`, a use of it directly inside the function makes the verdict unbounded; with no such use and an absent or unreferenced rest parameter, the verdict is exactly `assertFnLength`'s answer |
| Arity.Analyse | guess.js:184-196 | parse errors propagate; a non-function is an error; a bad rest parameter is an error; an arrow without rest gets the checked length; everything else goes to the selection; a bounded verdict is always the checked declared length |
| Arity.ParseAndGuess | guess.js:151-168 | seeding, crawling and checking the scope compute exactly `Select` |
| Arity.GuessMaxArity | guess.js:171-197 | unreadable or native source gives unbounded; the fast path gives the declared length exactly when neither `...` nor `arguments` occurs; otherwise the result is `Analyse` of `Parsed`; a bounded verdict is always the declared length |
| Scenarios.AsyncFunctionNamedAsync | guess.test.js:23 | `async function async(a) {}` is classified as an expression after two tokens |
| Scenarios.AsyncMethodNamedAsync | guess.test.js:36 | the text of a method named `async` is classified as a method after three tokens |
| Scenarios.AsyncGeneratorComputedName | guess.test.js:215-219 | `async *[name]() {}` is classified as a method after two tokens |
| Scenarios.AsyncNameWithoutParen | guess.js:53-56 | after `async` and a name, a rejected token and a token other than `(` are both errors |
| Scenarios.RestScope | guess.js:154-155 | in the built input `function (a, ...rest) {}` the crawled scope keeps the placeholder and `rest` has only its declaring node |
| Scenarios.UnusedRestParameter | guess.js:163-167 | `function (a, ...rest) {}` with `rest` unused has verdict 1 |
| Scenarios.ReferencedRestParameter | guess.test.js:73 | `(...args) => args` is unbounded |
| Scenarios.OwnScope | guess.test.js:59-65 | the placeholder of `function () { return arguments; }` records the use, which lies directly in the function |
| Scenarios.OwnReference | guess.test.js:59-65 | `hasArgumentsReference` answers true for that function |
| Scenarios.OwnArguments | guess.test.js:59-65 | `function () { return arguments; }` is unbounded |
| Scenarios.InteriorEnclosing | guess.test.js:146-154 | the inner `arguments` has the inner function as its nearest function |
| Scenarios.InteriorScope | guess.test.js:146-154 | the outer placeholder records the inner use |
| Scenarios.InteriorArguments | guess.test.js:146-154 | an `arguments` used only inside a nested function leaves the outer verdict at 1 |
| Scenarios.ParameterNamedArguments | guess.test.js:140 | a parameter named `arguments` shadows the placeholder: the verdict is 1 |
| Scenarios.EscapeEnclosing | guess.js:129 | in the outer function of the escape test, `function () { return () => arguments; }`, the use's nearest function is the arrow |
| Scenarios.EscapeScope | guess.js:154-155 | the outer placeholder records the use inside the arrow |
| Scenarios.ArrowEscapesArguments | guess.js:128-131 | that function's verdict is 0, because the walk stops at the arrow |
| Scenarios.EscapedArrowShortcut | guess.test.js:133-139 | the arrow `() => arguments` that the escape test analyses takes the arrow shortcut of guess.js:194 and gets 0 |

## Left out

- Reading a live function's source (`Function.prototype.toString`, lines 7, 10, 11 and 174): the readability flag, the spread-inference flag, the source text and the declared length are parameters of `GuessMaxArity`.
- `NATIVE_IMPL` (line 9): the regular-expression match is a boolean parameter. Whitespace classes and regex semantics are not modelled.
- The acorn tokenizer and parser: the token stream and the expression parser `parse(text, offset)` are inputs. `Parsed` does not tie the tokens to the text; parser options are not modelled.
- The scope-analyzer crawl: its result is an input (`CrawlResult`). That input holds the arena with parent links, the declarations in the function's own scope, and the uses that resolve to that scope. The model replays the declarations and then the references. Scope resolution itself and nested scopes are not modelled.
- `Scopes.DefineIn`: the library's own `define` is rendered as "keep an existing binding and merge references". The library's source is not part of this model.
- The crawl result is not tied to the parsed function node: `CrawlResult.Valid` asks that the root be a function node and that every use lie inside it, but the root's tag is not checked against `fn.kind`. In the source both are the same AST node; `Select` takes the arrow test (lines 120 and 135) from `fn.kind`.
- `Tree.WellFormed`: parent links are assumed to point to lower-numbered nodes, which makes the ancestor walk terminate. A cyclic parent chain cannot be expressed.
- `closest`'s `predicate.check` binding (line 105): the predicate is a Dafny function on nodes.
- The iterator returned by `tokenize` (lines 26-31): nothing in the core uses it.
- Error messages and error classes (`SyntaxError`, `Error`, assertion errors): failures are the values of `Wrappers.Failure`.
- `Infinity` is `Arity.Verdict.Unbounded`; `fn.length` is a natural number.
- The export alias `guessFunctionMaxArity` (line 200).
- `PredefineArgumentsBinding`: the source attaches the new scope to the AST node; here the scope is returned, or null for an arrow, and `ParseAndGuess` uses a fresh scope for an arrow.
