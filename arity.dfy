/** The arity decision (`guessMaxArity`, `parseAndGuess`, `assertFnLength`). */
module Arity {
  import opened Wrappers
  import opened Tokens
  import opened Tree
  import opened Parsing
  import opened Scopes
  import opened References

  /** The verdict: a bounded arity, or unbounded (the source's `Infinity`). */
  datatype Verdict = Finite(n: nat) | Unbounded

  /** `sub` occurs in `s` starting at index `i`. */
  ghost predicate OccursAt(s: string, sub: string, i: nat) {
    i + |sub| <= |s| && s[i..i + |sub|] == sub
  }

  /** Whether `sub` occurs in `s` as a contiguous substring. */
  function Contains(s: string, sub: string): (b: bool)
    ensures b <==> exists i: nat :: OccursAt(s, sub, i)
    decreases |s|
  {
    if |s| < |sub| then false
    else if s[..|sub|] == sub then
      assert OccursAt(s, sub, 0);
      true
    else
      ShiftOccurrence(s, sub);
      Contains(s[1..], sub)
  }

  /** When `sub` does not start `s`, it occurs in `s` exactly when it occurs in `s[1..]`. */
  lemma ShiftOccurrence(s: string, sub: string)
    requires |s| >= |sub| && s[..|sub|] != sub
    ensures (exists i: nat :: OccursAt(s, sub, i)) <==> (exists i: nat :: OccursAt(s[1..], sub, i))
  {
    forall i: nat
      ensures OccursAt(s[1..], sub, i) <==> OccursAt(s, sub, i + 1)
    {
      if i + |sub| <= |s| - 1 {
        assert s[1..][i..i + |sub|] == s[i + 1..i + 1 + |sub|];
      }
    }
    if exists i: nat :: OccursAt(s, sub, i) {
      var i: nat :| OccursAt(s, sub, i);
      assert i != 0;
      assert OccursAt(s[1..], sub, i - 1);
    }
  }

  /** The textual test for a possibly variadic source: `...` or `arguments` occurs in it. */
  predicate MaybeVariadic(src: string)
    ensures MaybeVariadic(src) <==>
      (exists i: nat :: OccursAt(src, "...", i)) || (exists i: nat :: OccursAt(src, "arguments", i))
  {
    Contains(src, "...") || Contains(src, "arguments")
  }

  /** `assertFnLength`: the parsed parameter count, less a rest parameter, must be the runtime's count. */
  function AssertFnLength(fnLength: nat, fn: FnNode, hasRest: bool): (r: Result<Verdict>)
    ensures r.Ok? <==> |fn.params| - (if hasRest then 1 else 0) == fnLength
    ensures r.Ok? ==> r.value == Finite(fnLength)
    ensures r.Err? ==> r.error == InconsistentCount
  {
    if |fn.params| - (if hasRest then 1 else 0) != fnLength then Err(InconsistentCount) else Ok(Finite(fnLength))
  }

  /** Rest-parameter detection: the name bound by a final rest element, which must be an identifier. */
  function RestName(fn: FnNode): (r: Result<Option<string>>)
    ensures r == Ok(None) <==> |fn.params| == 0 || !fn.params[|fn.params| - 1].RestElement?
    ensures forall x :: r == Ok(Some(x)) <==>
      |fn.params| > 0 && fn.params[|fn.params| - 1] == RestElement(Identifier(x))
    ensures r.Err? <==> |fn.params| > 0 && fn.params[|fn.params| - 1] == RestElement(OtherPattern)
    ensures r.Err? ==> r.error == NotAnIdentifier
  {
    if |fn.params| > 0 && fn.params[|fn.params| - 1].RestElement? then
      match fn.params[|fn.params| - 1].argument
      case Identifier(x) => Ok(Some(x))
      case OtherPattern => Err(NotAnIdentifier)
    else Ok(None)
  }

  /** The verdict `parseAndGuess` selects once the scope is crawled: an own use of `arguments`
      wins, then a referenced rest parameter, and only then the checked declared count. */
  function Select(fnLength: nat, fn: FnNode, rest: Option<string>, cr: CrawlResult): (r: Result<Verdict>)
    requires cr.Valid()
    ensures cr.nodes[cr.body].parent != Some(cr.root) ==> r == Err(ParentNotSet)
    ensures forall n :: r == Ok(Finite(n)) ==>
      n == fnLength && |fn.params| - (if rest.Some? then 1 else 0) == fnLength
    ensures r.Ok? && r.value.Finite? ==>
      HasArgumentsReference(fn.kind, FunctionScope(fn.kind, cr), cr.nodes, cr.root) == Ok(false) &&
      (rest.Some? ==> rest.value in FunctionScope(fn.kind, cr) && !IsReferenced(FunctionScope(fn.kind, cr)[rest.value]))
    ensures (cr.nodes[cr.body].parent == Some(cr.root) &&
             HasArgumentsReference(fn.kind, FunctionScope(fn.kind, cr), cr.nodes, cr.root).Err?) ==>
      r == Err(HasArgumentsReference(fn.kind, FunctionScope(fn.kind, cr), cr.nodes, cr.root).error)
    ensures (cr.nodes[cr.body].parent == Some(cr.root) &&
             HasArgumentsReference(fn.kind, FunctionScope(fn.kind, cr), cr.nodes, cr.root) == Ok(true)) ==>
      r == Ok(Unbounded)
    ensures (cr.nodes[cr.body].parent == Some(cr.root) &&
             HasArgumentsReference(fn.kind, FunctionScope(fn.kind, cr), cr.nodes, cr.root) == Ok(false) &&
             rest.Some? && rest.value !in FunctionScope(fn.kind, cr)) ==>
      r == Err(TypeError)
    ensures (cr.nodes[cr.body].parent == Some(cr.root) &&
             HasArgumentsReference(fn.kind, FunctionScope(fn.kind, cr), cr.nodes, cr.root) == Ok(false) &&
             rest.Some? && rest.value in FunctionScope(fn.kind, cr) &&
             IsReferenced(FunctionScope(fn.kind, cr)[rest.value])) ==>
      r == Ok(Unbounded)
    ensures (cr.nodes[cr.body].parent == Some(cr.root) &&
             HasArgumentsReference(fn.kind, FunctionScope(fn.kind, cr), cr.nodes, cr.root) == Ok(false) &&
             (rest.None? || (rest.value in FunctionScope(fn.kind, cr) &&
                             !IsReferenced(FunctionScope(fn.kind, cr)[rest.value])))) ==>
      r == AssertFnLength(fnLength, fn, rest.Some?)
  {
    if cr.nodes[cr.body].parent != Some(cr.root) then Err(ParentNotSet)
    else
      var scope := FunctionScope(fn.kind, cr);
      match HasArgumentsReference(fn.kind, scope, cr.nodes, cr.root)
      case Err(f) => Err(f)
      case Ok(true) => Ok(Unbounded)
      case Ok(false) =>
        if rest.Some? && rest.value !in scope then Err(TypeError)
        else if rest.Some? && IsReferenced(scope[rest.value]) then Ok(Unbounded)
        else AssertFnLength(fnLength, fn, rest.Some?)
  }

  /** For a non-arrow function with no declaration of `arguments` whose crawl linked the body:
      a use of `arguments` whose nearest enclosing function is the analysed one makes the verdict
      unbounded, and with no such use and no referenced rest parameter the verdict is the checked
      declared count. */
  lemma OwnArgumentsUseDecides(fnLength: nat, fn: FnNode, rest: Option<string>, cr: CrawlResult)
    requires cr.Valid() && fn.kind != ArrowKind && cr.nodes[cr.body].parent == Some(cr.root)
    requires forall i :: 0 <= i < |cr.declarations| ==> cr.declarations[i].name != ArgumentsName
    ensures (exists j :: 0 <= j < |cr.uses| && cr.uses[j].name == ArgumentsName &&
               EnclosingFunction(cr.nodes, cr.uses[j].node) == Some(cr.root)) ==>
      Select(fnLength, fn, rest, cr) == Ok(Unbounded)
    ensures (forall j :: 0 <= j < |cr.uses| && cr.uses[j].name == ArgumentsName ==>
               EnclosingFunction(cr.nodes, cr.uses[j].node) != Some(cr.root)) &&
            (rest.None? || (rest.value in FunctionScope(fn.kind, cr) &&
                            !IsReferenced(FunctionScope(fn.kind, cr)[rest.value]))) ==>
      Select(fnLength, fn, rest, cr) == AssertFnLength(fnLength, fn, rest.Some?)
  {
    UnshadowedArguments(fn.kind, cr);
  }

  /** What follows `parseFn`: the function check, rest detection, the arrow shortcut and `parseAndGuess`. */
  function Analyse(fnLength: nat, parsed: Result<Option<Expr>>, cr: CrawlResult): (r: Result<Verdict>)
    requires cr.Valid()
    ensures parsed.Err? ==> r == Err(parsed.error)
    ensures parsed.Ok? && !(parsed.value.Some? && parsed.value.value.Function?) ==> r == Err(NotAFunction)
    ensures forall fn :: parsed == Ok(Some(Function(fn))) && RestName(fn).Err? ==> r == Err(NotAnIdentifier)
    ensures forall fn :: parsed == Ok(Some(Function(fn))) && fn.kind == ArrowKind && RestName(fn) == Ok(None) ==>
      r == AssertFnLength(fnLength, fn, false)
    ensures forall fn :: (parsed == Ok(Some(Function(fn))) && RestName(fn).Ok? &&
                          !(fn.kind == ArrowKind && RestName(fn) == Ok(None))) ==>
      r == Select(fnLength, fn, RestName(fn).value, cr)
    ensures forall n :: r == Ok(Finite(n)) ==>
      n == fnLength && parsed.Ok? && parsed.value.Some? && parsed.value.value.Function? &&
      RestName(parsed.value.value.fn).Ok? &&
      |parsed.value.value.fn.params| - (if RestName(parsed.value.value.fn).value.Some? then 1 else 0) == fnLength
  {
    match parsed
    case Err(f) => Err(f)
    case Ok(None) => Err(NotAFunction)
    case Ok(Some(e)) =>
      if !e.Function? then Err(NotAFunction)
      else
        match RestName(e.fn)
        case Err(f) => Err(f)
        case Ok(rest) =>
          if e.fn.kind == ArrowKind && rest.None? then AssertFnLength(fnLength, e.fn, false)
          else Select(fnLength, e.fn, rest, cr)
  }

  /** `parseAndGuess`: seeds and guards the scope, replays the crawl, checks the body's parent
      link, and selects the verdict. */
  method ParseAndGuess(fnLength: nat, fn: FnNode, rest: Option<string>, cr: CrawlResult) returns (r: Result<Verdict>)
    requires cr.Valid()
    ensures r == Select(fnLength, fn, rest, cr)
  {
    var s := PredefineArgumentsBinding(fn.kind);
    if s == null {
      s := new Scope();
    }
    s.Crawl(cr.declarations, cr.uses);
    assert s.bindings == FunctionScope(fn.kind, cr);
    if cr.nodes[cr.body].parent != Some(cr.root) {
      return Err(ParentNotSet);
    }
    var has := HasArgumentsReference(fn.kind, s.bindings, cr.nodes, cr.root);
    if has.Err? {
      return Err(has.error);
    }
    if has.value {
      return Ok(Unbounded);
    }
    if rest.Some? {
      if rest.value !in s.bindings {
        return Err(TypeError);
      }
      if IsReferenced(s.bindings[rest.value]) {
        return Ok(Unbounded);
      }
    }
    r := AssertFnLength(fnLength, fn, rest.Some?);
  }

  /** `guessMaxArity`. The runtime facts are parameters: whether source text can be read at all,
      the source text `src`, whether it is the native-code marker, whether the runtime counts rest
      parameters correctly, the runtime `length`; `toks` are the tokens of `src`, `parse` the
      foreign parser and `cr` what the crawl of the parsed function finds. */
  method GuessMaxArity(canRead: bool, src: string, isNative: bool, canInferSpread: bool, fnLength: nat,
                       toks: seq<Token>, parse: (string, nat) -> Result<Expr>, cr: CrawlResult)
    returns (r: Result<Verdict>)
    requires cr.Valid()
    ensures !canRead ==> r == Ok(Unbounded)
    ensures canRead && isNative ==> r == Ok(Unbounded)
    ensures (canRead && !isNative && canInferSpread && !Contains(src, "...") && !Contains(src, "arguments")) ==>
      r == Ok(Finite(fnLength))
    ensures canRead && !isNative && !(canInferSpread && !MaybeVariadic(src)) ==>
      r == Analyse(fnLength, Parsed(src, toks, parse), cr)
    ensures forall n :: r == Ok(Finite(n)) ==> n == fnLength
  {
    if !canRead {
      return Ok(Unbounded);
    }
    if isNative {
      return Ok(Unbounded);
    }
    if canInferSpread && !MaybeVariadic(src) {
      return Ok(Finite(fnLength));
    }
    var parsed := ParseFn(src, toks, parse);
    ghost var expected := Analyse(fnLength, parsed, cr);
    if parsed.Err? {
      return Err(parsed.error);
    }
    if parsed.value.None? || !parsed.value.value.Function? {
      return Err(NotAFunction);
    }
    var fn := parsed.value.value.fn;
    assert parsed == Ok(Some(Function(fn)));
    var isArrow := fn.kind == ArrowKind;
    var restNode: Option<string> := None;
    if |fn.params| > 0 && fn.params[|fn.params| - 1].RestElement? {
      var lastParam := fn.params[|fn.params| - 1];
      if !lastParam.argument.Identifier? {
        assert RestName(fn).Err?;
        return Err(NotAnIdentifier);
      }
      restNode := Some(lastParam.argument.name);
    }
    assert RestName(fn) == Ok(restNode);
    if isArrow && restNode.None? {
      assert expected == AssertFnLength(fnLength, fn, false);
      return AssertFnLength(fnLength, fn, false);
    }
    assert expected == Select(fnLength, fn, restNode, cr);
    r := ParseAndGuess(fnLength, fn, restNode, cr);
  }
}
