/** The grammar-context classifier (`guessFnCtx`, `guessFnCtxInAsync`). */
module Context {
  import opened Wrappers
  import opened Tokens

  /** How the text must be parsed: as a function expression, or as a method shorthand. */
  datatype Ctx = Expression | Method

  /** A classification outcome (`None` is the source's `null`) and how many tokens it pulled. */
  datatype Step = Step(ctx: Result<Option<Ctx>>, used: nat)

  predicate IsAsync(t: Token) {
    t.ty.tag == Name && t.value == Some("async")
  }

  /** The shapes `[`, `*`, `(` that make `async` the name or modifier of a method. */
  predicate OpensMethodAfterAsync(t: Token) {
    t.ty.tag == BracketL || t.ty.tag == Star || t.ty.tag == ParenL
  }

  /** The decision table after `async`, starting at token `pos`. */
  function ClassifyAsync(toks: seq<Token>, pos: nat): (s: Step)
    ensures 1 <= s.used <= 2
    ensures s.ctx != Ok(None)
    ensures var t0, t1 := TokenAt(toks, pos), TokenAt(toks, pos + 1);
      s.ctx == Ok(Some(Method)) <==>
        !Rejected(t0.ty) &&
        (OpensMethodAfterAsync(t0) || (t0.ty.tag == Name && !Rejected(t1.ty) && t1.ty.tag == ParenL))
    ensures var t0 := TokenAt(toks, pos);
      s.ctx == Ok(Some(Expression)) <==> !Rejected(t0.ty) && t0.ty.tag == FunctionKw
    ensures s.used == 2 <==> !Rejected(TokenAt(toks, pos).ty) && TokenAt(toks, pos).ty.tag == Name
  {
    var first := Screen(TokenAt(toks, pos));
    if first.Err? then Step(Err(first.error), 1)
    else
      match first.value.ty.tag
      case BracketL => Step(Ok(Some(Method)), 1)
      case Star => Step(Ok(Some(Method)), 1)
      case ParenL => Step(Ok(Some(Method)), 1)
      case FunctionKw => Step(Ok(Some(Expression)), 1)
      case Name =>
        var second := Screen(TokenAt(toks, pos + 1));
        if second.Err? then Step(Err(second.error), 2)
        else if second.value.ty.tag == ParenL then Step(Ok(Some(Method)), 2)
        else Step(Err(UnexpectedToken), 2)
      case _ => Step(Err(UnexpectedToken), 1)
  }

  /** The leading-token decision table, starting at token `pos`. */
  function Classify(toks: seq<Token>, pos: nat): (s: Step)
    ensures 1 <= s.used <= 3
    ensures var t0 := TokenAt(toks, pos);
      s.ctx == Ok(None) <==>
        !Rejected(t0.ty) &&
        t0.ty.tag !in {ParenL, FunctionKw, BracketL, Star, Name}
    ensures var t0 := TokenAt(toks, pos);
      !Rejected(t0.ty) && (t0.ty.tag == ParenL || t0.ty.tag == FunctionKw) ==>
        s == Step(Ok(Some(Expression)), 1)
    ensures var t0 := TokenAt(toks, pos);
      !Rejected(t0.ty) && !IsAsync(t0) && t0.ty.tag in {BracketL, Star, Name} ==>
        s == Step(Ok(Some(Method)), 1)
    ensures var t0 := TokenAt(toks, pos);
      !Rejected(t0.ty) && IsAsync(t0) ==>
        s == Step(ClassifyAsync(toks, pos + 1).ctx, ClassifyAsync(toks, pos + 1).used + 1)
    ensures Rejected(TokenAt(toks, pos).ty) ==> s == Step(Err(RejectedToken), 1)
  {
    var first := Screen(TokenAt(toks, pos));
    if first.Err? then Step(Err(first.error), 1)
    else if IsAsync(first.value) then
      var s := ClassifyAsync(toks, pos + 1);
      Step(s.ctx, s.used + 1)
    else
      match first.value.ty.tag
      case ParenL => Step(Ok(Some(Expression)), 1)
      case FunctionKw => Step(Ok(Some(Expression)), 1)
      case BracketL => Step(Ok(Some(Method)), 1)
      case Name => Step(Ok(Some(Method)), 1)
      case Star => Step(Ok(Some(Method)), 1)
      case _ => Step(Ok(None), 1)
  }

  /** The classifier decides from the tokens it pulls and from no others:
      two token sequences that agree on the pulled window classify alike. */
  lemma {:induction false} ClassifyReadsOnlyWindow(toks: seq<Token>, other: seq<Token>, pos: nat)
    requires forall i :: pos <= i < pos + Classify(toks, pos).used ==> TokenAt(toks, i) == TokenAt(other, i)
    ensures Classify(other, pos) == Classify(toks, pos)
  {
    assert TokenAt(toks, pos) == TokenAt(other, pos);
    var t0 := TokenAt(toks, pos);
    if !Rejected(t0.ty) && IsAsync(t0) {
      assert TokenAt(toks, pos + 1) == TokenAt(other, pos + 1);
      var t1 := TokenAt(toks, pos + 1);
      if !Rejected(t1.ty) && t1.ty.tag == Name {
        assert TokenAt(toks, pos + 2) == TokenAt(other, pos + 2);
      }
    }
  }

  /** `guessFnCtxInAsync`: pulls one or two tokens after `async` and decides by `ClassifyAsync`. */
  method GuessFnCtxInAsync(t: Tokenizer) returns (r: Result<Option<Ctx>>)
    modifies t
    ensures r == ClassifyAsync(t.toks, old(t.pos)).ctx
    ensures t.pos == old(t.pos) + ClassifyAsync(t.toks, old(t.pos)).used
  {
    var tok := t.GetToken();
    if tok.Err? {
      return Err(tok.error);
    }
    match tok.value.ty.tag
    case BracketL => r := Ok(Some(Method));
    case Star => r := Ok(Some(Method));
    case ParenL => r := Ok(Some(Method));
    case FunctionKw => r := Ok(Some(Expression));
    case Name =>
      var next := t.GetToken();
      if next.Err? {
        return Err(next.error);
      }
      if next.value.ty.tag == ParenL {
        return Ok(Some(Method));
      }
      r := Err(UnexpectedToken);
    case _ => r := Err(UnexpectedToken);
  }

  /** `guessFnCtx`: pulls the first token and decides by `Classify`, delegating after `async`. */
  method GuessFnCtx(t: Tokenizer) returns (r: Result<Option<Ctx>>)
    modifies t
    ensures r == Classify(t.toks, old(t.pos)).ctx
    ensures t.pos == old(t.pos) + Classify(t.toks, old(t.pos)).used
  {
    var tok := t.GetToken();
    if tok.Err? {
      return Err(tok.error);
    }
    if tok.value.ty.tag == Name && tok.value.value == Some("async") {
      r := GuessFnCtxInAsync(t);
      return;
    }
    match tok.value.ty.tag
    case ParenL => r := Ok(Some(Expression));
    case FunctionKw => r := Ok(Some(Expression));
    case BracketL => r := Ok(Some(Method));
    case Name => r := Ok(Some(Method));
    case Star => r := Ok(Some(Method));
    case _ => r := Ok(None);
  }
}
