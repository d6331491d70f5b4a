/** Parse dispatch (`parseFn`): the classification picks how the foreign parser is invoked. */
module Parsing {
  import opened Wrappers
  import opened Tokens
  import opened Context
  import opened Tree

  /** The synthetic object literal that makes a method shorthand parseable as an expression. */
  function Wrap(src: string): (w: string)
    ensures |w| == |src| + 4
    ensures w[..2] == "({" && w[2..|w| - 2] == src && w[|w| - 2..] == "})"
  {
    "({" + src + "})"
  }

  /** Reads `.properties[0].value`; any other shape is a property read on `undefined`. */
  function FirstPropertyValue(e: Expr): (r: Result<Expr>)
    ensures r.Ok? <==> e.ObjectExpression? && |e.propertyValues| > 0
    ensures r.Ok? ==> r.value == e.propertyValues[0]
    ensures r.Err? ==> r.error == TypeError
  {
    if e.ObjectExpression? && |e.propertyValues| > 0 then Ok(e.propertyValues[0]) else Err(TypeError)
  }

  /** What `parseFn` yields, given the tokens of `src` and the parser `parse(text, offset)`;
      `Ok(None)` is the source's `null`. */
  function Parsed(src: string, toks: seq<Token>, parse: (string, nat) -> Result<Expr>): (r: Result<Option<Expr>>)
    ensures Classify(toks, 0).ctx.Err? ==> r == Err(Classify(toks, 0).ctx.error)
    ensures Classify(toks, 0).ctx == Ok(None) <==> r == Ok(None)
    ensures Classify(toks, 0).ctx == Ok(Some(Expression)) ==>
      match parse(src, 0)
      case Ok(e) => r == Ok(Some(e))
      case Err(f) => r == Err(f)
    ensures Classify(toks, 0).ctx == Ok(Some(Method)) ==>
      match parse(Wrap(src), 0)
      case Ok(e) => (r.Ok? <==> FirstPropertyValue(e).Ok?) && (r.Ok? ==> r == Ok(Some(FirstPropertyValue(e).value)))
      case Err(f) => r == Err(f)
  {
    match Classify(toks, 0).ctx
    case Err(f) => Err(f)
    case Ok(None) => Ok(None)
    case Ok(Some(Expression)) =>
      (match parse(src, 0)
       case Ok(e) => Ok(Some(e))
       case Err(f) => Err(f))
    case Ok(Some(Method)) =>
      (match parse(Wrap(src), 0)
       case Err(f) => Err(f)
       case Ok(e) =>
         match FirstPropertyValue(e)
         case Ok(v) => Ok(Some(v))
         case Err(f) => Err(f))
  }

  /** `parseFn`: classifies with a fresh tokenizer over `toks`, then parses accordingly. */
  method ParseFn(src: string, toks: seq<Token>, parse: (string, nat) -> Result<Expr>) returns (r: Result<Option<Expr>>)
    ensures r == Parsed(src, toks, parse)
  {
    var t := new Tokenizer(toks);
    var ctx := GuessFnCtx(t);
    if ctx.Err? {
      return Err(ctx.error);
    }
    match ctx.value
    case Some(Expression) =>
      var e := parse(src, 0);
      if e.Err? {
        return Err(e.error);
      }
      r := Ok(Some(e.value));
    case Some(Method) =>
      var e := parse(Wrap(src), 0);
      if e.Err? {
        return Err(e.error);
      }
      var v := FirstPropertyValue(e.value);
      if v.Err? {
        return Err(v.error);
      }
      r := Ok(Some(v.value));
    case None =>
      r := Ok(None);
  }
}
