/** Tokens and the screening tokenizer (`tokenize`/`getToken`). */
module Tokens {
  import opened Wrappers

  /** The token types the classifier tells apart; every other type is `OtherTag`. */
  datatype Tag = ParenL | BracketL | Star | FunctionKw | Name | Eof | OtherTag

  /** A token type: its tag and the four flags the screen looks at. */
  datatype TokenType = TokenType(tag: Tag, isLoop: bool, isAssign: bool, prefix: bool, postfix: bool)

  /** A token: its type and, for names, the identifier text. */
  datatype Token = Token(ty: TokenType, value: Option<string>)

  const EofToken: Token := Token(TokenType(Eof, false, false, false, false), None)

  /** Loop keywords, assignments and prefix/postfix operators cannot start a bare definition. */
  predicate Rejected(ty: TokenType) {
    ty.isLoop || ty.isAssign || ty.prefix || ty.postfix
  }

  /** The token under cursor `i`; past the end the underlying tokenizer keeps yielding end-of-input. */
  function TokenAt(toks: seq<Token>, i: nat): (t: Token)
    ensures i < |toks| ==> t == toks[i]
    ensures i >= |toks| ==> t.ty.tag == Eof && !Rejected(t.ty)
  {
    if i < |toks| then toks[i] else EofToken
  }

  /** The screen applied to each pulled token. */
  function Screen(t: Token): (r: Result<Token>)
    ensures r.Err? <==> t.ty.isLoop || t.ty.isAssign || t.ty.prefix || t.ty.postfix
    ensures r.Err? ==> r.error == RejectedToken
    ensures r.Ok? ==> r.value == t
  {
    if Rejected(t.ty) then Err(RejectedToken) else Ok(t)
  }

  /** A tokenizer over a fixed token sequence with a cursor. */
  class Tokenizer {
    const toks: seq<Token>
    var pos: nat

    constructor (toks: seq<Token>)
      ensures this.toks == toks && pos == 0
    {
      this.toks := toks;
      pos := 0;
    }

    /** Pulls one token: the cursor always moves by one, and the screened token is returned. */
    method GetToken() returns (r: Result<Token>)
      modifies this
      ensures pos == old(pos) + 1
      ensures r == Screen(TokenAt(toks, old(pos)))
    {
      var t := TokenAt(toks, pos);
      pos := pos + 1;
      if Rejected(t.ty) {
        return Err(RejectedToken);
      }
      return Ok(t);
    }
  }
}
