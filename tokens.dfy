/** Lexer tokens: a token type paired with the source text it covers. */
module Tokens {

  /** One token as the lexer yields it, `(ttype, value)`. The type is an
      opaque tag; the lexer's tags are singletons, so comparing them by
      identity is comparing them by equality. */
  datatype Token<T> = Token(ttype: T, value: string)

  /** The texts of `xs`, concatenated in order. The classified tokens and
      the inline nodes have their own versions of this (`Values`,
      `ChildTexts`), one per record type. */
  function Texts<T>(xs: seq<Token<T>>): (text: string)
  {
    if xs == [] then "" else xs[0].value + Texts(xs[1..])
  }

  /** The type tags of `xs`, in order. */
  function Types<T>(xs: seq<Token<T>>): (types: seq<T>)
  {
    seq(|xs|, i requires 0 <= i < |xs| => xs[i].ttype)
  }

  /** No two neighbouring tokens of `xs` share a type. */
  predicate Maximal<T(==)>(xs: seq<Token<T>>)
  {
    forall i :: 0 < i < |xs| ==> xs[i - 1].ttype != xs[i].ttype
  }

  /** `s` with every run of equal neighbours reduced to one element. */
  function Dedup<T(==)>(s: seq<T>): (r: seq<T>)
  {
    if |s| <= 1 then s
    else if s[0] == s[1] then Dedup(s[1..])
    else [s[0]] + Dedup(s[1..])
  }
}
