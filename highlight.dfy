/** The highlighting adapter: resolve a lexer for the block's language (the
    plain-text lexer when the name is unknown), lex the code, merge the
    tokens and pair each merged text with the CSS class of its type. */
module Highlight {
  import opened Tokens
  import opened Merge

  /** What lexing gives: the token stream, or the I/O failure that the
      adapter catches and degrades on. */
  datatype LexOutcome<T> = Lexed(tokens: seq<Token<T>>) | IOFailure

  /** A lexer bound to one language, applied to a code string. */
  type Lexer<T> = string -> LexOutcome<T>

  /** The lexer registry, keyed by language name. */
  type Registry<T> = map<string, Lexer<T>>

  /** A code string together with the language it is written in. */
  datatype DocutilsInterface = DocutilsInterface(code: string, language: string)

  /** A merged token with its type replaced by a CSS class name. */
  datatype ClassifiedToken = ClassifiedToken(cls: string, value: string)

  /** The texts of `ts`, concatenated in order. */
  function Values(ts: seq<ClassifiedToken>): (text: string)
  {
    if ts == [] then "" else ts[0].value + Values(ts[1..])
  }

  /** The lexer registered for `language`, or the one registered for
      "text" when there is none. */
  function ResolveLexer<T>(registry: Registry<T>, language: string): (lexer: Lexer<T>)
    requires language in registry || "text" in registry
    ensures exists name :: name in registry && registry[name] == lexer
    ensures language in registry ==> lexer == registry[language]
    ensures language !in registry ==> lexer == registry["text"]
  {
    if language in registry then registry[language] else registry["text"]
  }

  /** Lexing the interface's code with the resolved lexer. */
  function Lex<T>(iface: DocutilsInterface, registry: Registry<T>): (outcome: LexOutcome<T>)
    requires iface.language in registry || "text" in registry
    ensures iface.language in registry ==> outcome == registry[iface.language](iface.code)
    ensures iface.language !in registry ==> outcome == registry["text"](iface.code)
  {
    ResolveLexer(registry, iface.language)(iface.code)
  }

  /** A lexer keeps the text of `code`: if it yields tokens, their texts
      concatenated are `code`. */
  predicate KeepsText<T>(lexer: Lexer<T>, code: string)
  {
    lexer(code).Lexed? ==> Texts(lexer(code).tokens) == code
  }

  /** Each merged token, in order, with its type mapped to a class. */
  function Classify<T>(ttypeClass: T -> string, merged: seq<Token<T>>): (out: seq<ClassifiedToken>)
    ensures |out| == |merged|
    ensures forall i :: 0 <= i < |out| ==>
      out[i].cls == ttypeClass(merged[i].ttype) && out[i].value == merged[i].value
    ensures Values(out) == Texts(merged)
  {
    if merged == [] then []
    else [ClassifiedToken(ttypeClass(merged[0].ttype), merged[0].value)] + Classify(ttypeClass, merged[1..])
  }

  /** The classified tokens of the interface's code. On an I/O failure while
      lexing, the whole code as one token with the empty class; otherwise
      the merged tokens, each with the class of its type. */
  function Classified<T(==)>(iface: DocutilsInterface, registry: Registry<T>, ttypeClass: T -> string)
    : (out: seq<ClassifiedToken>)
    requires iface.language in registry || "text" in registry
    ensures Lex(iface, registry).IOFailure? ==> out == [ClassifiedToken("", iface.code)]
    ensures Lex(iface, registry).Lexed? ==>
      var tokens := Lex(iface, registry).tokens;
      |out| == |Merged(tokens)| && |out| <= |tokens| && Values(out) == Texts(tokens) &&
      forall i :: 0 <= i < |out| ==>
        out[i].cls == ttypeClass(Merged(tokens)[i].ttype) && out[i].value == Merged(tokens)[i].value
  {
    match Lex(iface, registry)
    case IOFailure => [ClassifiedToken("", iface.code)]
    case Lexed(tokens) =>
      MergedLossless(tokens);
      Classify(ttypeClass, Merged(tokens))
  }

  /** An unknown language is highlighted exactly as "text" is. */
  lemma ClassifiedFallback<T>(code: string, language: string, registry: Registry<T>, ttypeClass: T -> string)
    requires "text" in registry && language !in registry
    ensures Classified(DocutilsInterface(code, language), registry, ttypeClass)
         == Classified(DocutilsInterface(code, "text"), registry, ttypeClass)
  {
  }

  /** Whichever path the adapter takes, its texts reassemble the code,
      provided the resolved lexer keeps the text. */
  lemma ClassifiedCoversCode<T>(iface: DocutilsInterface, registry: Registry<T>, ttypeClass: T -> string)
    requires iface.language in registry || "text" in registry
    requires KeepsText(ResolveLexer(registry, iface.language), iface.code)
    ensures Values(Classified(iface, registry, ttypeClass)) == iface.code
  {
    if Lex(iface, registry).IOFailure? {
      assert Values([ClassifiedToken("", iface.code)]) == iface.code + Values([]);
    }
  }
}
