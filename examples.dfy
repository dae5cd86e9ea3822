/** Worked examples of the merger and of the language fallback. */
module Examples {
  import opened Tokens
  import opened Merge
  import opened Highlight

  datatype TokenType = Keyword | Name | Text

  /** `def` and the following blank are both keywords and merge into one
      token; the name after them keeps a token of its own. */
  lemma MergeDefExample()
    ensures Merged([Token(Keyword, "def"), Token(Keyword, " "), Token(Name, "f")])
         == [Token(Keyword, "def "), Token(Name, "f")]
  {
    var def, blank, f := Token(Keyword, "def"), Token(Keyword, " "), Token(Name, "f");
    MergedCons(f, []);
    assert Merged([f]) == [f];
    MergedCons(blank, [f]);
    assert Merged([blank, f]) == [blank, f];
    MergedCons(def, [blank, f]);
    assert "def" + " " == "def ";
  }

  /** A language with no registered lexer is lexed with the "text" lexer,
      so its classes are those of the plain-text tokens. */
  lemma UnknownLanguageExample(code: string)
    ensures
      var registry: Registry<TokenType> := map["text" := (s: string) => Lexed([Token(Text, s)])];
      Classified(DocutilsInterface(code, "nonexistent-lang-xyz"), registry, (t: TokenType) => if t == Text then "" else "k")
        == [ClassifiedToken("", code)]
  {
    var registry: Registry<TokenType> := map["text" := (s: string) => Lexed([Token(Text, s)])];
    var tokens := [Token(Text, code)];
    assert Merged(tokens) == tokens by {
      MergedCons(tokens[0], []);
      assert tokens == [tokens[0]] + [];
    }
  }
}
