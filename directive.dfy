/** The `code-block` directive: a literal block classed with "code-block"
    and the language, holding one inline node per classified token. */
module Directive {
  import opened Highlight

  /** An inline node: its raw source, its text and its classes. */
  datatype Inline = Inline(rawsource: string, text: string, classes: seq<string>)

  /** A literal block: its classes and its inline children, in order. */
  datatype LiteralBlock = LiteralBlock(classes: seq<string>, children: seq<Inline>)

  /** The texts of `children`, concatenated in order. */
  function ChildTexts(children: seq<Inline>): (text: string)
  {
    if children == [] then "" else children[0].text + ChildTexts(children[1..])
  }

  /** The number of newline characters in `s`. */
  function Newlines(s: string): (n: nat)
  {
    if s == [] then 0 else (if s[0] == '\n' then 1 else 0) + Newlines(s[1..])
  }

  lemma {:induction false} NewlinesAppend(a: string, b: string)
    ensures Newlines(a + b) == Newlines(a) + Newlines(b)
  {
    if a != [] {
      assert (a + b)[1..] == a[1..] + b;
      NewlinesAppend(a[1..], b);
    } else {
      assert a + b == b;
    }
  }

  lemma {:induction false} NewlinesNone(s: string)
    ensures '\n' !in s ==> Newlines(s) == 0
  {
    if s != [] {
      NewlinesNone(s[1..]);
    }
  }

  /** The lines joined with a newline between neighbours: when no line holds
      a newline of its own, the result holds exactly one fewer newline than
      there are lines. */
  function JoinLines(lines: seq<string>): (text: string)
    ensures (forall i :: 0 <= i < |lines| ==> '\n' !in lines[i]) ==>
      Newlines(text) == if lines == [] then 0 else |lines| - 1
  {
    if |lines| == 0 then ""
    else if |lines| == 1 then
      NewlinesNone(lines[0]);
      lines[0]
    else
      var rest := JoinLines(lines[1..]);
      NewlinesNone(lines[0]);
      NewlinesAppend(lines[0], "\n");
      NewlinesAppend(lines[0] + "\n", rest);
      lines[0] + "\n" + rest
  }

  /** The string cut at every newline, as splitting on "\n" does: always at
      least one piece, and one more piece than there are newlines. */
  function SplitLines(s: string): (lines: seq<string>)
    ensures |lines| >= 1
  {
    if s == [] then [""]
    else
      var rest := SplitLines(s[1..]);
      if s[0] == '\n' then [""] + rest
      else [[s[0]] + rest[0]] + rest[1..]
  }

  lemma {:induction false} SplitLineAlone(l: string)
    requires '\n' !in l
    ensures SplitLines(l) == [l]
  {
    if l != [] {
      SplitLineAlone(l[1..]);
      assert [l[0]] + l[1..] == l;
    }
  }

  lemma {:induction false} SplitLineThen(l: string, r: string)
    requires '\n' !in l
    ensures SplitLines(l + "\n" + r) == [l] + SplitLines(r)
  {
    var s := l + "\n" + r;
    if l == [] {
      assert s == "\n" + r;
      assert s[1..] == r;
    } else {
      assert s[1..] == l[1..] + "\n" + r;
      SplitLineThen(l[1..], r);
      assert [l[0]] + l[1..] == l;
    }
  }

  /** Splitting the joined content at newlines gives back the lines, when
      there is at least one and none contains a newline. */
  lemma {:induction false} SplitJoinLines(lines: seq<string>)
    requires |lines| >= 1
    requires forall i :: 0 <= i < |lines| ==> '\n' !in lines[i]
    ensures SplitLines(JoinLines(lines)) == lines
  {
    if |lines| == 1 {
      SplitLineAlone(lines[0]);
    } else {
      SplitJoinLines(lines[1..]);
      SplitLineThen(lines[0], JoinLines(lines[1..]));
      assert lines == [lines[0]] + lines[1..];
    }
  }

  lemma {:induction false} ChildTextsOf(children: seq<Inline>, tokens: seq<ClassifiedToken>)
    requires |children| == |tokens|
    requires forall i :: 0 <= i < |children| ==> children[i].text == tokens[i].value
    ensures ChildTexts(children) == Values(tokens)
  {
    if children != [] {
      ChildTextsOf(children[1..], tokens[1..]);
    }
  }

  /** The children built from the classified tokens reassemble the code,
      provided the resolved lexer keeps the text. */
  lemma BlockCoversCode<T>(children: seq<Inline>, iface: DocutilsInterface,
                           registry: Registry<T>, ttypeClass: T -> string)
    requires iface.language in registry || "text" in registry
    requires var tokens := Classified(iface, registry, ttypeClass);
      |children| == |tokens| &&
      forall i :: 0 <= i < |tokens| ==> children[i] == Inline(tokens[i].value, tokens[i].value, [tokens[i].cls])
    ensures KeepsText(ResolveLexer(registry, iface.language), iface.code) ==> ChildTexts(children) == iface.code
  {
    ChildTextsOf(children, Classified(iface, registry, ttypeClass));
    if KeepsText(ResolveLexer(registry, iface.language), iface.code) {
      ClassifiedCoversCode(iface, registry, ttypeClass);
    }
  }

  /** The directive: the language is the first argument, the code is the
      content lines joined with newlines, and the block gets one inline
      child per classified token, in order, carrying that token's text and
      class. */
  method CodeBlockDirective<T(==)>(arguments: seq<string>, content: seq<string>,
                                   registry: Registry<T>, ttypeClass: T -> string)
    returns (result: seq<LiteralBlock>)
    requires |arguments| >= 1
    requires arguments[0] in registry || "text" in registry
    ensures |result| == 1
    ensures result[0].classes == ["code-block", arguments[0]]
    ensures var tokens := Classified(DocutilsInterface(JoinLines(content), arguments[0]), registry, ttypeClass);
      |result[0].children| == |tokens| &&
      forall i :: 0 <= i < |tokens| ==>
        result[0].children[i] == Inline(tokens[i].value, tokens[i].value, [tokens[i].cls])
    ensures KeepsText(ResolveLexer(registry, arguments[0]), JoinLines(content)) ==>
      ChildTexts(result[0].children) == JoinLines(content)
  {
    var language := arguments[0];
    var codeBlock := LiteralBlock(["code-block", language], []);
    var iface := DocutilsInterface(JoinLines(content), language);
    var tokens := Classified(iface, registry, ttypeClass);
    for i := 0 to |tokens|
      invariant codeBlock.classes == ["code-block", language]
      invariant |codeBlock.children| == i
      invariant forall k :: 0 <= k < i ==>
        codeBlock.children[k] == Inline(tokens[k].value, tokens[k].value, [tokens[k].cls])
    {
      var cls, value := tokens[i].cls, tokens[i].value;
      codeBlock := codeBlock.(children := codeBlock.children + [Inline(value, value, [cls])]);
    }
    result := [codeBlock];
    BlockCoversCode(codeBlock.children, iface, registry, ttypeClass);
  }
}
