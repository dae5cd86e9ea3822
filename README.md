# rst2html-highlight: the code-block adapter

A model of the syntax-highlighting adapter in `rst2html.py`, a docutils
front end that renders reStructuredText to HTML and colours `code-block`
directives with pygments. The modelled core is the part of the script that
is its own logic:

- **the token merger** (`DocutilsInterface.join`): collapses each run of
  adjacent tokens of one type into a single token whose text is the run's
  concatenated text;
- **the classifier** (`DocutilsInterface.lex` and `__iter__`): resolves a
  lexer for the block's language, falling back to the `"text"` lexer; on an
  I/O failure while lexing yields the whole code as one token with the empty
  class; otherwise merges the tokens and maps each type to its CSS class;
- **the directive** (`code_block_directive`): joins the content lines with
  newlines, builds a literal block classed `["code-block", language]`, and
  appends one inline node per classified token.

Files and modules:

- `tokens.dfy`, module `Tokens`: the `Token` datatype and the reference
  notions used in the properties: concatenated texts, the type sequence,
  maximality, removal of consecutive duplicates.
- `merge.dfy`, module `Merge`: `Merged`, a recursive run-merging function
  that serves as the specification, its properties, and `Join`, the
  accumulator loop of the source, proved equal to it.
- `highlight.dfy`, module `Highlight`: the lexer registry and its fallback,
  the lexing outcome with the I/O failure path, and the classification.
- `directive.dfy`, module `Directive`: literal-block and inline nodes, the
  newline join of the content, and the directive method.
- `examples.dfy`, module `Examples`: two worked examples.

Modelling choices:

- Pygments token types are singletons compared with `is`. They are
  modelled as an equality type `T`, so `is` becomes `==`.
- The lexer registry is a `map` from language name to lexer. A lexer is a
  function from the code string to a `LexOutcome`: either `Lexed(tokens)`
  or `IOFailure`. `IOFailure` stands for an `IOError` raised by the call
  `self.lex()` itself (the lookups and the `pygments.lex` call), which is
  what `__iter__` catches.
  `_get_ttype_class` is a total function `T -> string`.
  All three are parameters, so nothing is assumed about their contents.
- The registry must resolve the language:
  `requires language in registry || "text" in registry`. The `"text"` entry
  matters only for a language that is not registered. The source relies on
  it being there: if that second lookup also failed, the `ValueError` would
  escape the adapter.
- Empty token stream: `join` calls `tokens.next()` first. Under the
  Python 2 semantics of this script, the resulting `StopIteration` silently
  ends the generator, so `join` of no tokens yields nothing. `Join` and
  `Merged` model exactly that. Callers have no precondition to meet.
- Docutils nodes are modelled as value datatypes. The block is built by
  reassigning a local value in the loop. The source never shares the node
  before returning it, so there is no aliasing to model.

## Model

| member | source | states |
|---|---|---|
| `Merge.Join` | rst2html.py:76-87 | The accumulator loop returns exactly `Merged(tokens)`. Its output therefore loses no text, has no two adjacent tokens of one type, and has the input's type sequence with consecutive duplicates removed. Empty input gives empty output. |
| `Merge.Merged` | rst2html.py:79-87 | The merged sequence is no longer than the input. It is empty exactly when the input is empty. It starts with the input's first type. |
| `Merge.MergedLossless` | rst2html.py:79-87 | The merged texts, concatenated in order, equal the input texts, concatenated in order. |
| `Merge.MergedMaximal` | rst2html.py:82-86 | Merged runs are maximal: no two adjacent output tokens share a type. |
| `Merge.MergedTypes` | rst2html.py:80-87 | The output's type sequence is the input's with consecutive duplicates removed. |
| `Merge.MergedOfMaximal` | rst2html.py:81-87 | A sequence with no two adjacent tokens of one type is left unchanged. |
| `Merge.MergedIdempotent` | rst2html.py:76-87 | Merging twice equals merging once. |
| `Merge.MergedRun` | rst2html.py:81-83 | A non-empty run of one type becomes a single token of that type carrying the run's whole text. |
| `Merge.MergedAppend` | rst2html.py:82-86 | Where two sequences meet at a change of type, merging their concatenation equals concatenating their merges. Runs never cross a type change. |
| `Merge.MergedAbsorb` | rst2html.py:82-83 | A pending token followed by a token of its type behaves like the pending token with that text appended. This is the `lastval += value` branch. |
| `Merge.MergedEmit` | rst2html.py:84-86 | A pending token followed by a token of another type is emitted unchanged in front of the merge of the rest. This is the `yield` branch. |
| `Highlight.ResolveLexer` | rst2html.py:68-72 | The lexer used is always a registered one. It is the language's own lexer when the language is registered, and the `"text"` lexer otherwise. |
| `Highlight.Lex` | rst2html.py:66-73 | Lexing applies the language's lexer to the code when the language is registered, and the `"text"` lexer otherwise. |
| `Highlight.Classify` | rst2html.py:100-101 | There is one classified token per merged token, in order. Each has the class of its token's type and that token's text. The classified texts, concatenated, equal the merged texts, concatenated. |
| `Highlight.Classified` | rst2html.py:89-101 | If lexing fails with an I/O error, the output is exactly one token: the empty class and the unchanged code. Otherwise the output has the length of `Merged(tokens)`. Each entry is the class of the corresponding merged type paired with its text. It is no longer than the lexer's stream and loses none of its text. |
| `Highlight.ClassifiedFallback` | rst2html.py:66-73 | A language with no registered lexer is classified exactly as `"text"` is. |
| `Highlight.ClassifiedCoversCode` | rst2html.py:92-101 | If the resolved lexer keeps the text, the classified texts reassemble the code exactly. This holds on both the degraded path and the lexed path. |
| `Directive.CodeBlockDirective` | rst2html.py:104-116 | The directive returns one literal block. Its classes are exactly `["code-block", arguments[0]]`. It has one inline child per classified token of the newline-joined content, in order. Each child has that token's text as raw source and text, and `[cls]` as its classes. If the lexer keeps the text, the children's texts reassemble the joined content. |
| `Directive.BlockCoversCode` | rst2html.py:110-116 | Children built one per classified token reassemble the code whenever the resolved lexer keeps the text. |
| `Directive.JoinLines` | rst2html.py:113 | When no content line holds a newline of its own, the joined code holds exactly one newline fewer than there are lines, and none for no lines. |
| `Directive.SplitJoinLines` | rst2html.py:113 | Joining one or more newline-free lines with `"\n"` and splitting the result at newlines gives the lines back. So the join loses no line boundary. |
| `Examples.MergeDefExample` | rst2html.py:76-87 | `[(Keyword,"def"), (Keyword," "), (Name,"f")]` merges to `[(Keyword,"def "), (Name,"f")]`. |
| `Examples.UnknownLanguageExample` | rst2html.py:66-73 | With only a plain-text lexer registered, code in an unknown language is classified as one plain-text token. |

## Left out

- Locale setup and the bare `except` around it (rst2html.py:29-33): an environment side effect with no result.
- The guarded imports of docutils and pygments (rst2html.py:35-44): foreign libraries. Their lexers, registry and `_get_ttype_class` table appear only as parameters.
- The real pygments lexers and the contents of the token-type-to-class table: external tokenizers and tables. The model is stated for every lexer and every class map. Text preservation by the lexer is a hypothesis (`KeepsText`) wherever a property needs it.
- Laziness: `join` and `__iter__` are generators. The model computes their whole output as a sequence. The produced elements and their order are the same.
- `IOFailure`: models only an `IOError` raised by `self.lex()` itself (rst2html.py:69, 72-73). The token stream is read later, at rst2html.py:100, outside the `try`. An `IOError` raised while it is read is not caught: it escapes after part of the output has been yielded. That path is not modelled. The model treats lexing as one all-or-nothing outcome.
- An exception other than `IOError` raised by `self.lex()` propagates out of the adapter. It is not modelled. This includes a `ValueError` from a registry that has neither the language nor `"text"`. Resolving the language is a precondition instead.
- The directive's unused parameters (`name`, `options`, `lineno`, `content_offset`, `block_text`, `state`, `state_machine`) are not modelled. Neither is argument validation, which docutils performs before the call.
- Directive registration and its `arguments`/`content` specification (rst2html.py:120-122): mutation of docutils' global directive table.
- `publish_cmdline` and the command-line description (rst2html.py:126-127): I/O and rendering owned by docutils.
- The `print` of an INFO message on the degraded path (rst2html.py:95): console output. Only the yielded value is modelled.
