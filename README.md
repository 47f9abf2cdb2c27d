# C member-call completions

A model, in Dafny, of the completion provider of a VS Code extension for C
(`CCompletionItemProvider.provideCompletionItems` in `src/extension.ts`).
The extension offers something like method-call syntax for C. After a
receiver such as `x` and a typed `.`, it lists every function in the
document whose first parameter has the receiver's type. Picking one, such as
`add(int *, int)`, rewrites `x.` into the call `add(&x, $1)`: the receiver is
passed by address when the parameter is a pointer, and the placeholder `$1`
is there when more arguments follow.

The model covers the symbol loop at lines 20-51: the filter to function
symbols (kind 11), the signature parse built on JavaScript's
`indexOf`/`lastIndexOf`/`split`, the pointer test on the first argument, the
type comparison, the snippet, the deletion edit and the list of items. It
takes the receiver's type, its text and its range as inputs, none of which
is computed in the model. In the editor the range comes from word matching
(lines 8-12), the text from `getText` (line 41), and the type from the
definition provider (lines 13-16).

Modules:

- `Wrappers` (`wrappers.dfy`): `Option`, standing for JavaScript's
  `undefined`, and `Present`, the present values of a sequence of options,
  with their positions.
- `JsString` (`js_string.dfy`): `IndexOf` and `LastIndexOf` of one
  character, both returning -1 when it does not occur. `Split` on one
  character, never empty. `Join`, used only as the inverse of `Split`.
- `Signature` (`signature.dfy`): the parse of a rendered signature
  (lines 22-37): the name, the number of arguments, the first argument's
  type and whether that argument is a pointer.
- `Snippet` (`snippet.dfy`): the snippet string as a class whose segments
  (text and placeholders) grow by appends.
- `Completion` (`completion.dfy`): what one symbol contributes, as the
  function `Complete` and the method `CompleteSymbol`. The whole loop, as the
  function `Completions` and the method `BuildCompletions`. The edit.

The code is followed where a simpler description of it would differ:

- The only test before parsing is `close <= open + 1` (line 25). A name with
  no `(` gets -1 for it, so it passes whenever a `)` appears after its first
  character. The name is then the whole text (`MissingOpenAccepted`).
- The type is whatever token the split on single spaces yields. In `int* p`
  that token is the parameter name (`AttachedStarReadsName`). A pointer
  argument without a type token in front has an undefined type, which never
  equals the receiver type (`PointerWithoutTypeNeverMatches`).
- The only adaptation of the receiver is a `&` in front of it for a pointer
  parameter (lines 31-36). A non-pointer parameter gets the bare receiver
  text, so `f(int)` renders as `f(x)`. A `*` is never written, whether the
  receiver is itself a pointer is never inspected, and symbols are not
  gathered from included files.
- The edit deletes from the start of the receiver's range to one character
  past its end (line 47): the receiver and the `.` after it.

## Model

| member | source | states |
|---|---|---|
| JsString.IndexOf | src/extension.ts:23 | The result is -1 exactly when the character does not occur; otherwise it is a position holding that character. |
| JsString.IndexOfIsFirst | src/extension.ts:23 | No earlier position holds the character: `IndexOf` finds the first occurrence. |
| JsString.LastIndexOf | src/extension.ts:24 | The result is -1 exactly when the character does not occur; otherwise it is a position holding that character. |
| JsString.LastIndexOfIsLast | src/extension.ts:24 | No later position holds the character: `LastIndexOf` finds the last occurrence. |
| JsString.IndexOfPrefix | src/extension.ts:23 | Text appended after an occurrence does not change where `indexOf` finds it. |
| JsString.IndexOfAfter | src/extension.ts:23 | A character preceded only by text free of it is found by `indexOf` at that position. |
| JsString.LastIndexOfBefore | src/extension.ts:24 | A character followed only by text free of it is found by `lastIndexOf` at that position. |
| JsString.Split | src/extension.ts:28 | The pieces are never empty as a list and none holds the separator. There is more than one piece exactly when the text holds the separator. |
| JsString.SplitAtLast | src/extension.ts:28-30 | With a separator present, the pieces are those of the text before the last separator, followed by the text after it. |
| JsString.JoinSplit | src/extension.ts:28 | The pieces with the separators put back between them give the original text. |
| JsString.SplitJoin | src/extension.ts:28 | Pieces free of the separator, once joined, split back into exactly those pieces. |
| JsString.SplitFirst | src/extension.ts:29 | The first piece is the text before the first separator, or the whole text when there is none (`args[0]` here, `split("(")[0]` at line 43). |
| Signature.ReadFirstArg | src/extension.ts:30-37 | Reads the first argument's type and pointer flag from its space-separated tokens. Its meaning is stated by `FirstArgBySpaces`, below. |
| Signature.SplitLast | src/extension.ts:30-32 | The last piece (`list[length-1]`) is the text after the last separator, or the whole text when there is none. |
| Signature.SplitSecondLast | src/extension.ts:30-33 | With a separator present there are at least two pieces, and the second-to-last (`list[length-2]`) lies between the last two separators, or starts at the beginning when there is only one. |
| Signature.LastTwoTokens | src/extension.ts:30-33 | The last token (`list[length-1]`) is the text after the last space. A token before it (`list[length-2]`) exists exactly when there is a space, and it lies between the last two spaces. |
| Signature.FirstArgBySpaces | src/extension.ts:30-37 | The argument counts as a pointer exactly when the text after its last space holds `*`. A non-pointer's type is that last token. A pointer's type is the token between the last two spaces, or absent when there is only one token. |
| Signature.PointerPrefix | src/extension.ts:31-34 | The text after `(` is `&` exactly for a pointer argument and empty otherwise. |
| Signature.ArgumentText | src/extension.ts:28 | The substring between the first `(` and the last `)` is non-empty whenever the guard at line 25 is passed. `ParseSignatureSpec` splits it on `,`. |
| Signature.ParseSignature | src/extension.ts:23-37 | A parsed signature has at least one argument. |
| Signature.ParseSignatureSpec | src/extension.ts:23-37 | The parse fails exactly when the last `)` is at or before one past the first `(`, with -1 for a missing character. On success, the name is the text before the first `(` and holds no `(`. There are several arguments exactly when the argument text holds a `,`. The type and the pointer flag are read from the argument text up to its first `,`. |
| Signature.EmptyArgumentListRejected | src/extension.ts:23-27 | `name()` followed by text without `)` is never parsed. |
| Signature.MissingCloseRejected | src/extension.ts:24-27 | A text with no `)` is never parsed. |
| Signature.MissingOpenAccepted | src/extension.ts:23-28 | A text with no `(` and a `)` after its first character is parsed, and its name is the whole text. |
| Signature.PointerWithoutTypeNeverMatches | src/extension.ts:32-38 | A single-token pointer argument is a pointer whose type is absent, so it equals no receiver type. |
| Signature.PointerToTypeRead | src/extension.ts:30-34 | `t *` with a one-word `t` reads as a pointer to `t`. |
| Signature.AttachedStarReadsName | src/extension.ts:30-37 | In `t* v` the parameter name `v` is read as the type, and the argument is not a pointer. |
| Snippet.SnippetConcat | src/extension.ts:42-45 | Appending two snippets appends their texts and adds their placeholder counts. |
| Snippet.SnippetString.constructor | src/extension.ts:42 | A new snippet has no segments. |
| Snippet.SnippetString.AppendText | src/extension.ts:43-45 | One literal segment is added at the end and the rest is unchanged. |
| Snippet.SnippetString.AppendTabstop | src/extension.ts:44 | One placeholder is added at the end and the rest is unchanged. |
| Completion.RenderInsertText | src/extension.ts:42-45 | The segments of the insert text. Their meaning is stated by `InsertTextSpec`, and `BuildInsertText` produces them by appends. |
| Completion.InsertTextSpec | src/extension.ts:43-45 | The text reads `name(`, then `&` for a pointer, then the receiver, then `, ` when there are several arguments, then `)`. It holds one placeholder, just before the final `)`, when there are several arguments, and none otherwise. |
| Completion.BuildInsertText | src/extension.ts:42-45 | The successive appends produce a fresh snippet whose segments are the rendering `InsertTextSpec` describes. |
| Completion.DeleteThroughTrigger | src/extension.ts:47 | The deletion edit, from the receiver's start to one character past its end. Its effect on the line is stated by `DeleteRemovesReceiverAndTrigger`. |
| Completion.DeleteRemovesReceiverAndTrigger | src/extension.ts:46-47 | On the receiver's line, the edit removes exactly the receiver and the `.` that follows it, and keeps the text around them. |
| Completion.Complete | src/extension.ts:22-49 | What one symbol contributes. Its meaning is stated by `CompleteSpec` and `EmittedInsertText`, and `CompleteSymbol` computes it. |
| Completion.CompleteSpec | src/extension.ts:21-40 | A symbol yields an item exactly when it is a function whose signature parses to a first-argument type equal to the receiver type. The item is labelled with the full signature, has kind Method and carries the one deletion edit. |
| Completion.EmittedInsertText | src/extension.ts:22-45 | A yielded item's text is the name before the first `(`, then `(`, then `&` when the first argument's last token holds `*`, then the receiver, then `, ` when the argument text holds a `,`, then `)`. It has a placeholder exactly in that last case. |
| Completion.CompleteSymbol | src/extension.ts:22-49 | The loop body for one function symbol returns what `Complete` specifies. |
| Completion.CompletionsSnoc | src/extension.ts:48 | One more symbol appends its item, if any, at the end of the list. |
| Completion.CompletionsStep | src/extension.ts:21-48 | Visiting the next symbol of a list appends its item, if any. |
| Completion.Completions | src/extension.ts:21-48 | The items the loop pushes, in order. Their meaning is stated by `CompletionsTrace`, and `BuildCompletions` computes them. |
| Completion.FunctionSymbols | src/extension.ts:21 | Every symbol kept by the filter has kind 11. That it keeps all of them, in order, is `FunctionSymbolsTrace`. |
| Completion.FunctionSymbolsArePresent | src/extension.ts:21 | The filter's result is the list of kind-11 symbols, in order, with nothing else in it. |
| Completion.FunctionSymbolsTrace | src/extension.ts:21 | The k-th kept symbol is the symbol at the k-th kind-11 position, and these positions increase. A position is listed exactly when its symbol has kind 11. The result is the in-order subsequence of the function symbols. |
| Completion.FunctionSymbolsMembers | src/extension.ts:21 | A symbol is kept exactly when it is in the list and has kind 11. |
| Completion.CompletionsOfFunctionsOnly | src/extension.ts:21 | Filtering to function symbols before the loop changes nothing: other kinds never contribute. |
| Completion.CompletionsBound | src/extension.ts:21-48 | There are at most as many items as function symbols. |
| Completion.CompletionsTrace | src/extension.ts:21-48 | The k-th item comes from the k-th contributing symbol and carries its name as label. Contributing symbols are functions and appear in increasing order. A symbol's position is listed exactly when it contributes. |
| Completion.BuildCompletions | src/extension.ts:20-51 | The loop over the filtered symbols returns exactly `Completions`, the items of the contributing symbols in their order. |
| Completion.PointerSignatureSplit | src/extension.ts:23-28 | For `name(t *, rest)`, the argument text is `t *, rest` and the name is the text before `(`. |
| Completion.PointerArgumentFirst | src/extension.ts:28-29 | The first argument of `t *, rest` is `t *`. |
| Completion.PointerSignatureParsed | src/extension.ts:23-37 | `name(t *, rest)` parses to that name, several arguments and a pointer first argument of type `t`. |
| Completion.RenderPointerCall | src/extension.ts:43-45 | A pointer first argument among several renders as `name(&receiver`, `, `, a placeholder, `)`. |
| Completion.PointerArgumentCompletion | src/extension.ts:21-48 | Against a receiver of type `t`, the function `name(t *, rest)` yields exactly the item with text `name(&receiver, $1)`. |
| Completion.PointerArgumentScenario | src/extension.ts:21-48 | Of the same signature as a function symbol and as a symbol of another kind, only the function yields an item. |

## Left out

- The receiver span and its type (lines 8-17). The regular expressions, the
  offset arithmetic and the call to the definition provider become the
  inputs `receiverType`, `receiverText` and `receiverRange`.
- The calls to the editor's definition and document-symbol providers, their
  promises, and the `console.log` output (lines 13-18). The symbol list is
  an input sequence.
- `activate` and `deactivate` (lines 61-70): registering the provider for C
  with `.` as a trigger character is editor plumbing.
- Symbols are modelled by their kind and name only. Nested `DocumentSymbol`
  children are not visited; the source does not visit them either.
- An undefined `word_range` (lines 11-12, 41 and 47) is not modelled: the
  range is an input and always present.
- Snippet escaping of `$`, `}` and `\` in the appended text, and the number
  the editor gives each placeholder, are left out. A placeholder is a single
  `Tabstop` segment.
- `CompletionItem` fields other than label, kind, insert text and edits, and
  the `CompletionList` object beyond its items, are left out.
- Strings are sequences of Unicode code points, while JavaScript indexes
  UTF-16 code units, so `IndexOf` and `LastIndexOf` differ from `indexOf`
  and `lastIndexOf` after a character outside the Basic Multilingual Plane.
  No result changes: those indices are used only in the `close <= open + 1`
  comparison and in `substring`, and `(`, `)`, `,`, ` ` and `*` are ASCII.
- Positions are unbounded naturals, so the `character + 1` at line 47 never
  wraps.
