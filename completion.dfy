/** The completion provider's symbol loop (src/extension.ts): for every
    function symbol whose first argument has the receiver's type, a completion
    that rewrites `receiver.` into a call `name(receiver, ...)`. The receiver's
    text, its range and its type are inputs here; finding them needs the
    editor's document and definition services. */
module Completion {
  import opened Wrappers
  import opened JsString
  import opened Signature
  import opened Snippet

  /** `vscode.SymbolKind.Function`: the only kind of symbol considered. */
  const FunctionKind := 11

  /** `vscode.SymbolKind.Variable`: a kind the filter drops. */
  const VariableKind := 12

  /** A document symbol: its kind and its name, the rendered signature. */
  datatype Symbol = Symbol(kind: int, name: string)

  datatype Position = Position(line: nat, character: nat)
  datatype Range = Range(start: Position, end: Position)
  datatype TextEdit = TextEdit(range: Range, newText: string)

  /** The kind shown for every item: `vscode.CompletionItemKind.Method`. */
  datatype ItemKind = Method

  datatype CompletionItem = CompletionItem(
    itemLabel: string,
    kind: ItemKind,
    insertText: seq<Segment>,
    additionalTextEdits: seq<TextEdit>)

  /** The insert text: `name(`, the pointer prefix and the receiver; then
      `, ` and one placeholder when there is more than one argument; then `)`. */
  function RenderInsertText(name: string, isPointer: bool, receiver: string, argCount: nat): seq<Segment>
  {
    [Text(name + "(" + PointerPrefix(isPointer) + receiver)] +
    (if argCount > 1 then [Text(", "), Tabstop] else []) +
    [Text(")")]
  }

  /** The rendered text reads `name(`, `&` for a pointer parameter, the
      receiver, `, ` when there is more than one argument, and `)`; it holds
      one placeholder, just before the closing `)`, exactly when there is
      more than one argument, and none otherwise. */
  lemma InsertTextSpec(name: string, isPointer: bool, receiver: string, argCount: nat)
    ensures var r := RenderInsertText(name, isPointer, receiver, argCount);
      PlainText(r) == name + "(" + PointerPrefix(isPointer) + receiver + (if argCount > 1 then ", " else "") + ")" &&
      TabstopCount(r) == (if argCount > 1 then 1 else 0) &&
      |r| >= 2 && r[|r| - 1] == Text(")") &&
      (argCount > 1 ==> r[|r| - 2] == Tabstop)
  {
    var head := [Text(name + "(" + PointerPrefix(isPointer) + receiver)];
    var more := if argCount > 1 then [Text(", "), Tabstop] else [];
    SnippetConcat(head + more, [Text(")")]);
    SnippetConcat(head, more);
    assert [Text(", "), Tabstop][..1] == [Text(", ")];
  }

  /** The edit that deletes the receiver and the `.` after it: from the start
      of the receiver's range to one character past its end. */
  function DeleteThroughTrigger(receiverRange: Range): TextEdit
  {
    TextEdit(Range(receiverRange.start,
                   Position(receiverRange.end.line, receiverRange.end.character + 1)), "")
  }

  /** An edit confined to one line, applied to that line's text. */
  function ApplyLineEdit(line: string, e: TextEdit): string
    requires e.range.start.line == e.range.end.line
    requires e.range.start.character <= e.range.end.character <= |line|
  {
    line[..e.range.start.character] + e.newText + line[e.range.end.character..]
  }

  /** On the line holding the receiver followed by the trigger `.`, the
      deletion removes exactly the receiver and the `.`. */
  lemma DeleteRemovesReceiverAndTrigger(line: string, receiverRange: Range, receiver: string)
    requires receiverRange.start.line == receiverRange.end.line
    requires receiverRange.start.character <= receiverRange.end.character < |line|
    requires line[receiverRange.start.character..receiverRange.end.character] == receiver
    requires line[receiverRange.end.character] == '.'
    ensures var before, after := line[..receiverRange.start.character], line[receiverRange.end.character + 1..];
      line == before + receiver + "." + after &&
      ApplyLineEdit(line, DeleteThroughTrigger(receiverRange)) == before + after
  {
    var s, e := receiverRange.start.character, receiverRange.end.character;
    assert line == line[..s] + line[s..e] + [line[e]] + line[e + 1..];
  }

  /** What one symbol contributes: a completion when it is a function whose
      signature parses and whose first-argument type is the receiver's type. */
  function Complete(sym: Symbol, receiverType: string, receiverText: string, receiverRange: Range): Option<CompletionItem>
  {
    if sym.kind != FunctionKind then None
    else
      match ParseSignature(sym.name)
      case None => None
      case Some(sig) =>
        if sig.firstArgType == Some(receiverType) then
          Some(CompletionItem(sym.name, Method,
                              RenderInsertText(sig.name, sig.firstArgIsPointer, receiverText, sig.argCount),
                              [DeleteThroughTrigger(receiverRange)]))
        else None
  }

  /** What each symbol contributes, position by position. */
  function Contributions(symbols: seq<Symbol>, receiverType: string, receiverText: string, receiverRange: Range): seq<Option<CompletionItem>>
  {
    seq(|symbols|, k requires 0 <= k < |symbols| => Complete(symbols[k], receiverType, receiverText, receiverRange))
  }

  /** A symbol contributes exactly when it is a function whose signature
      parses to a first-argument type equal to the receiver type; the item is
      labelled with the full signature and carries the one deletion edit. */
  lemma CompleteSpec(sym: Symbol, receiverType: string, receiverText: string, receiverRange: Range)
    ensures var r := Complete(sym, receiverType, receiverText, receiverRange);
      (r.Some? <==>
        sym.kind == FunctionKind && ParseSignature(sym.name).Some? &&
        ParseSignature(sym.name).value.firstArgType == Some(receiverType)) &&
      (r.Some? ==>
        r.value.itemLabel == sym.name && r.value.kind == Method &&
        r.value.additionalTextEdits == [DeleteThroughTrigger(receiverRange)])
  {
  }

  /** The completions of a symbol list, in the symbols' order. */
  function Completions(symbols: seq<Symbol>, receiverType: string, receiverText: string, receiverRange: Range): seq<CompletionItem>
  {
    Present(Contributions(symbols, receiverType, receiverText, receiverRange))
  }

  /** One more symbol appends its completion, if any. */
  lemma CompletionsSnoc(symbols: seq<Symbol>, sym: Symbol, receiverType: string, receiverText: string, receiverRange: Range)
    ensures var c := Complete(sym, receiverType, receiverText, receiverRange);
      Completions(symbols + [sym], receiverType, receiverText, receiverRange) ==
      Completions(symbols, receiverType, receiverText, receiverRange) + if c.Some? then [c.value] else []
  {
    var before := Contributions(symbols, receiverType, receiverText, receiverRange);
    var c := Complete(sym, receiverType, receiverText, receiverRange);
    assert Contributions(symbols + [sym], receiverType, receiverText, receiverRange) == before + [c];
    PresentSnoc(before, c);
  }

  /** The completions of one more symbol of a list. */
  lemma CompletionsStep(symbols: seq<Symbol>, i: nat, receiverType: string, receiverText: string, receiverRange: Range)
    requires i < |symbols|
    ensures var c := Complete(symbols[i], receiverType, receiverText, receiverRange);
      Completions(symbols[..i + 1], receiverType, receiverText, receiverRange) ==
      Completions(symbols[..i], receiverType, receiverText, receiverRange) + if c.Some? then [c.value] else []
  {
    assert symbols[..i + 1] == symbols[..i] + [symbols[i]];
    CompletionsSnoc(symbols[..i], symbols[i], receiverType, receiverText, receiverRange);
  }

  /** `symbols.filter(value => value.kind == 11)`. */
  function FunctionSymbols(symbols: seq<Symbol>): (r: seq<Symbol>)
    ensures forall k :: 0 <= k < |r| ==> r[k].kind == FunctionKind
  {
    if |symbols| == 0 then []
    else
      FunctionSymbols(symbols[..|symbols| - 1]) +
      if symbols[|symbols| - 1].kind == FunctionKind then [symbols[|symbols| - 1]] else []
  }

  /** Each symbol as an entry that is present exactly for a function. */
  function FunctionEntries(symbols: seq<Symbol>): seq<Option<Symbol>>
  {
    seq(|symbols|, k requires 0 <= k < |symbols| => if symbols[k].kind == FunctionKind then Some(symbols[k]) else None)
  }

  /** The filter keeps the function symbols, in order. */
  lemma {:induction false} FunctionSymbolsArePresent(symbols: seq<Symbol>)
    ensures FunctionSymbols(symbols) == Present(FunctionEntries(symbols))
  {
    if |symbols| > 0 {
      var n := |symbols| - 1;
      FunctionSymbolsArePresent(symbols[..n]);
      var entries := FunctionEntries(symbols);
      assert entries == FunctionEntries(symbols[..n]) + [entries[n]];
      PresentSnoc(FunctionEntries(symbols[..n]), entries[n]);
    }
  }

  /** The positions of the function symbols, in order. */
  function FunctionPositions(symbols: seq<Symbol>): seq<nat>
  {
    PresentIndices(FunctionEntries(symbols))
  }

  /** The k-th kept symbol is the symbol at the k-th function position; the
      positions increase; a position is listed exactly when its symbol has
      kind 11. The filter is the in-order subsequence of the function symbols. */
  lemma FunctionSymbolsTrace(symbols: seq<Symbol>)
    ensures var r, idx := FunctionSymbols(symbols), FunctionPositions(symbols);
      |idx| == |r| &&
      (forall k :: 0 <= k < |idx| ==> idx[k] < |symbols| && r[k] == symbols[idx[k]]) &&
      (forall k, l :: 0 <= k < l < |idx| ==> idx[k] < idx[l]) &&
      (forall j :: 0 <= j < |symbols| ==> (j in idx <==> symbols[j].kind == FunctionKind))
  {
    var entries := FunctionEntries(symbols);
    FunctionSymbolsArePresent(symbols);
    PresentValuesAt(entries);
    PresentIndicesExact(entries);
  }

  /** A symbol is kept exactly when it is in the list and has kind 11. */
  lemma FunctionSymbolsMembers(symbols: seq<Symbol>)
    ensures forall x :: x in FunctionSymbols(symbols) <==> x in symbols && x.kind == FunctionKind
  {
    var r, idx := FunctionSymbols(symbols), FunctionPositions(symbols);
    FunctionSymbolsTrace(symbols);
    forall x | x in symbols && x.kind == FunctionKind ensures x in r {
      var j :| 0 <= j < |symbols| && symbols[j] == x;
      assert j in idx;
      var k :| 0 <= k < |idx| && idx[k] == j;
      assert r[k] == x;
    }
  }

  /** Filtering to functions first changes nothing: other kinds contribute nothing. */
  lemma {:induction false} CompletionsOfFunctionsOnly(symbols: seq<Symbol>, receiverType: string, receiverText: string, receiverRange: Range)
    ensures Completions(FunctionSymbols(symbols), receiverType, receiverText, receiverRange) ==
            Completions(symbols, receiverType, receiverText, receiverRange)
  {
    if |symbols| == 0 {
      assert FunctionSymbols(symbols) == symbols;
    } else {
      var init, last := symbols[..|symbols| - 1], symbols[|symbols| - 1];
      assert symbols == init + [last];
      CompletionsOfFunctionsOnly(init, receiverType, receiverText, receiverRange);
      CompletionsSnoc(init, last, receiverType, receiverText, receiverRange);
      var fs := FunctionSymbols(init);
      if last.kind == FunctionKind {
        CompletionsSnoc(fs, last, receiverType, receiverText, receiverRange);
      } else {
        assert FunctionSymbols(symbols) == fs;
      }
    }
  }

  /** At most one completion per function symbol. */
  lemma CompletionsBound(symbols: seq<Symbol>, receiverType: string, receiverText: string, receiverRange: Range)
    ensures |Completions(symbols, receiverType, receiverText, receiverRange)| <= |FunctionSymbols(symbols)|
  {
    CompletionsOfFunctionsOnly(symbols, receiverType, receiverText, receiverRange);
    PresentShorter(Contributions(FunctionSymbols(symbols), receiverType, receiverText, receiverRange));
  }

  /** The positions of the symbols that contribute a completion, in order. */
  function EmittedIndices(symbols: seq<Symbol>, receiverType: string, receiverText: string, receiverRange: Range): seq<nat>
  {
    PresentIndices(Contributions(symbols, receiverType, receiverText, receiverRange))
  }

  /** The k-th completion comes from the k-th contributing symbol, these
      symbols appear in increasing order, and a symbol contributes exactly
      when its position is among them: the list keeps the symbols' order,
      each item labelled with its symbol's full signature. */
  lemma CompletionsTrace(symbols: seq<Symbol>, receiverType: string, receiverText: string, receiverRange: Range)
    ensures var items := Completions(symbols, receiverType, receiverText, receiverRange);
      var idx := EmittedIndices(symbols, receiverType, receiverText, receiverRange);
      |idx| == |items| &&
      (forall k :: 0 <= k < |idx| ==>
         idx[k] < |symbols| &&
         Complete(symbols[idx[k]], receiverType, receiverText, receiverRange) == Some(items[k]) &&
         items[k].itemLabel == symbols[idx[k]].name && symbols[idx[k]].kind == FunctionKind) &&
      (forall k, l :: 0 <= k < l < |idx| ==> idx[k] < idx[l]) &&
      (forall j :: 0 <= j < |symbols| ==>
         (j in idx <==> Complete(symbols[j], receiverType, receiverText, receiverRange).Some?))
  {
    var contributions := Contributions(symbols, receiverType, receiverText, receiverRange);
    PresentValuesAt(contributions);
    PresentIndicesExact(contributions);
    forall j | 0 <= j < |symbols| {
      CompleteSpec(symbols[j], receiverType, receiverText, receiverRange);
    }
  }

  /** The text an emitted completion inserts, stated from the signature text:
      the name before the first `(`, `(`, `&` when the last space-separated
      token of the first argument holds a `*`, the receiver text, `, ` when
      the argument text holds a `,`, and `)`. */
  lemma EmittedInsertText(sym: Symbol, receiverType: string, receiverText: string, receiverRange: Range)
    requires Complete(sym, receiverType, receiverText, receiverRange).Some?
    ensures var item := Complete(sym, receiverType, receiverText, receiverRange).value;
      var args := ArgumentText(sym.name);
      var first := Before(args, ',');
      var prefix := if '*' in first[LastIndexOf(first, ' ') + 1..] then "&" else "";
      PlainText(item.insertText) ==
        Before(sym.name, '(') + "(" + prefix + receiverText + (if ',' in args then ", " else "") + ")" &&
      TabstopCount(item.insertText) == (if ',' in args then 1 else 0)
  {
    var sig := ParseSignature(sym.name).value;
    var item := Complete(sym, receiverType, receiverText, receiverRange).value;
    assert item.insertText == RenderInsertText(sig.name, sig.firstArgIsPointer, receiverText, sig.argCount);
    InsertTextSpec(sig.name, sig.firstArgIsPointer, receiverText, sig.argCount);
    ParseSignatureSpec(sym.name);
    var first := Before(ArgumentText(sym.name), ',');
    FirstArgBySpaces(first);
    assert sig.firstArgIsPointer <==> '*' in first[LastIndexOf(first, ' ') + 1..];
  }

  /** Lines 42-45 of the provider: the insert text built by successive appends. */
  method BuildInsertText(name: string, isPointer: bool, receiver: string, argCount: nat)
    returns (snippet: SnippetString)
    ensures fresh(snippet)
    ensures snippet.parts == RenderInsertText(name, isPointer, receiver, argCount)
  {
    snippet := new SnippetString();
    snippet.AppendText(name + "(" + PointerPrefix(isPointer) + receiver);
    if argCount > 1 {
      snippet.AppendText(", ");
      snippet.AppendTabstop();
    }
    snippet.AppendText(")");
  }

  /** The body of the provider's loop for one function symbol: parse its
      signature, compare the first-argument type with the receiver type and
      build the completion. */
  method CompleteSymbol(sym: Symbol, receiverType: string, receiverText: string, receiverRange: Range)
    returns (c: Option<CompletionItem>)
    requires sym.kind == FunctionKind
    ensures c == Complete(sym, receiverType, receiverText, receiverRange)
  {
    var parsed := ParseSignature(sym.name);
    if parsed.None? {
      return None;
    }
    var sig := parsed.value;
    if sig.firstArgType != Some(receiverType) {
      return None;
    }
    var snippet := BuildInsertText(sig.name, sig.firstArgIsPointer, receiverText, sig.argCount);
    c := Some(CompletionItem(sym.name, Method, snippet.parts, [DeleteThroughTrigger(receiverRange)]));
  }

  /** The provider's loop: filter the function symbols, then visit each one
      in order, appending the completion it yields. */
  method BuildCompletions(symbols: seq<Symbol>, receiverType: string, receiverText: string, receiverRange: Range)
    returns (items: seq<CompletionItem>)
    ensures items == Completions(symbols, receiverType, receiverText, receiverRange)
  {
    var functions := FunctionSymbols(symbols);
    items := [];
    var i := 0;
    while i < |functions|
      invariant 0 <= i <= |functions|
      invariant items == Completions(functions[..i], receiverType, receiverText, receiverRange)
    {
      CompletionsStep(functions, i, receiverType, receiverText, receiverRange);
      var c := CompleteSymbol(functions[i], receiverType, receiverText, receiverRange);
      if c.Some? {
        items := items + [c.value];
      }
      i := i + 1;
    }
    assert functions[..|functions|] == functions;
    CompletionsOfFunctionsOnly(symbols, receiverType, receiverText, receiverRange);
  }

  /** In `name(t *, rest)` the argument text is `t *, rest` and the name is
      what precedes the `(`. */
  lemma PointerSignatureSplit(name: string, t: string, rest: string)
    requires '(' !in name
    ensures var text := name + "(" + t + " *, " + rest + ")";
      LastIndexOf(text, ')') > IndexOf(text, '(') + 1 &&
      ArgumentText(text) == t + " *, " + rest && Before(text, '(') == name
  {
    var text := name + "(" + t + " *, " + rest + ")";
    var n := |name|;
    assert text[..n] == name;
    assert text == name + ['('] + (t + " *, " + rest + ")");
    IndexOfAfter(name, '(', t + " *, " + rest + ")");
    assert text == (name + "(" + t + " *, " + rest) + [')'] + "";
    LastIndexOfBefore(name + "(" + t + " *, " + rest, ')', "");
    assert text[n + 1..|text| - 1] == t + " *, " + rest by {
      assert text == name + "(" + (t + " *, " + rest) + ")";
    }
  }

  /** The first argument of `t *, rest`, for a type `t` without `,`, is `t *`. */
  lemma PointerArgumentFirst(t: string, rest: string)
    requires ',' !in t
    ensures Before(t + " *, " + rest, ',') == t + " *"
  {
    var args := t + " *, " + rest;
    assert args == (t + " *") + [','] + (" " + rest);
    assert ',' !in t + " *";
    IndexOfAfter(t + " *", ',', " " + rest);
    assert args[..|t| + 2] == t + " *";
  }

  /** A signature such as `add(int *, int)`: a name, a one-word type `t`
      followed by ` *`, then more arguments. It parses to that name, more than
      one argument and a pointer first parameter of type `t`. */
  lemma PointerSignatureParsed(name: string, t: string, rest: string)
    requires '(' !in name
    requires ' ' !in t && ',' !in t
    ensures var r := ParseSignature(name + "(" + t + " *, " + rest + ")");
      r.Some? && r.value.name == name && r.value.argCount > 1 &&
      r.value.firstArgType == Some(t) && r.value.firstArgIsPointer
  {
    var text := name + "(" + t + " *, " + rest + ")";
    PointerSignatureSplit(name, t, rest);
    PointerArgumentFirst(t, rest);
    PointerToTypeRead(t);
    ParseSignatureSpec(text);
    assert ',' in ArgumentText(text) by {
      assert ArgumentText(text)[|t| + 2] == ',';
    }
  }

  /** A pointer first parameter among several is rendered `name(&receiver, $1)`. */
  lemma RenderPointerCall(name: string, receiver: string, argCount: nat)
    requires argCount > 1
    ensures RenderInsertText(name, true, receiver, argCount)
         == [Text(name + "(&" + receiver), Text(", "), Tabstop, Text(")")]
  {
    assert name + "(" + PointerPrefix(true) + receiver == name + "(&" + receiver;
  }

  /** Against a receiver of type `t`, the function symbol `name(t *, ...)`
      yields the insert text `name(&receiver, $1)`. */
  lemma PointerArgumentCompletion(name: string, t: string, rest: string, receiver: string, receiverRange: Range)
    requires '(' !in name
    requires ' ' !in t && ',' !in t
    ensures var text := name + "(" + t + " *, " + rest + ")";
      Complete(Symbol(FunctionKind, text), t, receiver, receiverRange)
      == Some(CompletionItem(text, Method, [Text(name + "(&" + receiver), Text(", "), Tabstop, Text(")")],
                             [DeleteThroughTrigger(receiverRange)]))
  {
    var text := name + "(" + t + " *, " + rest + ")";
    PointerSignatureParsed(name, t, rest);
    var sig := ParseSignature(text).value;
    RenderPointerCall(name, receiver, sig.argCount);
  }

  /** The same signature as a function symbol and as a symbol of another
      kind: only the function yields a completion. */
  lemma PointerArgumentScenario(name: string, t: string, rest: string, receiver: string, receiverRange: Range)
    requires '(' !in name
    requires ' ' !in t && ',' !in t
    ensures var text := name + "(" + t + " *, " + rest + ")";
      Completions([Symbol(FunctionKind, text), Symbol(VariableKind, text)], t, receiver, receiverRange)
      == [CompletionItem(text, Method, [Text(name + "(&" + receiver), Text(", "), Tabstop, Text(")")],
                         [DeleteThroughTrigger(receiverRange)])]
  {
    var text := name + "(" + t + " *, " + rest + ")";
    var sym, other := Symbol(FunctionKind, text), Symbol(VariableKind, text);
    PointerArgumentCompletion(name, t, rest, receiver, receiverRange);
    CompletionsSnoc([], sym, t, receiver, receiverRange);
    CompletionsSnoc([sym], other, t, receiver, receiverRange);
    assert [] + [sym] == [sym];
    assert [sym] + [other] == [sym, other];
  }
}
