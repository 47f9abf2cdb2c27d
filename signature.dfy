/** Reading a function symbol's rendered signature, such as `add(int *, int)`,
    the way the completion provider of src/extension.ts does it inline. */
module Signature {
  import opened Wrappers
  import opened JsString

  /** What the provider extracts from one signature. */
  datatype ParsedSignature = ParsedSignature(
    name: string,                  // the text before the first `(`
    argCount: nat,                 // the number of `,`-separated argument segments
    firstArgType: Option<string>,  // None: the token was `undefined` in JavaScript
    firstArgIsPointer: bool)

  /** The type read from the first argument and whether it was a pointer. */
  datatype FirstArg = FirstArg(typeName: Option<string>, isPointer: bool)

  /** After one more element, the old last one is second to last. */
  lemma SecondLastOfSnoc<T>(init: seq<T>, x: T)
    requires |init| >= 1
    ensures var xs := init + [x];
      |xs| >= 2 && xs[|xs| - 2] == init[|init| - 1]
  {
  }

  /** The last `sep`-separated piece of `s` is what follows the last separator. */
  lemma SplitLast(s: string, sep: char)
    ensures var pieces := Split(s, sep);
      pieces[|pieces| - 1] == s[LastIndexOf(s, sep) + 1..]
  {
    if sep in s {
      SplitAtLast(s, sep);
    } else {
      assert Split(s, sep) == [s];
    }
  }

  /** With a separator in `s`, the second-to-last piece lies between the last
      two separators (from the start when there is only one). */
  lemma SplitSecondLast(s: string, sep: char)
    requires sep in s
    ensures var pieces, q := Split(s, sep), LastIndexOf(s, sep);
      |pieces| >= 2 && pieces[|pieces| - 2] == s[LastIndexOf(s[..q], sep) + 1..q]
  {
    var q := LastIndexOf(s, sep);
    var u := s[..q];
    var init := Split(u, sep);
    SplitAtLast(s, sep);
    assert Split(s, sep) == init + [s[q + 1..]];
    SplitLast(u, sep);
    assert init[|init| - 1] == u[LastIndexOf(u, sep) + 1..];
    SecondLastOfSnoc(init, s[q + 1..]);
    DropOfTake(s, LastIndexOf(u, sep) + 1, q);
  }

  /** The last space-separated token is what follows the last space; there is
      a token before it exactly when there is a space, and that token lies
      between the last two spaces (from the start when there is only one). */
  lemma LastTwoTokens(arg: string)
    ensures var tokens, q := Split(arg, ' '), LastIndexOf(arg, ' ');
      tokens[|tokens| - 1] == arg[q + 1..] &&
      (|tokens| >= 2 <==> q >= 0) &&
      (q >= 0 ==> tokens[|tokens| - 2] == arg[LastIndexOf(arg[..q], ' ') + 1..q])
  {
    SplitLast(arg, ' ');
    if ' ' in arg {
      SplitSecondLast(arg, ' ');
    }
  }

  /** The first argument, split on single spaces: when its last token holds a
      `*`, the type is the token before it (absent when there is none) and the
      argument is a pointer; otherwise the type is the last token itself. */
  function ReadFirstArg(arg: string): FirstArg
  {
    var tokens := Split(arg, ' ');
    var last := tokens[|tokens| - 1];
    if '*' in last then
      FirstArg(if |tokens| >= 2 then Some(tokens[|tokens| - 2]) else None, true)
    else
      FirstArg(Some(last), false)
  }

  /** `ReadFirstArg` unfolded once, over the tokens it splits off. */
  lemma ReadFirstArgTokens(arg: string)
    ensures var r, tokens := ReadFirstArg(arg), Split(arg, ' ');
      var last := tokens[|tokens| - 1];
      (r.isPointer <==> '*' in last) &&
      (r.isPointer ==> r.typeName == if |tokens| >= 2 then Some(tokens[|tokens| - 2]) else None) &&
      (!r.isPointer ==> r.typeName == Some(last))
  {
  }

  /** `ReadFirstArg` stated through the positions of the spaces: the last
      token is what follows the last space, the one before it lies between the
      last two spaces (from the start when there is only one). */
  lemma FirstArgBySpaces(arg: string)
    ensures var r, q := ReadFirstArg(arg), LastIndexOf(arg, ' ');
      (r.isPointer <==> '*' in arg[q + 1..])
      && (!r.isPointer ==> r.typeName == Some(arg[q + 1..]))
      && (r.isPointer && q == -1 ==> r.typeName == None)
      && (r.isPointer && q >= 0 ==> r.typeName == Some(arg[LastIndexOf(arg[..q], ' ') + 1..q]))
  {
    ReadFirstArgTokens(arg);
    LastTwoTokens(arg);
  }

  /** What is written between `(` and the argument text: `&` for a pointer
      parameter, nothing otherwise. */
  function PointerPrefix(isPointer: bool): (r: string)
    ensures r == "" || r == "&"
    ensures '*' !in r
    ensures r == "&" <==> isPointer
  {
    if isPointer then "&" else ""
  }

  /** The text strictly between the first `(` and the last `)`. */
  function ArgumentText(text: string): (r: string)
    requires LastIndexOf(text, ')') > IndexOf(text, '(') + 1
    ensures |r| >= 1
  {
    var open, close := IndexOf(text, '('), LastIndexOf(text, ')');
    text[open + 1..close]
  }

  /** The text before the first `sep`, all of `s` when there is none. */
  function Before(s: string, sep: char): string
  {
    if sep in s then s[..IndexOf(s, sep)] else s
  }

  /** Lines 23-37 of the provider: the signature parse. */
  function ParseSignature(text: string): (r: Option<ParsedSignature>)
    ensures r.Some? ==> r.value.argCount >= 1
  {
    var open := IndexOf(text, '(');
    var close := LastIndexOf(text, ')');
    if close <= open + 1 then None
    else
      var args := Split(text[open + 1..close], ',');
      var first := ReadFirstArg(args[0]);
      Some(ParsedSignature(Split(text, '(')[0], |args|, first.typeName, first.isPointer))
  }

  /** The parse fails exactly when the last `)` is at or before one past the
      first `(` (the -1 of a missing character included); otherwise the name
      is the text before the first `(`, there is more than one argument
      exactly when the argument text holds a `,`, and the type is read from
      the argument text up to its first `,`. */
  lemma ParseSignatureSpec(text: string)
    ensures var r := ParseSignature(text);
      (r.None? <==> LastIndexOf(text, ')') <= IndexOf(text, '(') + 1) &&
      (r.Some? ==>
        r.value.name == Before(text, '(') && '(' !in r.value.name &&
        (r.value.argCount > 1 <==> ',' in ArgumentText(text)) &&
        var first := ReadFirstArg(Before(ArgumentText(text), ','));
        r.value.firstArgType == first.typeName && r.value.firstArgIsPointer == first.isPointer)
  {
    var open := IndexOf(text, '(');
    var close := LastIndexOf(text, ')');
    if close > open + 1 {
      SplitFirst(text, '(');
      SplitFirst(text[open + 1..close], ',');
    }
  }

  /** An empty argument list, `name()`, is never parsed. */
  lemma EmptyArgumentListRejected(name: string, rest: string)
    requires '(' !in name && ')' !in rest
    ensures ParseSignature(name + "()" + rest) == None
  {
    var text := name + "()" + rest;
    assert text == name + ['('] + (")" + rest);
    IndexOfAfter(name, '(', ")" + rest);
    assert text == (name + "(") + [')'] + rest;
    LastIndexOfBefore(name + "(", ')', rest);
    ParseSignatureSpec(text);
  }

  /** A signature without any `)` is never parsed. */
  lemma MissingCloseRejected(text: string)
    requires ')' !in text
    ensures ParseSignature(text) == None
  {
    ParseSignatureSpec(text);
  }

  /** A text without `(` but with a `)` after its first character is still
      parsed (the -1 of the missing `(` makes the argument text start at 0),
      and its name is the whole text. */
  lemma MissingOpenAccepted(text: string)
    requires '(' !in text && LastIndexOf(text, ')') >= 1
    ensures ParseSignature(text).Some?
    ensures ParseSignature(text).value.name == text
  {
    ParseSignatureSpec(text);
  }

  /** Whatever receiver type is asked for, an absent first-argument type
      (a pointer argument that is a single token) never equals it. */
  lemma PointerWithoutTypeNeverMatches(arg: string, receiverType: string)
    requires '*' in arg && ' ' !in arg
    ensures ReadFirstArg(arg).isPointer
    ensures ReadFirstArg(arg).typeName != Some(receiverType)
  {
    FirstArgBySpaces(arg);
  }

  /** A one-word type followed by ` *`, as in `int *`, reads as a pointer to that type. */
  lemma PointerToTypeRead(t: string)
    requires ' ' !in t
    ensures ReadFirstArg(t + " *") == FirstArg(Some(t), true)
  {
    var first := t + " *";
    assert first == t + [' '] + "*";
    LastIndexOfBefore(t, ' ', "*");
    assert first[|t| + 1..] == "*";
    assert first[..|t|] == t;
    FirstArgBySpaces(first);
  }

  /** With the `*` attached to the type, as in `int* p`, the last token is the
      parameter's name: it is read as the type, and not as a pointer. */
  lemma AttachedStarReadsName(t: string, v: string)
    requires ' ' !in v && '*' !in v
    ensures ReadFirstArg(t + "* " + v) == FirstArg(Some(v), false)
  {
    var arg := t + "* " + v;
    assert arg == (t + "*") + [' '] + v;
    LastIndexOfBefore(t + "*", ' ', v);
    assert arg[|t| + 2..] == v;
    FirstArgBySpaces(arg);
  }
}
