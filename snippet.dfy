/** The part of the editor's snippet string the provider uses: literal text
    and auto-numbered placeholders appended one after the other. */
module Snippet {

  datatype Segment = Text(text: string) | Tabstop

  /** The literal text of a snippet, placeholders dropped. */
  function PlainText(parts: seq<Segment>): string
  {
    if |parts| == 0 then ""
    else
      PlainText(parts[..|parts| - 1]) +
      match parts[|parts| - 1]
      case Text(t) => t
      case Tabstop => ""
  }

  /** The number of placeholders in a snippet. */
  function TabstopCount(parts: seq<Segment>): nat
  {
    if |parts| == 0 then 0
    else TabstopCount(parts[..|parts| - 1]) + if parts[|parts| - 1] == Tabstop then 1 else 0
  }

  /** Appending snippets appends their texts and adds their placeholder counts. */
  lemma {:induction false} SnippetConcat(a: seq<Segment>, b: seq<Segment>)
    ensures PlainText(a + b) == PlainText(a) + PlainText(b)
    ensures TabstopCount(a + b) == TabstopCount(a) + TabstopCount(b)
    decreases |b|
  {
    if |b| == 0 {
      assert a + b == a;
    } else {
      var init := b[..|b| - 1];
      SnippetConcat(a, init);
      assert (a + b)[..|a + b| - 1] == a + init;
      assert (a + b)[|a + b| - 1] == b[|b| - 1];
    }
  }

  /** A snippet under construction; `parts` is what has been appended so far. */
  class SnippetString {
    var parts: seq<Segment>

    constructor ()
      ensures parts == []
    {
      parts := [];
    }

    /** `appendText`: one more literal segment. */
    method AppendText(t: string)
      modifies this
      ensures parts == old(parts) + [Text(t)]
    {
      parts := parts + [Text(t)];
    }

    /** `appendTabstop`: one more placeholder. */
    method AppendTabstop()
      modifies this
      ensures parts == old(parts) + [Tabstop]
    {
      parts := parts + [Tabstop];
    }
  }
}
