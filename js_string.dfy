/** The JavaScript string primitives the completion provider relies on:
    `indexOf` and `lastIndexOf` of one character (with their -1 sentinel),
    `includes` of one character (Dafny's `in`) and `split` on one character.
    `Join` is `Array.prototype.join`, used here only as the inverse of `Split`. */
module JsString {

  /** `s.indexOf(c)`: the first position of `c` in `s`, or -1 when `c` does not occur. */
  function IndexOf(s: string, c: char): (r: int)
    ensures -1 <= r < |s|
    ensures r == -1 <==> c !in s
    ensures 0 <= r ==> s[r] == c
  {
    if |s| == 0 then -1
    else if s[0] == c then 0
    else
      var k := IndexOf(s[1..], c);
      if k == -1 then -1 else k + 1
  }

  /** No `c` precedes the position `IndexOf` finds. */
  lemma {:induction false} IndexOfIsFirst(s: string, c: char)
    ensures forall j :: 0 <= j < IndexOf(s, c) ==> s[j] != c
    decreases |s|
  {
    if |s| > 0 && s[0] != c {
      IndexOfIsFirst(s[1..], c);
    }
  }

  /** `s.lastIndexOf(c)`: the last position of `c` in `s`, or -1 when `c` does not occur. */
  function LastIndexOf(s: string, c: char): (r: int)
    ensures -1 <= r < |s|
    ensures r == -1 <==> c !in s
    ensures 0 <= r ==> s[r] == c
  {
    if |s| == 0 then -1
    else if s[|s| - 1] == c then |s| - 1
    else
      var k := LastIndexOf(s[..|s| - 1], c);
      assert k == -1 ==> s == s[..|s| - 1] + [s[|s| - 1]];
      k
  }

  /** No `c` follows the position `LastIndexOf` finds. */
  lemma {:induction false} LastIndexOfIsLast(s: string, c: char)
    ensures forall j :: LastIndexOf(s, c) < j < |s| ==> s[j] != c
    decreases |s|
  {
    if |s| > 0 && s[|s| - 1] != c {
      LastIndexOfIsLast(s[..|s| - 1], c);
    }
  }

  /** The pieces joined back together, `sep` between neighbours. */
  function Join(pieces: seq<string>, sep: char): string
  {
    if |pieces| == 0 then ""
    else if |pieces| == 1 then pieces[0]
    else Join(pieces[..|pieces| - 1], sep) + [sep] + pieces[|pieces| - 1]
  }

  /** `s.split(sep)` for a one-character separator: the maximal runs of `s`
      that do not contain `sep`, in order; never empty (`"".split(",")` is `[""]`).
      Defined from the last separator backwards; `SplitFirst` gives the first piece. */
  function Split(s: string, sep: char): (pieces: seq<string>)
    ensures |pieces| >= 1
    ensures forall k :: 0 <= k < |pieces| ==> sep !in pieces[k]
    ensures |pieces| > 1 <==> sep in s
    decreases |s|
  {
    var p := LastIndexOf(s, sep);
    if p == -1 then [s]
    else
      var init, last := Split(s[..p], sep), s[p + 1..];
      LastIndexOfIsLast(s, sep);
      init + [last]
  }

  /** With a separator in `s`, the pieces are those of the text before the
      last separator, then the text after it. */
  lemma SplitAtLast(s: string, sep: char)
    requires sep in s
    ensures Split(s, sep) == Split(s[..LastIndexOf(s, sep)], sep) + [s[LastIndexOf(s, sep) + 1..]]
  {
  }

  /** A prefix of a prefix is a prefix. */
  lemma TakeOfTake(s: string, k: int, p: int)
    requires 0 <= k <= p <= |s|
    ensures s[..p][..k] == s[..k]
  {
  }

  /** A slice of a prefix is a slice. */
  lemma DropOfTake(s: string, i: int, j: int)
    requires 0 <= i <= j <= |s|
    ensures s[..j][i..] == s[i..j]
  {
  }

  /** `s` is what comes before position `p`, the character there, and what follows. */
  lemma Around(s: string, p: int)
    requires 0 <= p < |s|
    ensures s == s[..p] + [s[p]] + s[p + 1..]
  {
  }

  /** The text on either side of a character put between two strings. */
  lemma Parts(a: string, c: char, b: string)
    ensures (a + [c] + b)[..|a|] == a && (a + [c] + b)[|a| + 1..] == b
  {
  }

  /** Text appended after an occurrence does not move the first one. */
  lemma {:induction false} IndexOfPrefix(u: string, rest: string, c: char)
    requires c in u
    ensures IndexOf(u + rest, c) == IndexOf(u, c)
    decreases |u|
  {
    if u[0] != c {
      assert (u + rest)[1..] == u[1..] + rest;
      assert c in u[1..] by {
        assert u == [u[0]] + u[1..];
      }
      IndexOfPrefix(u[1..], rest, c);
    } else {
      assert (u + rest)[0] == c;
    }
  }

  /** A character preceded by text free of it is the first one. */
  lemma {:induction false} IndexOfAfter(a: string, c: char, b: string)
    requires c !in a
    ensures IndexOf(a + [c] + b, c) == |a|
    decreases |a|
  {
    var s := a + [c] + b;
    if |a| == 0 {
      assert s == [c] + b;
    } else {
      assert s[0] == a[0];
      assert s[1..] == a[1..] + [c] + b;
      IndexOfAfter(a[1..], c, b);
    }
  }

  /** The first piece of a split is the text before the first separator
      (all of `s` when there is none). */
  lemma {:induction false} SplitFirst(s: string, sep: char)
    ensures Split(s, sep)[0] == if sep in s then s[..IndexOf(s, sep)] else s
    decreases |s|
  {
    var p := LastIndexOf(s, sep);
    if p != -1 {
      var u := s[..p];
      SplitAtLast(s, sep);
      SplitFirst(u, sep);
      if sep in u {
        assert s == u + s[p..];
        IndexOfPrefix(u, s[p..], sep);
        TakeOfTake(s, IndexOf(u, sep), p);
      } else {
        Around(s, p);
        IndexOfAfter(u, sep, s[p + 1..]);
      }
    }
  }

  /** A separator followed by text free of it is the last one. */
  lemma {:induction false} LastIndexOfBefore(a: string, c: char, b: string)
    requires c !in b
    ensures LastIndexOf(a + [c] + b, c) == |a|
    decreases |b|
  {
    var s := a + [c] + b;
    if |b| == 0 {
      assert s == a + [c];
    } else {
      var b' := b[..|b| - 1];
      assert s[|s| - 1] == b[|b| - 1];
      assert s[..|s| - 1] == a + [c] + b';
      assert c !in b' by {
        assert b == b' + [b[|b| - 1]];
      }
      LastIndexOfBefore(a, c, b');
    }
  }

  /** Joining one more piece puts a separator after the old text, and it is the last one. */
  lemma JoinSnoc(init: seq<string>, last: string, sep: char)
    requires |init| >= 1 && sep !in last
    ensures var s := Join(init + [last], sep);
      s == Join(init, sep) + [sep] + last && LastIndexOf(s, sep) == |Join(init, sep)|
  {
    var pieces := init + [last];
    assert pieces[..|pieces| - 1] == init;
    LastIndexOfBefore(Join(init, sep), sep, last);
  }

  /** Joining inverts splitting: the pieces, with the separators put back, are `s`. */
  lemma {:induction false} JoinSplit(s: string, sep: char)
    ensures Join(Split(s, sep), sep) == s
    decreases |s|
  {
    var p := LastIndexOf(s, sep);
    if p != -1 {
      var init := Split(s[..p], sep);
      JoinSplit(s[..p], sep);
      var pieces := init + [s[p + 1..]];
      assert pieces[..|pieces| - 1] == init;
      Around(s, p);
    }
  }

  /** Splitting inverts joining: pieces free of the separator come back unchanged. */
  lemma {:induction false} SplitJoin(pieces: seq<string>, sep: char)
    requires |pieces| >= 1
    requires forall k :: 0 <= k < |pieces| ==> sep !in pieces[k]
    ensures Split(Join(pieces, sep), sep) == pieces
  {
    if |pieces| > 1 {
      var init, last := pieces[..|pieces| - 1], pieces[|pieces| - 1];
      assert pieces == init + [last];
      assert forall k :: 0 <= k < |init| ==> sep !in init[k] by {
        forall k | 0 <= k < |init| ensures sep !in init[k] {
          assert init[k] == pieces[k];
        }
      }
      SplitJoin(init, sep);
      JoinSnoc(init, last, sep);
      Parts(Join(init, sep), sep, last);
    }
  }
}
