/** A value that may be absent (JavaScript's `undefined` in the model), and
    the present values of a sequence of such values. */
module Wrappers {

  datatype Option<+T> = None | Some(value: T)

  /** The values of the present entries, in order. */
  function Present<T>(opts: seq<Option<T>>): seq<T>
  {
    if |opts| == 0 then []
    else
      Present(opts[..|opts| - 1]) +
      match opts[|opts| - 1]
      case Some(v) => [v]
      case None => []
  }

  /** The positions of the present entries, in order. */
  function PresentIndices<T>(opts: seq<Option<T>>): seq<nat>
  {
    if |opts| == 0 then []
    else PresentIndices(opts[..|opts| - 1]) + if opts[|opts| - 1].Some? then [|opts| - 1] else []
  }

  /** One more entry contributes its value, if any, at the end. */
  lemma PresentSnoc<T>(opts: seq<Option<T>>, x: Option<T>)
    ensures Present(opts + [x]) == Present(opts) + if x.Some? then [x.value] else []
  {
    assert (opts + [x])[..|opts|] == opts;
  }

  /** There are no more present values than entries. */
  lemma {:induction false} PresentShorter<T>(opts: seq<Option<T>>)
    ensures |Present(opts)| <= |opts|
  {
    if |opts| > 0 {
      PresentShorter(opts[..|opts| - 1]);
    }
  }

  /** The present positions are increasing and list exactly the present entries. */
  lemma {:induction false} PresentIndicesExact<T>(opts: seq<Option<T>>)
    ensures var idx := PresentIndices(opts);
      (forall k :: 0 <= k < |idx| ==> idx[k] < |opts|) &&
      (forall k, l :: 0 <= k < l < |idx| ==> idx[k] < idx[l]) &&
      (forall j :: 0 <= j < |opts| ==> (j in idx <==> opts[j].Some?))
  {
    if |opts| > 0 {
      var n := |opts| - 1;
      var init := opts[..n];
      PresentIndicesExact(init);
      var idx0, idx := PresentIndices(init), PresentIndices(opts);
      assert idx == idx0 + if opts[n].Some? then [n] else [];
      forall j | 0 <= j < n
        ensures opts[j] == init[j]
      {
      }
    }
  }

  /** The k-th present value is the entry at the k-th present position. */
  lemma {:induction false} PresentValuesAt<T>(opts: seq<Option<T>>)
    ensures var vals, idx := Present(opts), PresentIndices(opts);
      |idx| == |vals| &&
      (forall k :: 0 <= k < |idx| ==> idx[k] < |opts| && opts[idx[k]] == Some(vals[k]))
  {
    if |opts| > 0 {
      var n := |opts| - 1;
      var init := opts[..n];
      PresentValuesAt(init);
      var vals0, idx0 := Present(init), PresentIndices(init);
      var vals, idx := Present(opts), PresentIndices(opts);
      if opts[n].Some? {
        assert vals == vals0 + [opts[n].value] && idx == idx0 + [n];
      } else {
        assert vals == vals0 && idx == idx0;
      }
      forall k | 0 <= k < |idx0|
        ensures idx[k] == idx0[k] && vals[k] == vals0[k] && opts[idx0[k]] == init[idx0[k]]
      {
      }
    }
  }
}
