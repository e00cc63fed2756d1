/** Option and Result stand for Python's `None` and for the exceptions the
    modelled code raises (or crashes with). */
module Outcomes {

  datatype Option<+T> = None | Some(value: T)

  /** The failures of the modelled code, each carrying the offending input. */
  datatype Error =
    | MalformedTag(tag: string)              // SemanticVersion.make: ValueError
    | InvalidBumpIndex(index: Option<int>)   // SemanticVersion.next: ValueError
    | MalformedRefLine(refLine: string)      // CommitTag.make: IndexError (no space in the line)
    | MalformedLogEntry(entry: string)       // CommitMessage.make: header did not match (match is None)
    | NoBaselineTag(commitId: string)        // GitRunner: ValueError, no tagged ancestor

  datatype Result<+T> = Ok(value: T) | Err(error: Error) {

    predicate IsFailure() {
      Err?
    }

    function PropagateFailure<U>(): Result<U>
      requires Err?
    {
      Err(error)
    }

    function Extract(): T
      requires Ok?
    {
      value
    }
  }

  /** The last element of a non-empty sequence (Python's `s[-1]`). */
  function Last<T>(s: seq<T>): T
    requires |s| >= 1
  {
    s[|s| - 1]
  }

  /** Applying `f` to each element in turn, stopping at the first failure. */
  function MapAll<X, T>(f: X -> Result<T>, xs: seq<X>): Result<seq<T>>
    decreases |xs|
  {
    if xs == [] then Ok([])
    else
      var init :- MapAll(f, xs[..|xs| - 1]);
      var y :- f(xs[|xs| - 1]);
      Ok(init + [y])
  }

  /** `MapAll` succeeds exactly when every element does, with one result per
      element in order; otherwise it fails with the error of the first
      element that fails. */
  lemma {:induction false} MapAllSpec<X, T>(f: X -> Result<T>, xs: seq<X>)
    ensures MapAll(f, xs).Ok? <==> forall k :: 0 <= k < |xs| ==> f(xs[k]).Ok?
    ensures MapAll(f, xs).Ok? ==>
              |MapAll(f, xs).value| == |xs| &&
              forall k :: 0 <= k < |xs| ==> MapAll(f, xs).value[k] == f(xs[k]).value
    ensures MapAll(f, xs).Err? ==>
              exists k :: 0 <= k < |xs| && f(xs[k]).Err? &&
                MapAll(f, xs).error == f(xs[k]).error &&
                forall j :: 0 <= j < k ==> f(xs[j]).Ok?
    decreases |xs|
  {
    if xs != [] {
      var n := |xs| - 1;
      var init := xs[..n];
      MapAllSpec(f, init);
      assert forall k :: 0 <= k < n ==> init[k] == xs[k];
      var r := MapAll(f, init);
      if r.Err? {
        var k :| 0 <= k < n && f(init[k]).Err? && r.error == f(init[k]).error &&
                 forall j :: 0 <= j < k ==> f(init[j]).Ok?;
        assert f(xs[k]).Err?;
      }
    }
  }

  /** When every element succeeds, `MapAll` collects exactly their results. */
  lemma MapAllOk<X, T>(f: X -> Result<T>, xs: seq<X>, ys: seq<T>)
    requires |xs| == |ys| && forall k :: 0 <= k < |xs| ==> f(xs[k]) == Ok(ys[k])
    ensures MapAll(f, xs) == Ok(ys)
  {
    MapAllSpec(f, xs);
    assert MapAll(f, xs).value == ys;
  }

  /** When the elements before `i` succeed and element `i` fails, `MapAll`
      fails with element `i`'s error. */
  lemma MapAllFirstFailure<X, T>(f: X -> Result<T>, xs: seq<X>, i: nat)
    requires i < |xs| && f(xs[i]).Err?
    requires forall k :: 0 <= k < i ==> f(xs[k]).Ok?
    ensures MapAll(f, xs) == Err(f(xs[i]).error)
  {
    MapAllSpec(f, xs);
    var r := MapAll(f, xs);
    var k :| 0 <= k < |xs| && f(xs[k]).Err? && r.error == f(xs[k]).error &&
             forall j :: 0 <= j < k ==> f(xs[j]).Ok?;
    assert k == i;
  }

  /** Once a prefix fails, so does the whole sequence, with the same error. */
  lemma MapAllFailedPrefix<X, T>(f: X -> Result<T>, xs: seq<X>, i: nat)
    requires i <= |xs| && MapAll(f, xs[..i]).Err?
    ensures MapAll(f, xs) == MapAll(f, xs[..i])
  {
    var pre := xs[..i];
    MapAllSpec(f, pre);
    var k :| 0 <= k < |pre| && f(pre[k]).Err? && MapAll(f, pre).error == f(pre[k]).error &&
             forall j :: 0 <= j < k ==> f(pre[j]).Ok?;
    assert forall j :: 0 <= j <= k ==> pre[j] == xs[j];
    MapAllFirstFailure(f, xs, k);
  }

  /** Applying `f` to each element in turn and concatenating the results,
      stopping at the first failure. */
  function FlatMapAll<X, T>(f: X -> Result<seq<T>>, xs: seq<X>): Result<seq<T>>
    decreases |xs|
  {
    if xs == [] then Ok([])
    else
      var init :- FlatMapAll(f, xs[..|xs| - 1]);
      var ys :- f(xs[|xs| - 1]);
      Ok(init + ys)
  }

  /** Once a prefix fails, so does the whole sequence, with the same error. */
  lemma {:induction false} FlatMapAllFailedPrefix<X, T>(f: X -> Result<seq<T>>, xs: seq<X>, i: nat)
    requires i <= |xs| && FlatMapAll(f, xs[..i]).Err?
    ensures FlatMapAll(f, xs) == FlatMapAll(f, xs[..i])
    decreases |xs|
  {
    if i < |xs| {
      var init := xs[..|xs| - 1];
      assert init[..i] == xs[..i];
      FlatMapAllFailedPrefix(f, init, i);
    } else {
      assert xs[..i] == xs;
    }
  }

  /** One more element of a successful prefix: its failure ends the run,
      its success appends its values. */
  lemma FlatMapAllStep<X, T>(f: X -> Result<seq<T>>, xs: seq<X>, i: nat, acc: seq<T>)
    requires i < |xs| && FlatMapAll(f, xs[..i]) == Ok(acc)
    ensures f(xs[i]).Err? ==> FlatMapAll(f, xs[..i + 1]) == Err(f(xs[i]).error)
    ensures f(xs[i]).Ok? ==> FlatMapAll(f, xs[..i + 1]) == Ok(acc + f(xs[i]).value)
  {
    assert xs[..i + 1][..i] == xs[..i];
  }

  /** Every element succeeding, the result is the concatenation in order. */
  lemma {:induction false} FlatMapAllOk<X, T>(f: X -> Result<seq<T>>, xs: seq<X>)
    requires forall k :: 0 <= k < |xs| ==> f(xs[k]).Ok?
    ensures FlatMapAll(f, xs).Ok?
    ensures |xs| > 0 ==>
              FlatMapAll(f, xs).value == FlatMapAll(f, xs[..|xs| - 1]).value + f(xs[|xs| - 1]).value
    decreases |xs|
  {
    if xs != [] {
      var init := xs[..|xs| - 1];
      assert forall k :: 0 <= k < |init| ==> init[k] == xs[k];
      FlatMapAllOk(f, init);
    }
  }

  /** Every element that maps to `Ok` of itself alone leaves the sequence as it is. */
  lemma {:induction false} FlatMapAllIdentity<X>(f: X -> Result<seq<X>>, xs: seq<X>)
    requires forall k :: 0 <= k < |xs| ==> f(xs[k]) == Ok([xs[k]])
    ensures FlatMapAll(f, xs) == Ok(xs)
    decreases |xs|
  {
    if xs != [] {
      var init := xs[..|xs| - 1];
      assert forall k :: 0 <= k < |init| ==> init[k] == xs[k];
      FlatMapAllIdentity(f, init);
      assert init + [xs[|xs| - 1]] == xs;
    }
  }

  /** The concatenation of `f` applied to each element in order. */
  function FlatMap<X, T>(f: X -> seq<T>, xs: seq<X>): seq<T>
    decreases |xs|
  {
    if xs == [] then [] else FlatMap(f, xs[..|xs| - 1]) + f(xs[|xs| - 1])
  }

  /** One more element of a prefix adds its image at the end. */
  lemma FlatMapStep<X, T>(f: X -> seq<T>, xs: seq<X>, i: nat)
    requires i < |xs|
    ensures FlatMap(f, xs[..i + 1]) == FlatMap(f, xs[..i]) + f(xs[i])
  {
    assert xs[..i + 1][..i] == xs[..i];
  }

  /** `FlatMap` distributes over concatenation. */
  lemma {:induction false} FlatMapAppend<X, T>(f: X -> seq<T>, a: seq<X>, b: seq<X>)
    ensures FlatMap(f, a + b) == FlatMap(f, a) + FlatMap(f, b)
    decreases |b|
  {
    if b == [] {
      assert a + b == a;
    } else {
      var b' := b[..|b| - 1];
      FlatMapAppend(f, a, b');
      assert (a + b)[..|a + b| - 1] == a + b';
      assert (a + b)[|a + b| - 1] == b[|b| - 1];
    }
  }

  /** Every element giving at least one result, none is lost. */
  lemma {:induction false} FlatMapCovers<X, T>(f: X -> seq<T>, xs: seq<X>)
    requires forall k :: 0 <= k < |xs| ==> |f(xs[k])| >= 1
    ensures |FlatMap(f, xs)| >= |xs|
    decreases |xs|
  {
    if xs != [] {
      var init := xs[..|xs| - 1];
      assert forall k :: 0 <= k < |init| ==> init[k] == xs[k];
      FlatMapCovers(f, init);
    }
  }

  /** Every element mapping to itself alone leaves the sequence as it is. */
  lemma {:induction false} FlatMapIdentity<X>(f: X -> seq<X>, xs: seq<X>)
    requires forall k :: 0 <= k < |xs| ==> f(xs[k]) == [xs[k]]
    ensures FlatMap(f, xs) == xs
    decreases |xs|
  {
    if xs != [] {
      var init := xs[..|xs| - 1];
      assert forall k :: 0 <= k < |init| ==> init[k] == xs[k];
      FlatMapIdentity(f, init);
      assert init + [xs[|xs| - 1]] == xs;
    }
  }
}
