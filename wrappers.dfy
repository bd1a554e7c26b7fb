/** Python exceptions that the colour codec can raise, and a Result type
    for operations that either return a value or raise one of them. */
module Wrappers {

  /** The exceptions raised by the codec. All of them but IntTooLargeForFloat
      are ValueError in Python; IntTooLargeForFloat is OverflowError, which is
      not a ValueError. The constructor records which builtin raised it and
      why. */
  datatype PyError =
    | InvalidLiteral(text: string, base: nat)   // int(text, base) rejected its argument
    | SubstringNotFound(sub: string)            // str.index(sub) found no occurrence
    | NotEnoughValues(expected: nat, got: nat)  // a, b, c = xs with |xs| < 3
    | TooManyValues(expected: nat)              // a, b, c = xs with |xs| > 3
    | IntTooLargeForFloat                       // int(x) / 255.0 with x beyond the range of a float

  datatype Option<+T> = None | Some(value: T)

  datatype Result<+T> = Ok(value: T) | Err(error: PyError)
  {
    predicate IsFailure() {
      Err?
    }

    function PropagateFailure<U>(): Result<U>
      requires Err?
    {
      Err(error)
    }

    function Extract(): T
      requires Ok?
    {
      value
    }
  }

  /** Applies `f` to every element in order, as a Python `for` loop that
      appends to a list does; the first element that raises ends the loop. */
  function MapAll<A, B>(f: A -> Result<B>, xs: seq<A>): Result<seq<B>>
  {
    if xs == [] then Ok([])
    else
      var init :- MapAll(f, xs[..|xs| - 1]);
      var last :- f(xs[|xs| - 1]);
      Ok(init + [last])
  }

  /** The loop `for x in xs: out.append(f(x))` on a list that starts empty:
      it returns what MapAll specifies, so the elements of the result are the
      values of `f` in input order, and the first element that raises stops
      the loop with that exception. */
  method MapEach<A, B>(f: A -> Result<B>, xs: seq<A>) returns (result: Result<seq<B>>)
    ensures result == MapAll(f, xs)
  {
    var out: seq<B> := [];
    for i := 0 to |xs|
      invariant MapAll(f, xs[..i]) == Ok(out)
    {
      var y := f(xs[i]);
      if y.Err? {
        MapAllStop(f, xs, i);
        return Err(y.error);
      }
      MapAllExtend(f, xs, i, out);
      out := out + [y.value];
    }
    assert xs[..|xs|] == xs;
    return Ok(out);
  }

  /** One more successful element extends a successful prefix by its value. */
  lemma MapAllExtend<A, B>(f: A -> Result<B>, xs: seq<A>, i: nat, acc: seq<B>)
    requires i < |xs| && MapAll(f, xs[..i]) == Ok(acc) && f(xs[i]).Ok?
    ensures MapAll(f, xs[..i + 1]) == Ok(acc + [f(xs[i]).value])
  {
    assert xs[..i + 1][..i] == xs[..i];
  }

  /** An element that fails after a successful prefix ends the whole map
      with its error. */
  lemma MapAllStop<A, B>(f: A -> Result<B>, xs: seq<A>, i: nat)
    requires i < |xs| && MapAll(f, xs[..i]).Ok? && f(xs[i]).Err?
    ensures MapAll(f, xs) == Err(f(xs[i]).error)
  {
    assert xs[..i + 1][..i] == xs[..i];
    MapAllPrefixErr(f, xs, i + 1);
  }

  /** MapAll succeeds exactly when every element succeeds, and then it keeps
      the length and the order of its input. */
  lemma {:induction false} MapAllOk<A, B>(f: A -> Result<B>, xs: seq<A>)
    ensures MapAll(f, xs).Ok? <==> forall i :: 0 <= i < |xs| ==> f(xs[i]).Ok?
    ensures MapAll(f, xs).Ok? ==>
              |MapAll(f, xs).value| == |xs| &&
              forall i :: 0 <= i < |xs| ==> MapAll(f, xs).value[i] == f(xs[i]).value
  {
    if xs != [] {
      var init := xs[..|xs| - 1];
      MapAllOk(f, init);
      assert forall i :: 0 <= i < |init| ==> init[i] == xs[i];
    }
  }

  /** When every element succeeds with the value given for it, MapAll
      returns those values in order. */
  lemma {:induction false} MapAllOfValues<A, B>(f: A -> Result<B>, xs: seq<A>, ys: seq<B>)
    requires |ys| == |xs| && forall i :: 0 <= i < |xs| ==> f(xs[i]) == Ok(ys[i])
    ensures MapAll(f, xs) == Ok(ys)
  {
    if xs != [] {
      var n := |xs| - 1;
      MapAllOfValues(f, xs[..n], ys[..n]);
      assert ys[..n] + [ys[n]] == ys;
    }
  }

  /** When MapAll fails, it raises the error of the first element that fails. */
  lemma {:induction false} MapAllFirstError<A, B>(f: A -> Result<B>, xs: seq<A>, k: nat)
    requires k < |xs| && f(xs[k]).Err?
    requires forall i :: 0 <= i < k ==> f(xs[i]).Ok?
    ensures MapAll(f, xs) == Err(f(xs[k]).error)
  {
    if k < |xs| - 1 {
      var init := xs[..|xs| - 1];
      assert init[k] == xs[k];
      MapAllFirstError(f, init, k);
    } else {
      MapAllOk(f, xs[..k]);
      assert forall i :: 0 <= i < k ==> xs[..k][i] == xs[i];
    }
  }

  /** A failure on a prefix is the failure of the whole sequence. */
  lemma {:induction false} MapAllPrefixErr<A, B>(f: A -> Result<B>, xs: seq<A>, k: nat)
    requires k <= |xs| && MapAll(f, xs[..k]).Err?
    ensures MapAll(f, xs) == MapAll(f, xs[..k])
  {
    if k < |xs| {
      var init := xs[..|xs| - 1];
      assert init[..k] == xs[..k];
      MapAllPrefixErr(f, init, k);
    } else {
      assert xs[..k] == xs;
    }
  }
}
