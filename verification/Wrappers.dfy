/** Optional values and fallible results. */
module Wrappers {

  datatype Option<+T> = None | Some(value: T)

  /** The outcome of a fallible operation; usable with `:-`. */
  datatype Result<+T, +E> = Ok(value: T) | Err(error: E) {
    predicate IsFailure() {
      Err?
    }

    function PropagateFailure<U>(): Result<U, E>
      requires Err?
    {
      Err(error)
    }

    function Extract(): T
      requires Ok?
    {
      value
    }
  }

  function Min(a: nat, b: nat): nat {
    if a <= b then a else b
  }

  /** Applies `f` to every element in order and stops at the first failure. */
  function Collect<T, U, E>(xs: seq<T>, f: T -> Result<U, E>): Result<seq<U>, E> {
    if xs == [] then Ok([])
    else
      var ys :- Collect(xs[..|xs| - 1], f);
      var y :- f(xs[|xs| - 1]);
      Ok(ys + [y])
  }

  /** A successful collection is exactly the pointwise image. */
  lemma {:induction false} CollectOk<T, U, E>(xs: seq<T>, f: T -> Result<U, E>, ys: seq<U>)
    ensures Collect(xs, f) == Ok(ys) <==>
            |ys| == |xs| && forall i :: 0 <= i < |xs| ==> f(xs[i]) == Ok(ys[i])
  {
    if xs == [] {
    } else {
      var n := |xs| - 1;
      if |ys| == |xs| {
        CollectOk(xs[..n], f, ys[..n]);
        assert ys == ys[..n] + [ys[n]];
      }
      match Collect(xs[..n], f)
      case Err(_) =>
      case Ok(zs) =>
        CollectOk(xs[..n], f, zs);
    }
  }

  /** A failed collection reports the failure of the first element that fails. */
  lemma {:induction false} CollectErr<T, U, E>(xs: seq<T>, f: T -> Result<U, E>)
    requires Collect(xs, f).Err?
    ensures exists i :: 0 <= i < |xs| && f(xs[i]) == Err(Collect(xs, f).error) &&
                        forall j :: 0 <= j < i ==> f(xs[j]).Ok?
  {
    var n := |xs| - 1;
    match Collect(xs[..n], f)
    case Err(_) =>
      CollectErr(xs[..n], f);
      var i :| 0 <= i < n && f(xs[..n][i]) == Err(Collect(xs, f).error) &&
               forall j :: 0 <= j < i ==> f(xs[..n][j]).Ok?;
      assert f(xs[i]) == Err(Collect(xs, f).error);
    case Ok(zs) =>
      CollectOk(xs[..n], f, zs);
  }

  /** `f` fails on element `i` and on none before it. */
  ghost predicate FirstFails<T, U, E>(xs: seq<T>, f: T -> Result<U, E>, i: int) {
    0 <= i < |xs| && f(xs[i]).Err? && forall k :: 0 <= k < i ==> f(xs[k]).Ok?
  }

  lemma FirstFailsOnce<T, U, E>(xs: seq<T>, f: T -> Result<U, E>, i: int, j: int)
    requires FirstFails(xs, f, i) && FirstFails(xs, f, j)
    ensures i == j
  {
  }

  /** Collecting fails exactly when some element fails, with the failure of the first one that does. */
  lemma CollectFails<T, U, E>(xs: seq<T>, f: T -> Result<U, E>, e: E)
    ensures Collect(xs, f) == Err(e) <==> exists i :: FirstFails(xs, f, i) && f(xs[i]) == Err(e)
  {
    match Collect(xs, f)
    case Ok(ys) =>
      CollectOk(xs, f, ys);
    case Err(g) =>
      CollectErr(xs, f);
      var i :| 0 <= i < |xs| && f(xs[i]) == Err(g) && forall j :: 0 <= j < i ==> f(xs[j]).Ok?;
      assert FirstFails(xs, f, i);
      forall j | FirstFails(xs, f, j)
        ensures j == i
      {
        FirstFailsOnce(xs, f, i, j);
      }
  }

  /** A failure on a prefix is the failure of the whole. */
  lemma {:induction false} CollectErrPrefix<T, U, E>(xs: seq<T>, i: nat, f: T -> Result<U, E>)
    requires i <= |xs| && Collect(xs[..i], f).Err?
    ensures Collect(xs, f) == Collect(xs[..i], f)
    decreases |xs|
  {
    if i == |xs| {
      assert xs[..i] == xs;
    } else {
      var n := |xs| - 1;
      assert xs[..n][..i] == xs[..i];
      CollectErrPrefix(xs[..n], i, f);
    }
  }

  /** One step of a loop that collects: the prefix grows by the next element. */
  lemma CollectStep<T, U, E>(xs: seq<T>, i: nat, f: T -> Result<U, E>)
    requires i < |xs| && Collect(xs[..i], f).Ok?
    ensures f(xs[i]).Ok? ==> Collect(xs[..i + 1], f) == Ok(Collect(xs[..i], f).value + [f(xs[i]).value])
    ensures f(xs[i]).Err? ==> Collect(xs, f) == Err(f(xs[i]).error)
  {
    assert xs[..i + 1][..i] == xs[..i];
    if f(xs[i]).Err? {
      CollectErrPrefix(xs, i + 1, f);
    }
  }
}
