/** Failure-carrying results shared by every module of the model.

    The Python source signals failure by raising; the model returns an
    `Err` naming the exception class that would have been raised. */
module Base {

  /** The exception classes the modelled code can raise. */
  datatype Error =
    | ValueError          // malformed text (strptime, tuple unpacking, float())
    | IndexError          // `split(...)[1]` on a single part
    | KeyError            // `d[key]` for a missing key
    | TypeError           // indexing or iterating a value of the wrong kind
    | OverflowError       // a timestamp outside the datetime range
    | AttributeError      // `.extend` on a non-list page body
    | AssertionError      // a failed `assert`
    | HttpStatus(code: int)  // `make_request` on a non-200 status
    | DuplicateKey        // inserting a document whose `_id` is taken
    | ImmutableField      // replacing a document with a different `_id`
    | OutOfFuel           // pagination deeper than the model's bound

  datatype Result<+T> = Ok(value: T) | Err(error: Error) {
    predicate IsFailure() { Err? }

    function PropagateFailure<U>(): Result<U>
      requires Err?
    {
      Err(error)
    }

    function Extract(): T
      requires Ok?
    {
      value
    }
  }

  datatype Option<+T> = None | Some(value: T) {
    predicate IsFailure() { None? }

    function PropagateFailure<U>(): Option<U>
      requires None?
    {
      None
    }

    function Extract(): T
      requires Some?
    {
      value
    }
  }

  /** Apply `f` to each element in order, stopping at the first failure. */
  function MapResult<A, B>(f: A -> Result<B>, xs: seq<A>): (r: Result<seq<B>>)
    ensures r.Ok? <==> forall j | 0 <= j < |xs| :: f(xs[j]).Ok?
    ensures r.Ok? ==> |r.value| == |xs| && forall j | 0 <= j < |xs| :: r.value[j] == f(xs[j]).value
    ensures r.Err? ==> exists j | 0 <= j < |xs| ::
      f(xs[j]) == Err(r.error) && forall j' | 0 <= j' < j :: f(xs[j']).Ok?
  {
    if |xs| == 0 then Ok([])
    else
      var y :- f(xs[0]);
      var ys :- MapResult(f, xs[1..]);
      Ok([y] + ys)
  }

  /** Apply `f` to each element in order and concatenate the results,
      stopping at the first failure. */
  function ConcatMapResult<A, B>(f: A -> Result<seq<B>>, xs: seq<A>): (r: Result<seq<B>>)
    ensures r.Ok? <==> forall j | 0 <= j < |xs| :: f(xs[j]).Ok?
  {
    if |xs| == 0 then Ok([])
    else
      var ys :- f(xs[0]);
      var zs :- ConcatMapResult(f, xs[1..]);
      Ok(ys + zs)
  }

  /** Mapping over `a + b` concatenates the results for `a` and for `b`. */
  lemma {:induction false} ConcatMapResultAppend<A, B>(f: A -> Result<seq<B>>, a: seq<A>, b: seq<A>)
    requires ConcatMapResult(f, a).Ok? && ConcatMapResult(f, b).Ok?
    ensures ConcatMapResult(f, a + b) == Ok(ConcatMapResult(f, a).value + ConcatMapResult(f, b).value)
  {
    if |a| == 0 {
      assert a + b == b;
      assert ConcatMapResult(f, a).value == [];
      assert [] + ConcatMapResult(f, b).value == ConcatMapResult(f, b).value;
    } else {
      assert (a + b)[0] == a[0];
      assert (a + b)[1..] == a[1..] + b;
      ConcatMapResultAppend(f, a[1..], b);
      assert f(a[0]).Ok?;
      var ys := f(a[0]).value;
      assert ys + (ConcatMapResult(f, a[1..]).value + ConcatMapResult(f, b).value)
        == (ys + ConcatMapResult(f, a[1..]).value) + ConcatMapResult(f, b).value;
    }
  }

  /** Mapping succeeds with `ys` when each element maps to its partner in `ys`. */
  lemma {:induction false} MapResultAll<A, B>(f: A -> Result<B>, xs: seq<A>, ys: seq<B>)
    requires |xs| == |ys|
    requires forall j | 0 <= j < |xs| :: f(xs[j]) == Ok(ys[j])
    ensures MapResult(f, xs) == Ok(ys)
  {
    if |xs| > 0 {
      MapResultAll(f, xs[1..], ys[1..]);
      assert [ys[0]] + ys[1..] == ys;
    }
  }

  /** Mapping over one element. */
  lemma ConcatMapResultOne<A, B>(f: A -> Result<seq<B>>, x: A)
    requires f(x).Ok?
    ensures ConcatMapResult(f, [x]) == f(x)
  {
    assert [x][1..] == [];
    assert f(x).value + [] == f(x).value;
  }
}
