/** Failure values shared by the whole model.

    The modelled Go code stops in four different ways: a Redis command
    returns an error, strconv rejects a number, the runtime panics on a
    slice index, or the program calls os.Exit. Each becomes a `Fault`, so
    that every operation returns a `Result` instead of a partial value. */
module Faults {

  datatype Option<T> = None | Some(value: T)

  datatype Fault =
    | RequestFailed                              // the Redis command itself returned an error
    | NumError(num: string)                      // strconv rejected the text `num`
    | IndexOutOfRange(index: nat, length: nat)   // runtime panic on `s[index]`
    | NodeNotEmpty                               // AssertEmptyNode's own error
    | Exit(code: int)                            // os.Exit(code)

  datatype Result<T> = Ok(value: T) | Err(fault: Fault) {
    predicate IsFailure() { Err? }

    function PropagateFailure<U>(): Result<U>
      requires Err?
    {
      Err(fault)
    }

    function Extract(): T
      requires Ok?
    {
      value
    }
  }

  /** Go's `s[i]`: the element, or the panic the runtime raises. */
  function At<T>(s: seq<T>, i: nat): Result<T> {
    if i < |s| then Ok(s[i]) else Err(IndexOutOfRange(i, |s|))
  }

  /** Apply `f` to every element in order and collect the results; the
      first element `f` rejects aborts the whole traversal and no partial
      sequence is returned. This is the shape of every "for each line /
      token ... return nil, err" loop of the source. */
  function Traverse<A, B>(xs: seq<A>, f: A -> Result<B>): (r: Result<seq<B>>)
    ensures r.Ok? <==> forall i :: 0 <= i < |xs| ==> f(xs[i]).Ok?
    ensures r.Ok? ==> |r.value| == |xs| && forall i :: 0 <= i < |xs| ==> f(xs[i]) == Ok(r.value[i])
    ensures r.Err? ==> exists i :: 0 <= i < |xs| && f(xs[i]) == Err(r.fault) && forall j :: 0 <= j < i ==> f(xs[j]).Ok?
    decreases |xs|
  {
    if xs == [] then Ok([])
    else
      var init :- Traverse(xs[..|xs| - 1], f);
      var last :- f(xs[|xs| - 1]);
      Ok(init + [last])
  }

  /** The fault of a traversal is the fault of its first rejected element. */
  lemma TraverseFirstErr<A, B>(xs: seq<A>, f: A -> Result<B>, i: nat)
    requires i < |xs| && f(xs[i]).Err?
    requires forall j :: 0 <= j < i ==> f(xs[j]).Ok?
    ensures Traverse(xs, f) == Err(f(xs[i]).fault)
  {
    var r := Traverse(xs, f);
    var k :| 0 <= k < |xs| && f(xs[k]) == Err(r.fault) && forall j :: 0 <= j < k ==> f(xs[j]).Ok?;
    assert !(k < i) && !(i < k);
  }

  /** A rejected element right after an accepted prefix decides the
      traversal of the whole sequence. */
  lemma TraversePrefixErr<A, B>(xs: seq<A>, f: A -> Result<B>, i: nat, done: seq<B>)
    requires i < |xs| && Traverse(xs[..i], f) == Ok(done) && f(xs[i]).Err?
    ensures Traverse(xs, f) == Err(f(xs[i]).fault)
  {
    forall j | 0 <= j < i ensures f(xs[j]).Ok? {
      assert xs[..i][j] == xs[j];
    }
    TraverseFirstErr(xs, f, i);
  }

  /** Extending an accepted prefix by one accepted element. */
  lemma TraverseSnoc<A, B>(xs: seq<A>, f: A -> Result<B>, i: nat, done: seq<B>)
    requires i < |xs| && Traverse(xs[..i], f) == Ok(done) && f(xs[i]).Ok?
    ensures Traverse(xs[..i + 1], f) == Ok(done + [f(xs[i]).value])
  {
    assert xs[..i + 1][..i] == xs[..i];
  }
}
