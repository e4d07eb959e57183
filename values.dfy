/** Values, exceptions and outcomes shared by every part of the node model. */
module Values {

  /** An application value as a node handles it. The only thing the node itself
      asks of a value is whether Python's `zip` can iterate it: `Atom` stands for
      a value that cannot be iterated, `Iterable` for one that can, given by its
      elements in iteration order (a tuple, a list, ...). */
  datatype Value<A> = Atom(atom: A) | Iterable(elements: seq<Value<A>>)

  /** The exceptions that can leave a node. */
  datatype Error =
    | AttributeError(key: string)  // a declared input or output name is missing from the keyword arguments
    | NotIterable                  // TypeError raised by `zip` on a multi-output result that cannot be iterated
    | MissingOutQueue              // TypeError: `_with_out` called without its required `out_queue` argument
    | Raised(reason: string)       // whatever the wrapped transformation raises

  /** A value, or the exception raised instead of producing it. */
  datatype Result<T> = Ok(value: T) | Err(error: Error)

  /** How an operation without a return value ended. */
  datatype Outcome = Done | Failed(error: Error)

  /** No element occurs twice. */
  predicate Distinct<T(==)>(s: seq<T>)
  {
    forall i, j :: 0 <= i < j < |s| ==> s[i] != s[j]
  }

  function Min(a: int, b: int): int
  {
    if a <= b then a else b
  }

  /** The lists of `ss` joined end to end, in order. */
  function Flatten<T>(ss: seq<seq<T>>): seq<T>
    decreases |ss|
  {
    if ss == [] then [] else Flatten(ss[..|ss| - 1]) + ss[|ss| - 1]
  }

  /** Joining one-element lists gives their elements, one per list, in order. */
  lemma {:induction false} FlattenSingletons<T>(ss: seq<seq<T>>)
    requires forall j :: 0 <= j < |ss| ==> |ss[j]| == 1
    ensures |Flatten(ss)| == |ss|
    ensures forall j :: 0 <= j < |ss| ==> Flatten(ss)[j] == ss[j][0]
    decreases |ss|
  {
    if ss != [] {
      var n := |ss| - 1;
      var init := ss[..n];
      assert forall j :: 0 <= j < |init| ==> init[j] == ss[j];
      FlattenSingletons(init);
    }
  }
}
