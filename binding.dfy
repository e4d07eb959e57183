/** How a node binds names: the constructor picks its declared input and
    output names out of the keyword arguments, and each join frame becomes the
    keyword arguments of the wrapped transformation. */
module Binding {
  import opened Values


  /** The position of the first occurrence of `n` in `names`. */
  function FirstIndex(names: seq<string>, n: string): (i: nat)
    requires n in names
    ensures i < |names| && names[i] == n
    ensures forall j :: 0 <= j < i ==> names[j] != n
  {
    if names[0] == n then 0 else 1 + FirstIndex(names[1..], n)
  }

  /** A name's first occurrence does not move when a name is appended. */
  lemma {:induction false} FirstIndexAppend(names: seq<string>, last: string, n: string)
    requires n in names
    ensures FirstIndex(names + [last], n) == FirstIndex(names, n)
  {
    if names[0] != n {
      assert (names + [last])[1..] == names[1..] + [last];
      FirstIndexAppend(names[1..], last, n);
    }
  }

  /** Each name once, in order of first occurrence: the key order of a Python
      dict built by a comprehension over `names`. */
  function Dedup(names: seq<string>): (keys: seq<string>)
    ensures Distinct(keys)
    ensures forall n :: n in keys <==> n in names
    ensures Distinct(names) ==> keys == names
  {
    if names == [] then []
    else
      var init := names[..|names| - 1];
      var last := names[|names| - 1];
      assert names == init + [last];
      var keys := Dedup(init);
      if last in keys then keys else keys + [last]
  }

  /** The keys of `Dedup` are the declared names, as a set. */
  lemma DedupNames(names: seq<string>)
    ensures (set k | k in Dedup(names)) == (set k | k in names)
  {
  }

  /** The keys of `Dedup` keep the order in which the names first occur. */
  lemma {:induction false} DedupFirstOccurrence(names: seq<string>)
    ensures forall i, j :: 0 <= i < j < |Dedup(names)| ==>
      FirstIndex(names, Dedup(names)[i]) < FirstIndex(names, Dedup(names)[j])
    decreases |names|
  {
    if names != [] {
      var init := names[..|names| - 1];
      var last := names[|names| - 1];
      assert names == init + [last];
      var keys := Dedup(init);
      DedupFirstOccurrence(init);
      DedupStepOrdered(init, last, keys);
      assert Dedup(names) == if last in keys then keys else keys + [last];
    }
  }

  /** One step of `Dedup`: keys ordered by first occurrence in `init` stay
      ordered in `init + [last]`, and so does a new name put at their end. */
  lemma DedupStepOrdered(init: seq<string>, last: string, keys: seq<string>)
    requires forall n :: n in keys <==> n in init
    requires forall i, j :: 0 <= i < j < |keys| ==> FirstIndex(init, keys[i]) < FirstIndex(init, keys[j])
    ensures forall i, j :: 0 <= i < j < |keys| ==>
      FirstIndex(init + [last], keys[i]) < FirstIndex(init + [last], keys[j])
    ensures last !in keys ==> forall i, j :: 0 <= i < j < |keys + [last]| ==>
      FirstIndex(init + [last], (keys + [last])[i]) < FirstIndex(init + [last], (keys + [last])[j])
  {
    forall n | n in init ensures FirstIndex(init + [last], n) == FirstIndex(init, n) {
      FirstIndexAppend(init, last, n);
    }
    if last !in keys {
      assert FirstIndex(init + [last], last) == |init|;
    }
  }

  /** Index i holds the first name of `names` that `kwargs` lacks. */
  predicate FirstMissing<H>(names: seq<string>, kwargs: map<string, H>, i: int)
  {
    && 0 <= i < |names|
    && names[i] !in kwargs
    && forall j :: 0 <= j < i ==> names[j] in kwargs
  }

  /** `{k: kwargs[k] for k in names}`: the comprehension raises on the first
      name, in order, that `kwargs` lacks. */
  function Select<H>(names: seq<string>, kwargs: map<string, H>): (r: Result<map<string, H>>)
    ensures r.Ok? <==> forall n :: n in names ==> n in kwargs
    ensures r.Ok? ==> r.value.Keys == (set n | n in names)
    ensures r.Ok? ==> forall n :: n in r.value ==> n in kwargs && r.value[n] == kwargs[n]
    ensures r.Err? ==> exists i :: FirstMissing(names, kwargs, i) && r.error == AttributeError(names[i])
  {
    if names == [] then Ok(map[])
    else if names[0] !in kwargs then
      assert FirstMissing(names, kwargs, 0);
      Err(AttributeError(names[0]))
    else
      match Select(names[1..], kwargs)
      case Err(e) =>
        ghost var i :| FirstMissing(names[1..], kwargs, i) && e == AttributeError(names[1..][i]);
        assert FirstMissing(names, kwargs, i + 1);
        Err(e)
      case Ok(rest) =>
        assert forall n :: n in names <==> n == names[0] || n in names[1..];
        Ok(rest[names[0] := kwargs[names[0]]])
  }

  /** The node's two dicts of queues. */
  datatype Bindings<H> = Bindings(inputs: map<string, H>, outputs: map<string, H>)

  /** The constructor's name selection: the inputs first, then the outputs.
      It fails with `AttributeError` naming the first missing name, inputs
      before outputs, and succeeds exactly when every declared name is given. */
  function Configure<H>(inputNames: seq<string>, outputNames: seq<string>, kwargs: map<string, H>): (r: Result<Bindings<H>>)
    ensures r.Ok? <==> forall n :: n in inputNames + outputNames ==> n in kwargs
    ensures r.Ok? ==> r.value.inputs.Keys == (set n | n in inputNames)
    ensures r.Ok? ==> forall n :: n in r.value.inputs ==> n in kwargs && r.value.inputs[n] == kwargs[n]
    ensures r.Ok? ==> r.value.outputs.Keys == (set n | n in outputNames)
    ensures r.Ok? ==> forall n :: n in r.value.outputs ==> n in kwargs && r.value.outputs[n] == kwargs[n]
    ensures r.Err? ==> exists i :: FirstMissing(inputNames + outputNames, kwargs, i) && r.error == AttributeError((inputNames + outputNames)[i])
  {
    var all := inputNames + outputNames;
    assert forall n :: n in all <==> n in inputNames || n in outputNames;
    match Select(inputNames, kwargs)
    case Err(e) =>
      ghost var i :| FirstMissing(inputNames, kwargs, i) && e == AttributeError(inputNames[i]);
      assert all[i] == inputNames[i];
      assert FirstMissing(all, kwargs, i);
      Err(e)
    case Ok(ins) =>
      match Select(outputNames, kwargs)
      case Err(e) =>
        ghost var i :| FirstMissing(outputNames, kwargs, i) && e == AttributeError(outputNames[i]);
        assert all[|inputNames| + i] == outputNames[i];
        assert forall j :: 0 <= j < |inputNames| ==> all[j] == inputNames[j];
        assert FirstMissing(all, kwargs, |inputNames| + i);
        Err(e)
      case Ok(outs) => Ok(Bindings(ins, outs))
  }

  /** `dict(zip(keys, values))`: names paired with values positionally; a later
      pair overrides an earlier one with the same name. */
  function ArgsOf<V>(keys: seq<string>, values: seq<V>): (args: map<string, V>)
    ensures forall k :: k in args <==> exists i :: 0 <= i < |keys| && i < |values| && keys[i] == k
    ensures forall k :: k in args ==> exists i :: 0 <= i < |keys| && i < |values| && keys[i] == k && args[k] == values[i]
  {
    if keys == [] || values == [] then map[]
    else
      var rest := ArgsOf(keys[1..], values[1..]);
      ArgsOfCons(keys, values, rest);
      map[keys[0] := values[0]] + rest
  }

  /** One step of `ArgsOf`: the pairs of the tail, with the first pair
      underneath them (a later name overrides an earlier one, as in `dict`). */
  lemma ArgsOfCons<V>(keys: seq<string>, values: seq<V>, rest: map<string, V>)
    requires keys != [] && values != []
    requires forall k :: k in rest <==> exists i :: 0 <= i < |keys| - 1 && i < |values| - 1 && keys[1..][i] == k
    requires forall k :: k in rest ==> exists i :: 0 <= i < |keys| - 1 && i < |values| - 1 && keys[1..][i] == k && rest[k] == values[1..][i]
    ensures var args := map[keys[0] := values[0]] + rest;
      && (forall k :: k in args <==> exists i :: 0 <= i < |keys| && i < |values| && keys[i] == k)
      && (forall k :: k in args ==> exists i :: 0 <= i < |keys| && i < |values| && keys[i] == k && args[k] == values[i])
  {
    var args := map[keys[0] := values[0]] + rest;
    forall k | k in args
      ensures exists i :: 0 <= i < |keys| && i < |values| && keys[i] == k && args[k] == values[i]
    {
      if k in rest {
        var i :| 0 <= i < |keys| - 1 && i < |values| - 1 && keys[1..][i] == k && rest[k] == values[1..][i];
        assert keys[i + 1] == k && args[k] == values[i + 1];
      } else {
        assert keys[0] == k && args[k] == values[0];
      }
    }
    forall k | exists i :: 0 <= i < |keys| && i < |values| && keys[i] == k
      ensures k in args
    {
      var i :| 0 <= i < |keys| && i < |values| && keys[i] == k;
      if i > 0 {
        assert keys[1..][i - 1] == k;
      }
    }
  }

  /** With distinct names and one value per name, the keyword arguments bind
      exactly the names, the i-th name to the i-th value. */
  lemma {:induction false} ArgsOfPairs<V>(keys: seq<string>, values: seq<V>)
    requires Distinct(keys)
    requires |values| == |keys|
    ensures ArgsOf(keys, values).Keys == (set k | k in keys)
    ensures forall i :: 0 <= i < |keys| ==> ArgsOf(keys, values)[keys[i]] == values[i]
  {
    if keys != [] {
      ArgsOfPairs(keys[1..], values[1..]);
      var args := ArgsOf(keys, values);
      assert forall k :: k in keys <==> k == keys[0] || k in keys[1..];
      forall i | 0 <= i < |keys|
        ensures args[keys[i]] == values[i]
      {
        if i > 0 {
          assert keys[1..][i - 1] == keys[i];
        }
      }
    }
  }
}
