/** The lockstep join of the input streams (`azip` of the package's async
    tools): one round takes the next value of every stream, and the join stops
    as soon as one stream has nothing left. */
module ZipJoin {
  import opened Values

  /** Some stream has no value left. */
  predicate Exhausted<T>(streams: seq<seq<T>>)
  {
    exists i :: 0 <= i < |streams| && streams[i] == []
  }

  /** The first value of every stream: one join frame. */
  function Heads<T>(streams: seq<seq<T>>): (frame: seq<T>)
    requires !Exhausted(streams)
    ensures |frame| == |streams|
  {
    seq(|streams|, i requires 0 <= i < |streams| && streams[i] != [] => streams[i][0])
  }

  /** Every stream without its first value. */
  function Tails<T>(streams: seq<seq<T>>): (rest: seq<seq<T>>)
    requires !Exhausted(streams)
    ensures |rest| == |streams|
    ensures forall i :: 0 <= i < |streams| ==> |rest[i]| == |streams[i]| - 1
  {
    seq(|streams|, i requires 0 <= i < |streams| && streams[i] != [] => streams[i][1..])
  }

  /** The join frames, in the order they are produced. With no stream at all
      the join is empty, as Python's own `zip` is. */
  function Zip<T>(streams: seq<seq<T>>): (frames: seq<seq<T>>)
    ensures forall j :: 0 <= j < |frames| ==> |frames[j]| == |streams|
    decreases if streams == [] then 0 else |streams[0]|
  {
    if streams == [] || Exhausted(streams) then []
    else [Heads(streams)] + Zip(Tails(streams))
  }

  /** The length of the shortest stream. */
  function Shortest<T>(streams: seq<seq<T>>): (n: nat)
    requires streams != []
    ensures forall i :: 0 <= i < |streams| ==> n <= |streams[i]|
    ensures exists i :: 0 <= i < |streams| && n == |streams[i]|
  {
    if |streams| == 1 then |streams[0]|
    else
      var rest := Shortest(streams[1..]);
      assert forall i :: 1 <= i < |streams| ==> streams[1..][i - 1] == streams[i];
      if |streams[0]| <= rest then |streams[0]| else rest
  }

  /** Dropping the first value of every stream shortens the shortest by one. */
  lemma ShortestTails<T>(streams: seq<seq<T>>)
    requires streams != [] && !Exhausted(streams)
    ensures Shortest(Tails(streams)) == Shortest(streams) - 1
  {
    var tails := Tails(streams);
    var k :| 0 <= k < |streams| && Shortest(streams) == |streams[k]|;
    var m :| 0 <= m < |tails| && Shortest(tails) == |tails[m]|;
    assert Shortest(tails) <= |tails[k]|;
    assert Shortest(streams) <= |streams[m]|;
  }

  /** For one or more streams, the join has exactly as many frames as the
      shortest stream has values, and frame j holds the j-th value of every
      stream in stream order. */
  lemma {:induction false} ZipLockstep<T>(streams: seq<seq<T>>)
    requires streams != []
    ensures |Zip(streams)| == Shortest(streams)
    ensures forall j, i :: 0 <= j < |Zip(streams)| && 0 <= i < |streams| ==> Zip(streams)[j][i] == streams[i][j]
    decreases |streams[0]|
  {
    if Exhausted(streams) {
      var k :| 0 <= k < |streams| && streams[k] == [];
      assert Shortest(streams) <= |streams[k]|;
    } else {
      var tails := Tails(streams);
      ZipLockstep(tails);
      ShortestTails(streams);
      var frames := Zip(streams);
      assert frames == [Heads(streams)] + Zip(tails);
      forall j, i | 0 <= j < |frames| && 0 <= i < |streams|
        ensures frames[j][i] == streams[i][j]
      {
        if j > 0 {
          assert frames[j] == Zip(tails)[j - 1];
          assert tails[i] == streams[i][1..];
        }
      }
    }
  }
}
