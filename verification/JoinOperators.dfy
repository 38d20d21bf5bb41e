/**
The bridge and the build operator as the source has them: objects with fields that are updated
in place.  Each method is proved against the function that the protocol's step relation uses for it.
*/
module JoinOperators {
  import opened Wrappers
  import opened JoinProtocol
  import JoinSafety

  /** What a poll returns: the result, or a promise to wait on. */
  datatype Answer = Ready(v: Published) | Wait(promise: nat)

  class JoinBridge {
    var data: Option<Published>
    var promises: seq<nat>
    var issued: nat
    var cancelled: bool

    constructor ()
      ensures Abs() == Bridge(None, [], 0) && !cancelled
    {
      data, promises, issued, cancelled := None, [], 0, false;
    }

    function Abs(): Bridge
      reads this
    {
      Bridge(data, promises, issued)
    }

    /** `setData`, up to the point where the lock is released: throws when data is already there,
        otherwise hands out the promises that `notify` has to fulfil. */
    method SetData(v: Published) returns (r: Result<seq<nat>>)
      modifies this
      ensures cancelled == old(cancelled)
      ensures if old(data).Some? then r.Thrown? && Abs() == old(Abs())
              else r == Ok(BridgePublish(old(Abs()), v).1) && Abs() == BridgePublish(old(Abs()), v).0
    {
      if data.Some? {
        return Thrown;
      }
      data := Some(v);
      var taken := promises;
      promises := [];
      return Ok(taken);
    }

    /** `setHashTable`: checks its argument, not its state, so it overwrites. */
    method SetHashTable(table: Option<Published>) returns (r: Result<seq<nat>>)
      modifies this
      ensures cancelled == old(cancelled)
      ensures if table.None? then r.Thrown? && Abs() == old(Abs())
              else r == Ok(BridgePublish(old(Abs()), table.value).1) && Abs() == BridgePublish(old(Abs()), table.value).0
    {
      if table.None? {
        return Thrown;
      }
      data := table;
      var taken := promises;
      promises := [];
      return Ok(taken);
    }

    /** `hasDataOrFuture` / `hashBuildResultOrFuture`. */
    method DataOrFuture() returns (r: Result<Answer>)
      modifies this
      ensures cancelled == old(cancelled)
      ensures old(cancelled) ==> r.Thrown? && Abs() == old(Abs())
      ensures !old(cancelled) ==>
                var (b, answer) := BridgePoll(old(Abs()));
                Abs() == b && r == Ok(if answer.Some? then Ready(answer.value) else Wait(old(issued)))
    {
      if cancelled {
        return Thrown;
      }
      if data.Some? {
        return Ok(Ready(data.value));
      }
      promises := promises + [issued];
      issued := issued + 1;
      return Ok(Wait(issued - 1));
    }
  }

  /** The buffers of the peers, the last of them first. */
  function LastToFirst(buffers: seq<seq<Batch>>): seq<Batch> {
    if buffers == [] then [] else buffers[|buffers| - 1] + LastToFirst(buffers[..|buffers| - 1])
  }

  class JoinBuild {
    var data: seq<Batch>
    var future: bool

    constructor ()
      ensures data == [] && !future
    {
      data, future := [], false;
    }

    method AddInput(input: Batch)
      modifies this`data
      ensures data == Keep(Concatenating, old(data), input)
    {
      if |input| > 0 {
        data := data + [input];
      }
    }

    /** The gathering loop: every peer's batches are inserted before what is already there. */
    method Gather(peers: seq<JoinBuild>)
      requires this !in peers
      modifies this`data
      ensures data == LastToFirst(old(seq(|peers|, i requires 0 <= i < |peers| reads peers => peers[i].data))) + old(data)
    {
      ghost var buffers := seq(|peers|, i requires 0 <= i < |peers| reads peers => peers[i].data);
      for k := 0 to |peers|
        invariant data == LastToFirst(buffers[..k]) + old(data)
      {
        assert buffers[..k + 1][..k] == buffers[..k];
        data := peers[k].data + data;
      }
      assert buffers[..|peers|] == buffers;
    }

    /** The appending loop.  The row type is taken from the first batch, so there has to be one. */
    method AppendAll() returns (r: Result<seq<Row>>)
      ensures r == if data == [] then Thrown else Ok(Flatten(data))
    {
      if data == [] {
        return Thrown;
      }
      var rows := [];
      for k := 0 to |data|
        invariant rows == Flatten(data[..k])
      {
        JoinSafety.FlattenConcat(data[..k], [data[k]]);
        assert data[..k] + [data[k]] == data[..k + 1];
        assert Flatten([data[k]]) == data[k];
        rows := rows + data[k];
      }
      assert data[..|data|] == data;
      return Ok(rows);
    }

    /** Hands out the future, if any: the driver is blocked on it afterwards. */
    method IsBlocked() returns (blocked: bool)
      modifies this`future
      ensures blocked == old(future) && !future
    {
      blocked := future;
      future := false;
    }

    method Close()
      modifies this`data
      ensures data == []
    {
      data := [];
    }
  }

  /** The buffers the machine's `Collected` speaks of are the ones the loop inserts. */
  lemma {:induction false} GatherMatchesProtocol(kind: Kind, fed: seq<seq<Batch>>, peers: seq<nat>, buffers: seq<seq<Batch>>)
    requires forall i | 0 <= i < |peers| :: peers[i] < |fed|
    requires |buffers| == |peers| && forall i | 0 <= i < |peers| :: buffers[i] == Kept(kind, fed[peers[i]])
    ensures LastToFirst(buffers) == Collected(kind, fed, peers)
    decreases |peers|
  {
    if peers != [] {
      var n := |peers| - 1;
      GatherMatchesProtocol(kind, fed, peers[..n], buffers[..n]);
    }
  }
}
