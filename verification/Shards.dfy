/** Shard containers: they may be missing, and may or may not be able to grow a buffer. */
module ShardContainers {
  import opened Outcomes
  import opened Codecs
  import opened RecoveryShapes

  /** What all containers hold: nothing for a missing shard. */
  type Contents<E> = seq<Option<seq<E>>>

  /** One container and the buffer it owns.  A growable one allocates when initialized; the others
      keep their buffer and only flip the presence flag. */
  class Shard<E> {
    const growable: bool
    var present: bool
    var data: seq<E>

    constructor (data: seq<E>, present: bool, growable: bool)
      ensures this.data == data && this.present == present && this.growable == growable
    {
      this.data := data;
      this.present := present;
      this.growable := growable;
    }

    function Length(): ShardLength
      reads this
    {
      if present then Some(|data|) else None
    }

    function Value(): Option<seq<E>>
      reads this
    {
      if present then Some(data) else None
    }

    /** Whether a missing shard can be initialized to a length. */
    predicate Accepts(len: nat)
      reads this
    {
      growable || |data| == len
    }

    /** Makes the buffer available, initializing a missing shard, and says whether it did. */
    method GetOrInitialize(zero: E, len: nat) returns (r: Result<bool, Error>)
      modifies this
      ensures r.Err? <==> !growable && |old(data)| != len
      ensures r.Err? ==> r.error == IncorrectShardSize && present == old(present) && data == old(data)
      ensures r.Ok? ==> present && r.value == !old(present)
      ensures r.Ok? ==> data == if growable && !old(present) then seq(len, _ => zero) else old(data)
    {
      if growable {
        r := Ok(!present);
        if !present {
          data := seq(len, _ => zero);
          present := true;
        }
        return;
      }
      if |data| != len {
        return Err(IncorrectShardSize);
      }
      r := Ok(!present);
      present := true;
    }
  }

  ghost predicate Distinct<E>(shards: seq<Shard<E>>) {
    forall i, j :: 0 <= i < j < |shards| ==> shards[i] != shards[j]
  }

  ghost function Snapshot<E>(shards: seq<Shard<E>>): (v: Contents<E>)
    reads shards
    ensures |v| == |shards|
    ensures forall i {:trigger v[i]} :: 0 <= i < |v| ==> v[i] == shards[i].Value()
  {
    seq(|shards|, i requires 0 <= i < |shards| reads shards => shards[i].Value())
  }

  /** Which containers could be initialized to a length. */
  ghost function Accepting<E>(shards: seq<Shard<E>>, len: nat): (v: seq<bool>)
    reads shards
    ensures |v| == |shards|
    ensures forall i {:trigger v[i]} :: 0 <= i < |v| ==> v[i] == shards[i].Accepts(len)
  {
    seq(|shards|, i requires 0 <= i < |shards| reads shards => shards[i].Accepts(len))
  }

  ghost function LengthsOf<E>(v: Contents<E>): (lengths: seq<ShardLength>)
    ensures |lengths| == |v|
    ensures forall i {:trigger lengths[i]} :: 0 <= i < |v| ==> lengths[i] == if v[i].Some? then Some(|v[i].value|) else None
  {
    seq(|v|, i requires 0 <= i < |v| => if v[i].Some? then Some(|v[i].value|) else None)
  }

  /** Reads every length once. */
  method ReadLengths<E>(shards: seq<Shard<E>>) returns (lengths: seq<ShardLength>)
    ensures lengths == LengthsOf(Snapshot(shards))
  {
    lengths := [];
    for i := 0 to |shards|
      invariant |lengths| == i
      invariant forall j :: 0 <= j < i ==> lengths[j] == shards[j].Length()
    {
      lengths := lengths + [shards[i].Length()];
    }
  }
}
