/** Coding into a selection of output shards, reached through one forward-only iterator. */
module SelectedOutputs {
  import opened Fields
  import opened Vectors
  import opened Indices
  import opened Coding

  /** The unvisited tail of an owner list; every owner is handed out at most once. */
  class OwnerIterator<T> {
    const owners: seq<T>
    var position: nat

    ghost predicate Valid()
      reads this
    {
      position <= |owners|
    }

    constructor (owners: seq<T>)
      ensures Valid() && this.owners == owners && position == 0
    {
      this.owners := owners;
      position := 0;
    }

    /** Skips `n` owners and hands out the next one. */
    method Nth(n: nat) returns (owner: T)
      requires Valid() && position + n < |owners|
      modifies `position
      ensures Valid() && position == old(position) + n + 1 && owner == owners[old(position) + n]
    {
      owner := owners[position + n];
      position := position + n + 1;
    }
  }

  /** Sorted, distinct targets inside the owner list. */
  ghost predicate Selectable(indices: seq<nat>, offset: nat, owners: nat) {
    Ascending(indices) && forall i :: 0 <= i < |indices| ==> offset <= indices[i] < offset + owners
  }

  /** The selected owners in target order; the walk never runs out of owners. */
  method Select<T>(owners: seq<T>, indices: seq<nat>, offset: nat) returns (selected: seq<T>)
    requires Selectable(indices, offset, |owners|)
    ensures |selected| == |indices| && forall i :: 0 <= i < |indices| ==> selected[i] == owners[indices[i] - offset]
  {
    var remaining := new OwnerIterator(owners);
    var next := 0;
    selected := [];
    for i := 0 to |indices|
      invariant fresh(remaining) && remaining.Valid() && remaining.owners == owners && remaining.position == next
      invariant i > 0 ==> next == indices[i - 1] - offset + 1
      invariant i == 0 ==> next == 0
      invariant |selected| == i && forall j :: 0 <= j < i ==> selected[j] == owners[indices[j] - offset]
    {
      var index := indices[i] - offset;
      var output := remaining.Nth(index - next);
      next := index + 1;
      selected := selected + [output];
    }
  }

  /** Coding into selected outputs writes the product rows there and nothing anywhere else. */
  method CodeSelected<E(!new)>(f: Field<E>, rows: seq<seq<E>>, inputs: seq<seq<E>>, shards: seq<array<E>>, indices: seq<nat>, offset: nat, len: nat)
    requires f.Valid() && 0 < |inputs| && IsMatrix(inputs, |inputs|, len) && IsMatrix(rows, |indices|, |inputs|)
    requires Owners(shards, len) && Selectable(indices, offset, |shards|)
    modifies shards
    ensures forall i :: 0 <= i < |indices| ==> shards[indices[i] - offset][..] == MatMul(f, rows, inputs, len)[i]
    ensures forall j :: 0 <= j < |shards| && offset + j !in indices ==> shards[j][..] == old(shards[j][..])
  {
    hide Field.Valid, Comb, MatMul;
    var outputs := Select(shards, indices, offset);
    SelectedFrame(shards, outputs, indices, offset, len);
    CodeSomeSlices(f, rows, inputs, outputs, len);
    assert forall i :: 0 <= i < |outputs| ==> Views(outputs)[i] == shards[indices[i] - offset][..];
  }

  lemma SelectedFrame<E>(shards: seq<array<E>>, outputs: seq<array<E>>, indices: seq<nat>, offset: nat, len: nat)
    requires Owners(shards, len) && Selectable(indices, offset, |shards|) && |outputs| == |indices|
    requires forall i :: 0 <= i < |indices| ==> outputs[i] == shards[indices[i] - offset]
    ensures Owners(outputs, len)
    ensures forall i :: 0 <= i < |outputs| ==> outputs[i] in shards
    ensures forall j :: 0 <= j < |shards| && offset + j !in indices ==> shards[j] !in outputs
  {
    forall i, j | 0 <= i < j < |outputs| ensures outputs[i] != outputs[j] {
      assert indices[i] - offset < indices[j] - offset;
    }
    forall j | 0 <= j < |shards| && offset + j !in indices ensures shards[j] !in outputs {
      forall i | 0 <= i < |outputs| ensures outputs[i] != shards[j] {
        assert indices[i] in indices;
      }
    }
  }
}
