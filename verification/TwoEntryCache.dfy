/** The two-slot cache of owned resources with one byte budget. */
module TwoEntryCaches {
  import opened Outcomes

  datatype Entry<K, T> = Entry(key: K, value: T, bytes: nat)

  /** The most recently returned resource first. */
  type Slots<K, T> = seq<Option<Entry<K, T>>>

  predicate Holds<K(==), T>(slot: Option<Entry<K, T>>, key: K) {
    slot.Some? && slot.value.key == key
  }

  function Bytes<K, T>(slot: Option<Entry<K, T>>): nat {
    if slot.Some? then slot.value.bytes else 0
  }

  /** Unique keys within the budget. */
  ghost predicate Bounded<K, T>(s: Slots<K, T>, maxBytes: nat) {
    && |s| == 2 && Bytes(s[0]) + Bytes(s[1]) <= maxBytes
    && (s[0].Some? && s[1].Some? ==> s[0].value.key != s[1].value.key)
  }

  /** Whether an earlier resource may stay beside a new one. */
  predicate Compatible<K(==), T>(slot: Option<Entry<K, T>>, key: K, budget: nat) {
    slot.Some? && slot.value.key != key && slot.value.bytes <= budget
  }

  class TwoEntryCache<K(==), T> {
    const maxBytes: nat
    var entries: Slots<K, T>

    ghost predicate Valid()
      reads this
    {
      Bounded(entries, maxBytes)
    }

    constructor (maxBytes: nat)
      ensures Valid() && this.maxBytes == maxBytes && entries == [None, None]
    {
      this.maxBytes := maxBytes;
      entries := [None, None];
    }

    /** Hands out the resource of a key and empties its slot; the other slot is untouched. */
    method Take(key: K) returns (value: Option<T>)
      requires Valid()
      modifies this
      ensures Valid()
      ensures value.Some? <==> exists i :: 0 <= i < 2 && old(entries)[i].Some? && old(entries)[i].value.key == key
      ensures value.None? ==> entries == old(entries)
      ensures value.Some? ==> exists i :: 0 <= i < 2 && old(entries)[i].Some? && old(entries)[i].value.key == key
                                       && value.value == old(entries)[i].value.value && entries == old(entries)[i := None]
      ensures forall i :: 0 <= i < 2 && entries[i].Some? ==> entries[i].value.key != key
    {
      var index := 0;
      while index < 2 && !Holds(entries[index], key)
        invariant index <= 2 && forall i :: 0 <= i < index ==> !Holds(entries[i], key)
      {
        index := index + 1;
      }
      if index == 2 {
        return None;
      }
      ghost var was := entries;
      value := Some(entries[index].value.value);
      entries := entries[index := None];
      assert Holds(was[index], key);
    }

    /** The new resource takes the first slot; the newest compatible earlier one is kept. */
    method Insert(key: K, value: T, bytes: nat)
      requires Valid()
      modifies this
      ensures Valid()
      ensures bytes > maxBytes ==> entries == old(entries)
      ensures bytes <= maxBytes ==>
        && |entries| == 2 && entries[0] == Some(Entry(key, value, bytes))
        && entries[1] ==
           if old(entries)[0].Some? && old(entries)[0].value.key != key && old(entries)[0].value.bytes + bytes <= maxBytes then old(entries)[0]
           else if old(entries)[1].Some? && old(entries)[1].value.key != key && old(entries)[1].value.bytes + bytes <= maxBytes then old(entries)[1]
           else None
    {
      if bytes > maxBytes {
        return;
      }
      var retained: Option<Entry<K, T>> := None;
      var index := 0;
      while index < 2 && retained.None?
        invariant index <= 2
        invariant retained.Some? ==>
          index > 0 && retained == entries[index - 1] && Compatible(retained, key, maxBytes - bytes)
          && forall i :: 0 <= i < index - 1 ==> !Compatible(entries[i], key, maxBytes - bytes)
        invariant retained.None? ==> forall i :: 0 <= i < index ==> !Compatible(entries[i], key, maxBytes - bytes)
      {
        if Compatible(entries[index], key, maxBytes - bytes) {
          retained := entries[index];
        }
        index := index + 1;
      }
      entries := [Some(Entry(key, value, bytes)), retained];
    }
  }
}
