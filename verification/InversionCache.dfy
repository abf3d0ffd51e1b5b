/** The byte-budgeted least-recently-used cache of decode matrices. */
module InversionCaches {
  import opened Outcomes

  const USIZE_BYTES: nat := 8
  const USIZE_LIMIT: nat := 0xFFFF_FFFF_FFFF_FFFF

  datatype Entry<V> = Entry(key: seq<nat>, value: V, bytes: nat)

  /** Entries in recency order, the least recent first. */
  type Entries<V> = seq<Entry<V>>

  function Total<V>(s: Entries<V>): nat {
    if s == [] then 0 else s[0].bytes + Total(s[1..])
  }

  ghost predicate DistinctKeys<V>(s: Entries<V>) {
    forall i, j :: 0 <= i < j < |s| ==> s[i].key != s[j].key
  }

  /** The position of a key, or the length if it is absent. */
  function IndexOf<V>(s: Entries<V>, key: seq<nat>): (i: nat)
    ensures i <= |s| && (i < |s| ==> s[i].key == key)
    ensures forall j :: 0 <= j < i ==> s[j].key != key
  {
    if s == [] || s[0].key == key then 0 else 1 + IndexOf(s[1..], key)
  }

  function Lookup<V>(s: Entries<V>, key: seq<nat>): Option<V> {
    var i := IndexOf(s, key);
    if i < |s| then Some(s[i].value) else None
  }

  /** A held key hits with its value, and nothing else does. */
  lemma LookupMeaning<V>(s: Entries<V>, key: seq<nat>)
    requires DistinctKeys(s)
    ensures forall v :: Lookup(s, key) == Some(v) <==> exists e :: e in s && e.key == key && e.value == v
  {
    var i := IndexOf(s, key);
    if i < |s| {
      assert s[i] in s;
      forall e | e in s && e.key == key ensures e == s[i] {
        var j :| 0 <= j < |s| && s[j] == e;
      }
    }
  }

  function Without<V>(s: Entries<V>, key: seq<nat>): (r: Entries<V>)
    requires DistinctKeys(s)
    ensures DistinctKeys(r) && |r| <= |s|
    ensures forall e :: e in r ==> e in s && e.key != key
    ensures forall e :: e in s && e.key != key ==> e in r
  {
    var i := IndexOf(s, key);
    if i < |s| then s[..i] + s[i + 1..] else s
  }

  /** A successful lookup makes the entry the most recent one. */
  function Touched<V>(s: Entries<V>, key: seq<nat>): (r: Entries<V>)
    requires DistinctKeys(s)
    ensures DistinctKeys(r)
    ensures forall e :: e in r ==> e in s
    ensures forall e :: e in s ==> e in r
  {
    var i := IndexOf(s, key);
    if i < |s| then s[..i] + s[i + 1..] + [s[i]] else s
  }

  lemma TouchedLookup<V>(s: Entries<V>, key: seq<nat>)
    requires DistinctKeys(s)
    ensures Lookup(Touched(s, key), key) == Lookup(s, key)
  {
    hide IndexOf;
    LookupMeaning(s, key);
    LookupMeaning(Touched(s, key), key);
    if Lookup(s, key).Some? {
      assert exists e :: e in Touched(s, key) && e.key == key && e.value == Lookup(s, key).value;
    }
  }

  // ----- accounting

  lemma {:induction false} TotalConcat<V>(s: Entries<V>, t: Entries<V>)
    ensures Total(s + t) == Total(s) + Total(t)
  {
    if s == [] {
      assert s + t == t;
    } else {
      assert (s + t)[1..] == s[1..] + t;
      TotalConcat(s[1..], t);
    }
  }

  lemma TotalHead<V>(s: Entries<V>)
    requires s != []
    ensures Total(s) == s[0].bytes + Total(s[1..])
  {
  }

  lemma TotalAppend<V>(s: Entries<V>, e: Entry<V>)
    ensures Total(s + [e]) == Total(s) + e.bytes
  {
    TotalConcat(s, [e]);
  }

  lemma TotalWithout<V>(s: Entries<V>, key: seq<nat>)
    requires DistinctKeys(s)
    ensures var i := IndexOf(s, key);
      Total(s) == Total(Without(s, key)) + (if i < |s| then s[i].bytes else 0)
    ensures Total(Touched(s, key)) == Total(s)
  {
    hide Total, IndexOf;
    var i := IndexOf(s, key);
    if i < |s| {
      SplitAt(s, i);
      TotalCut(s[..i], s[i], s[i + 1..]);
    }
  }

  lemma SplitAt<T>(s: seq<T>, i: nat)
    requires i < |s|
    ensures s == s[..i] + [s[i]] + s[i + 1..]
  {
  }

  lemma TotalCut<V>(a: Entries<V>, e: Entry<V>, b: Entries<V>)
    ensures Total(a + [e] + b) == Total(a + b) + e.bytes
    ensures Total(a + b + [e]) == Total(a + b) + e.bytes
  {
    hide Total;
    TotalConcat(a + [e], b);
    TotalAppend(a, e);
    TotalConcat(a, b);
    TotalAppend(a + b, e);
  }

  /** The charge of an entry; overflow is no charge at all. */
  function Charge(keyCapacity: nat, matrixBytes: nat): (b: Option<nat>)
    ensures b.Some? <==> keyCapacity * USIZE_BYTES + matrixBytes <= USIZE_LIMIT
    ensures b.Some? ==> b.value == keyCapacity * USIZE_BYTES + matrixBytes
  {
    var keyBytes := keyCapacity * USIZE_BYTES;
    if keyBytes > USIZE_LIMIT then None
    else if matrixBytes + keyBytes > USIZE_LIMIT then None
    else Some(matrixBytes + keyBytes)
  }

  /** Room for one more entry within both limits. */
  predicate Fits<V>(s: Entries<V>, capacity: nat, budget: nat) {
    |s| < capacity && Total(s) <= budget
  }

  /** The shortest least-recent prefix whose removal makes room. */
  function EvictionCount<V>(s: Entries<V>, capacity: nat, budget: nat): (n: nat)
    requires capacity > 0
    ensures n <= |s| && Fits(s[n..], capacity, budget)
    ensures forall m :: 0 <= m < n ==> !Fits(s[m..], capacity, budget)
  {
    if Fits(s, capacity, budget) then 0
    else
      var n := EvictionCount(s[1..], capacity, budget);
      assert forall m :: 1 <= m <= |s| ==> s[1..][m - 1..] == s[m..];
      n + 1
  }

  /** The least recent entries went, and not one more than the limits demand: with the last of them kept
      beside the new entry there would be too many entries or too many bytes. */
  ghost predicate Least<V>(others: Entries<V>, after: Entries<V>, evictions: nat, capacity: nat, maxBytes: nat) {
    && after != [] && evictions <= |others| && after[..|after| - 1] == others[evictions..]
    && forall m :: 0 <= m < evictions ==>
         |others[m..]| + 1 > capacity || Total(others[m..]) + after[|after| - 1].bytes > maxBytes
  }

  /** The entries after an accepted insertion. */
  function Inserted<V>(s: Entries<V>, capacity: nat, maxBytes: nat, entry: Entry<V>): (r: Entries<V>)
    requires DistinctKeys(s) && capacity > 0 && entry.bytes <= maxBytes
    ensures forall e :: e in r ==> e == entry || (e in s && e.key != entry.key)
  {
    var others := Without(s, entry.key);
    others[EvictionCount(others, capacity, maxBytes - entry.bytes)..] + [entry]
  }

  /** Both limits and the uniqueness of keys. */
  ghost predicate Bounded<V>(s: Entries<V>, capacity: nat, maxBytes: nat) {
    DistinctKeys(s) && |s| <= capacity && Total(s) <= maxBytes
  }

  lemma InsertedBounded<V>(s: Entries<V>, capacity: nat, maxBytes: nat, entry: Entry<V>)
    requires Bounded(s, capacity, maxBytes) && capacity > 0 && entry.bytes <= maxBytes
    ensures Bounded(Inserted(s, capacity, maxBytes, entry), capacity, maxBytes)
    ensures Lookup(Inserted(s, capacity, maxBytes, entry), entry.key) == Some(entry.value)
  {
    hide Total, EvictionCount, Without, IndexOf;
    var others := Without(s, entry.key);
    var kept := others[EvictionCount(others, capacity, maxBytes - entry.bytes)..];
    TotalAppend(kept, entry);
    forall e | e in kept ensures e.key != entry.key {
      assert e in others;
    }
    var r := kept + [entry];
    var i := IndexOf(r, entry.key);
    assert r[|kept|] == entry;
    assert forall j :: 0 <= j < |kept| ==> kept[j].key != entry.key;
    assert i == |kept|;
  }

  lemma LeastEvictions<V>(others: Entries<V>, after: Entries<V>, n: nat, capacity: nat, maxBytes: nat)
    requires capacity > 0 && after != [] && after[|after| - 1].bytes <= maxBytes
    requires n == EvictionCount(others, capacity, maxBytes - after[|after| - 1].bytes)
    requires after[..|after| - 1] == others[n..]
    ensures Least(others, after, n, capacity, maxBytes)
  {
    hide Total;
    forall m | 0 <= m < n ensures |others[m..]| + 1 > capacity || Total(others[m..]) + after[|after| - 1].bytes > maxBytes {
      assert !Fits(others[m..], capacity, maxBytes - after[|after| - 1].bytes);
    }
  }

  // ----- every history

  datatype Call<V> = Get(key: seq<nat>) | Insert(entry: Entry<V>)

  /** Whether an insertion is accepted. */
  predicate Accepts<V>(capacity: nat, maxBytes: nat, entry: Entry<V>) {
    capacity > 0 && entry.bytes <= maxBytes
  }

  /** Whether a call looks a key up or stores it. */
  predicate Uses<V>(capacity: nat, maxBytes: nat, call: Call<V>, key: seq<nat>) {
    match call
    case Get(k) => k == key
    case Insert(entry) => entry.key == key && Accepts(capacity, maxBytes, entry)
  }

  ghost function Next<V>(capacity: nat, maxBytes: nat, s: Entries<V>, call: Call<V>): (t: Entries<V>)
    requires Bounded(s, capacity, maxBytes)
    ensures Bounded(t, capacity, maxBytes)
  {
    match call
    case Get(key) => TotalWithout(s, key); Touched(s, key)
    case Insert(entry) =>
      if Accepts(capacity, maxBytes, entry) then
        InsertedBounded(s, capacity, maxBytes, entry);
        Inserted(s, capacity, maxBytes, entry)
      else s
  }

  ghost function Run<V>(capacity: nat, maxBytes: nat, calls: seq<Call<V>>): (s: Entries<V>)
    ensures Bounded(s, capacity, maxBytes)
  {
    if calls == [] then [] else Next(capacity, maxBytes, Run(capacity, maxBytes, calls[..|calls| - 1]), calls[|calls| - 1])
  }

  /** The value most recently accepted under a key. */
  ghost function LastInserted<V>(capacity: nat, maxBytes: nat, calls: seq<Call<V>>, key: seq<nat>): Option<V> {
    if calls == [] then None
    else
      var last := calls[|calls| - 1];
      if last.Insert? && last.entry.key == key && Accepts(capacity, maxBytes, last.entry) then Some(last.entry.value)
      else LastInserted(capacity, maxBytes, calls[..|calls| - 1], key)
  }

  /** After any history a hit returns the value last accepted under that key. */
  lemma {:induction false} HitsAreCurrent<V>(capacity: nat, maxBytes: nat, calls: seq<Call<V>>)
    ensures forall e :: e in Run(capacity, maxBytes, calls) ==> LastInserted(capacity, maxBytes, calls, e.key) == Some(e.value)
  {
    if calls != [] {
      HitsAreCurrent(capacity, maxBytes, calls[..|calls| - 1]);
    }
  }

  /** The number of the last call that looked a key up or stored it. */
  ghost function LastUse<V>(capacity: nat, maxBytes: nat, calls: seq<Call<V>>, key: seq<nat>): (n: nat)
    ensures n <= |calls|
  {
    if calls == [] then 0
    else if Uses(capacity, maxBytes, calls[|calls| - 1], key) then |calls|
    else LastUse(capacity, maxBytes, calls[..|calls| - 1], key)
  }

  ghost predicate Ordered<V>(s: Entries<V>, rank: seq<nat> -> nat) {
    forall i, j :: 0 <= i < j < |s| ==> rank(s[i].key) < rank(s[j].key)
  }

  lemma OrderedWithout<V>(s: Entries<V>, key: seq<nat>, rank: seq<nat> -> nat)
    requires DistinctKeys(s) && Ordered(s, rank)
    ensures Ordered(Without(s, key), rank)
  {
    hide IndexOf, Ordered;
    var p := IndexOf(s, key);
    if p < |s| {
      SplitAt(s, p);
      OrderedCut(s[..p], s[p], s[p + 1..], rank);
    }
  }

  lemma OrderedCut<V>(a: Entries<V>, e: Entry<V>, b: Entries<V>, rank: seq<nat> -> nat)
    requires Ordered(a + [e] + b, rank)
    ensures Ordered(a + b, rank)
  {
    var s, r := a + [e] + b, a + b;
    assert forall i :: 0 <= i < |a| ==> r[i] == s[i];
    assert forall i :: |a| <= i < |r| ==> r[i] == s[i + 1];
  }

  /** An entry used at call `n` belongs behind entries last used earlier. */
  lemma OrderedAppend<V>(s: Entries<V>, e: Entry<V>, before: seq<nat> -> nat, after: seq<nat> -> nat)
    requires Ordered(s, before)
    requires forall x :: x in s ==> after(x.key) == before(x.key) < after(e.key)
    ensures Ordered(s + [e], after)
  {
    var t := s + [e];
    forall i, j | 0 <= i < j < |t| ensures after(t[i].key) < after(t[j].key) {
      assert t[i] == s[i] && s[i] in s;
      if j < |s| {
        assert t[j] == s[j] && s[j] in s;
      }
    }
  }

  ghost function LastUses<V>(capacity: nat, maxBytes: nat, calls: seq<Call<V>>): seq<nat> -> nat {
    k => LastUse(capacity, maxBytes, calls, k)
  }

  /** The entries always stand in the order of their last use, so the front is the least recent. */
  lemma {:induction false} OrderIsRecency<V>(capacity: nat, maxBytes: nat, calls: seq<Call<V>>)
    ensures Ordered(Run(capacity, maxBytes, calls), LastUses(capacity, maxBytes, calls))
  {
    if calls != [] {
      var rest := calls[..|calls| - 1];
      OrderIsRecency(capacity, maxBytes, rest);
      StepOrder(capacity, maxBytes, Run(capacity, maxBytes, rest), calls[|calls| - 1],
                LastUses(capacity, maxBytes, rest), LastUses(capacity, maxBytes, calls), |calls|);
    }
  }

  lemma StepOrder<V>(capacity: nat, maxBytes: nat, s: Entries<V>, call: Call<V>, was: seq<nat> -> nat, now: seq<nat> -> nat, n: nat)
    requires Bounded(s, capacity, maxBytes) && Ordered(s, was) && forall k :: was(k) < n
    requires forall k :: now(k) == if Uses(capacity, maxBytes, call, k) then n else was(k)
    ensures Ordered(Next(capacity, maxBytes, s, call), now)
  {
    hide Total, EvictionCount, IndexOf, Ordered, Without;
    match call
    case Get(key) =>
      var p := IndexOf(s, key);
      if p < |s| {
        OrderedWithout(s, key, was);
        WithoutAt(s, key);
        OrderedAppend(Without(s, key), s[p], was, now);
      } else {
        OrderedSame(s, was, now);
      }
    case Insert(entry) =>
      if Accepts(capacity, maxBytes, entry) {
        var others := Without(s, entry.key);
        var cut := EvictionCount(others, capacity, maxBytes - entry.bytes);
        OrderedWithout(s, entry.key, was);
        OrderedDrop(others, cut, was);
        OrderedAppend(others[cut..], entry, was, now);
      } else {
        OrderedSame(s, was, now);
      }
  }

  lemma WithoutAt<V>(s: Entries<V>, key: seq<nat>)
    requires DistinctKeys(s) && IndexOf(s, key) < |s|
    ensures Touched(s, key) == Without(s, key) + [s[IndexOf(s, key)]]
  {
  }

  lemma OrderedDrop<V>(s: Entries<V>, n: nat, rank: seq<nat> -> nat)
    requires Ordered(s, rank) && n <= |s|
    ensures Ordered(s[n..], rank)
  {
  }

  lemma OrderedSame<V>(s: Entries<V>, before: seq<nat> -> nat, after: seq<nat> -> nat)
    requires Ordered(s, before) && forall x :: x in s ==> after(x.key) == before(x.key)
    ensures Ordered(s, after)
  {
  }

  // ----- the implementation

  class InversionCache<V> {
    const capacity: nat
    const maxBytes: nat
    var entries: Entries<V>
    var retainedBytes: nat

    ghost predicate Valid()
      reads this
    {
      Bounded(entries, capacity, maxBytes) && retainedBytes == Total(entries)
    }

    constructor (capacity: nat, maxBytes: nat)
      ensures Valid() && this.capacity == capacity && this.maxBytes == maxBytes && entries == []
    {
      this.capacity := capacity;
      this.maxBytes := maxBytes;
      entries := [];
      retainedBytes := 0;
    }

    method Find(key: seq<nat>) returns (value: Option<V>)
      requires Valid()
      modifies this
      ensures Valid() && value == Lookup(old(entries), key)
      ensures forall v :: value == Some(v) <==> exists e :: e in old(entries) && e.key == key && e.value == v
      ensures entries == Touched(old(entries), key)
      ensures value.Some? ==> entries != [] && entries[|entries| - 1].key == key
      ensures Lookup(entries, key) == value
    {
      hide Total;
      TotalWithout(entries, key);
      LookupMeaning(entries, key);
      TouchedLookup(entries, key);
      var i := IndexOf(entries, key);
      if i == |entries| {
        return None;
      }
      value := Some(entries[i].value);
      entries := entries[..i] + entries[i + 1..] + [entries[i]];
    }

    /** Drops a previous entry of the key together with its charge. */
    method Remove(key: seq<nat>)
      requires Valid()
      modifies this
      ensures Valid() && entries == Without(old(entries), key)
    {
      hide Total;
      TotalWithout(entries, key);
      var i := IndexOf(entries, key);
      if i < |entries| {
        retainedBytes := retainedBytes - entries[i].bytes;
        entries := entries[..i] + entries[i + 1..];
      }
    }

    /** Removes the least recent entry; the loop below never finds the cache empty. */
    method RemoveLru() returns (removed: Entry<V>)
      requires |entries| > 0
      modifies `entries
      ensures removed == old(entries)[0] && entries == old(entries)[1..]
    {
      removed := entries[0];
      entries := entries[1..];
    }

    method Insert(key: seq<nat>, keyCapacity: nat, matrix: V, matrixBytes: nat) returns (inserted: bool, evictions: nat)
      requires Valid()
      modifies this
      ensures Valid()
      ensures var charge := Charge(keyCapacity, matrixBytes);
        && inserted == (charge.Some? && Accepts(capacity, maxBytes, Entry(key, matrix, charge.value)))
        && (!inserted ==> entries == old(entries) && evictions == 0)
        && (inserted ==>
            && entries == Inserted(old(entries), capacity, maxBytes, Entry(key, matrix, charge.value))
            && evictions == EvictionCount(Without(old(entries), key), capacity, maxBytes - charge.value))
      ensures inserted <==> capacity > 0 && keyCapacity * 8 + matrixBytes <= maxBytes && keyCapacity * 8 + matrixBytes <= 0xFFFF_FFFF_FFFF_FFFF
      ensures inserted ==> Lookup(entries, key) == Some(matrix)
      ensures inserted ==> entries[|entries| - 1] == Entry(key, matrix, keyCapacity * 8 + matrixBytes)
      ensures inserted ==> Least(Without(old(entries), key), entries, evictions, capacity, maxBytes)
    {
      hide Total, EvictionCount, IndexOf, Without;
      var charge := Charge(keyCapacity, matrixBytes);
      if charge.None? || charge.value > maxBytes {
        return false, 0;
      }
      var bytes := charge.value;
      if capacity == 0 {
        return false, 0;
      }
      ghost var was, others := entries, Without(entries, key);
      Remove(key);
      ghost var room := EvictionCount(others, capacity, maxBytes - bytes);
      evictions := 0;
      while |entries| >= capacity || retainedBytes > maxBytes - bytes
        invariant evictions <= room && entries == others[evictions..] && retainedBytes == Total(entries)
        decreases |entries|
      {
        assert !Fits(others[evictions..], capacity, maxBytes - bytes);
        assert entries != [];
        TotalHead(entries);
        var removed := RemoveLru();
        retainedBytes := retainedBytes - removed.bytes;
        evictions := evictions + 1;
      }
      assert evictions == room;
      InsertedBounded(was, capacity, maxBytes, Entry(key, matrix, bytes));
      TotalAppend(entries, Entry(key, matrix, bytes));
      retainedBytes := retainedBytes + bytes;
      entries := entries + [Entry(key, matrix, bytes)];
      inserted := true;
      LeastEvictions(others, entries, evictions, capacity, maxBytes);
    }
  }
}
