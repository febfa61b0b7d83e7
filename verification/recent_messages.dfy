/** The recent-message cache of `retry.go`: a ring of 256 keys that decides what is deleted from a map. */
module RecentMessages {
  import opened Bytes

  const SIZE := 256

  datatype Key = Key(to: Bytes, id: Bytes)

  /** An unused slot of the ring. */
  const NO_KEY: Key := Key([], [])

  datatype Memory<V> = Memory(messages: map<Key, V>, list: seq<Key>, ptr: nat)

  datatype Entry<V> = Entry(key: Key, message: V)

  class RecentCache<V> {
    var messages: map<Key, V>
    const list: array<Key>
    var ptr: nat

    constructor ()
      ensures Valid() && View() == Fresh() && fresh(list)
    {
      messages, ptr := map[], 0;
      list := new Key[SIZE](i => NO_KEY);
      new;
      assert list[..] == Fresh<V>().list;
    }

    ghost predicate Valid()
      reads this, list
    {
      list.Length == SIZE && ptr < SIZE
    }

    ghost function View(): Memory<V>
      reads this, list
    {
      Memory(messages, list[..], ptr)
    }

    method AddRecentMessage(to: Bytes, id: Bytes, message: V)
      requires Valid()
      modifies this, list
      ensures Valid() && View() == Add(old(View()), Entry(Key(to, id), message))
    {
      var key := Key(to, id);
      if list[ptr].id != [] {
        messages := messages - {list[ptr]};
      }
      messages := messages[key := message];
      list[ptr] := key;
      ptr := ptr + 1;
      if ptr >= list.Length {
        ptr := 0;
      }
    }

    method GetRecentMessage(to: Bytes, id: Bytes) returns (message: Option<V>)
      ensures message == if Key(to, id) in messages then Some(messages[Key(to, id)]) else None
    {
      if Key(to, id) in messages {
        return Some(messages[Key(to, id)]);
      }
      return None;
    }
  }

  function NoKeys(n: nat): (s: seq<Key>)
    ensures |s| == n && forall i :: 0 <= i < n ==> s[i] == NO_KEY
  {
    if n == 0 then [] else NoKeys(n - 1) + [NO_KEY]
  }

  function Fresh<V>(): (m: Memory<V>)
    ensures WellSized(m)
  {
    Memory(map[], NoKeys(SIZE), 0)
  }

  predicate WellSized<V>(m: Memory<V>) { |m.list| == SIZE && m.ptr < SIZE }

  function Add<V>(m: Memory<V>, e: Entry<V>): (m': Memory<V>)
    requires WellSized(m)
    ensures WellSized(m')
  {
    var old_ := m.list[m.ptr];
    Memory((if old_.id != [] then m.messages - {old_} else m.messages)[e.key := e.message],
           m.list[m.ptr := e.key], if m.ptr + 1 >= SIZE then 0 else m.ptr + 1)
  }

  /** The cache after a history of adds. */
  function After<V>(h: seq<Entry<V>>): (m: Memory<V>)
    ensures WellSized(m)
  {
    if h == [] then Fresh() else Add(After(h[..|h| - 1]), h[|h| - 1])
  }

  lemma {:induction false} PointerCounts<V>(h: seq<Entry<V>>)
    ensures After(h).ptr == |h| % SIZE
  {
    if h != [] {
      PointerCounts(h[..|h| - 1]);
    }
  }

  lemma SlotsDiffer(i: nat, n: nat)
    requires i < n < i + SIZE
    ensures i % SIZE != n % SIZE
  {
  }

  /** Each of the last 256 adds still has its key in its slot. */
  lemma {:induction false} RingHoldsLast<V>(h: seq<Entry<V>>, i: nat)
    requires i < |h| <= i + SIZE
    ensures After(h).list[i % SIZE] == h[i].key
  {
    hide NoKeys;
    var n := |h| - 1;
    PointerCounts(h[..n]);
    if i < n {
      RingHoldsLast(h[..n], i);
      SlotsDiffer(i, n);
    }
  }

  lemma {:induction false} RingStartsEmpty<V>(h: seq<Entry<V>>, s: nat)
    requires |h| <= s < SIZE
    ensures After(h).list[s] == NO_KEY
  {
    hide NoKeys;
    if h != [] {
      PointerCounts(h[..|h| - 1]);
      RingStartsEmpty(h[..|h| - 1], s);
    }
  }

  /** The entry that the next add overwrites. */
  lemma Overwritten<V>(h: seq<Entry<V>>)
    ensures After(h).list[After(h).ptr] == if |h| >= SIZE then h[|h| - SIZE].key else NO_KEY
  {
    hide After;
    PointerCounts(h);
    if |h| >= SIZE {
      RingHoldsLast(h, |h| - SIZE);
      assert (|h| - SIZE) % SIZE == |h| % SIZE;
    } else {
      RingStartsEmpty(h, |h|);
    }
  }

  function LastAdd<V>(h: seq<Entry<V>>, k: Key): (j: Option<nat>)
    ensures j.Some? ==> j.value < |h| && h[j.value].key == k && forall i :: j.value < i < |h| ==> h[i].key != k
    ensures j.None? ==> forall i :: 0 <= i < |h| ==> h[i].key != k
  {
    if h == [] then None
    else if h[|h| - 1].key == k then Some(|h| - 1)
    else LastAdd(h[..|h| - 1], k)
  }

  /** Some add after number j overwrote a slot that held k: add i was overwritten by add i + 256. */
  ghost predicate SlotLost<V>(h: seq<Entry<V>>, k: Key, j: nat) {
    exists i :: 0 <= i < |h| - SIZE && j < i + SIZE && h[i].key == k
  }

  /** A message is found exactly when its key was added and, since its latest add, no slot holding an occurrence of the
      key has been overwritten; a key with an empty ID is never lost.  The message found is the latest one. */
  lemma {:induction false} FoundExactly<V>(h: seq<Entry<V>>, k: Key)
    ensures k in After(h).messages <==> LastAdd(h, k).Some? && (k.id == [] || !SlotLost(h, k, LastAdd(h, k).value))
    ensures k in After(h).messages ==> After(h).messages[k] == h[LastAdd(h, k).value].message
  {
    hide SlotLost, NoKeys;
    if h == [] {
      return;
    }
    var n := |h| - 1;
    var front := h[..n];
    FoundExactly(front, k);
    Overwritten(front);
    if h[n].key == k {
      NothingLostYet(h, k);
    } else if LastAdd(front, k).Some? {
      LostByOneMore(h, k, LastAdd(front, k).value);
    }
  }

  lemma NothingLostYet<V>(h: seq<Entry<V>>, k: Key)
    requires h != []
    ensures !SlotLost(h, k, |h| - 1)
  {
  }

  lemma LostByOneMore<V>(h: seq<Entry<V>>, k: Key, j: nat)
    requires h != [] && j < |h| - 1
    ensures SlotLost(h, k, j) <==>
      SlotLost(h[..|h| - 1], k, j) || (|h| - 1 >= SIZE && h[|h| - 1 - SIZE].key == k)
  {
    var n := |h| - 1;
    if SlotLost(h, k, j) {
      var i :| 0 <= i < |h| - SIZE && j < i + SIZE && h[i].key == k;
      assert h[..n][i] == h[i];
    }
    if SlotLost(h[..n], k, j) {
      var i :| 0 <= i < n - SIZE && j < i + SIZE && h[..n][i].key == k;
      assert h[i].key == k;
    }
  }

  /** Every key with an ID that is found is also in the ring. */
  lemma {:induction false} FoundIsInRing<V>(h: seq<Entry<V>>, k: Key)
    requires k in After(h).messages && k.id != []
    ensures k in After(h).list && LastAdd(h, k).Some? && LastAdd(h, k).value + 256 >= |h|
  {
    hide After, LastAdd;
    FoundExactly(h, k);
    var j := LastAdd(h, k).value;
    assert h[j].key == k;
    RingHoldsLast(h, j);
  }

  /** For adds with distinct keys and non-empty IDs the cache is precisely the last 256 of them. */
  lemma {:induction false} DistinctKeepsLast<V>(h: seq<Entry<V>>, k: Key)
    requires forall i, j :: 0 <= i < j < |h| ==> h[i].key != h[j].key
    requires forall i :: 0 <= i < |h| ==> h[i].key.id != []
    ensures k in After(h).messages <==> exists i :: 0 <= i < |h| && |h| - 256 <= i && h[i].key == k
  {
    hide After, LastAdd;
    FoundExactly(h, k);
    if k in After(h).messages {
      var j := LastAdd(h, k).value;
      assert h[j].key == k;
      FoundIsInRing(h, k);
    }
  }

  /** A message that was added twice in a row is forgotten although it is among the last 256 adds. */
  lemma ReaddedIsForgotten<V>(e: Entry<V>, others: seq<Entry<V>>)
    requires e.key.id != [] && |others| == 255 && forall i :: 0 <= i < |others| ==> others[i].key != e.key
    ensures var h := [e, e] + others;
      LastAdd(h, e.key) == Some(1) && 1 >= |h| - 256 && e.key !in After(h).messages
  {
    hide After, LastAdd;
    var h := [e, e] + others;
    forall i | 2 <= i < |h|
      ensures h[i].key != e.key
    {
      assert h[i] == others[i - 2];
    }
    assert h[0].key == e.key && h[1].key == e.key;
    FoundExactly(h, e.key);
  }
}
