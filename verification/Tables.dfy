/** std::map keyed by 32-bit numbers: a list in strictly ascending key order. */
module Tables {
  import opened Bytes
  import opened Options

  datatype Entry<T> = Entry(slot: uint32, value: T)
  type Table<T> = seq<Entry<T>>

  ghost predicate Sorted<T>(t: Table<T>)
  {
    forall i, j :: 0 <= i < j < |t| ==> t[i].slot < t[j].slot
  }

  /** std::map's operator[] followed by an assignment. */
  function Insert<T>(t: Table<T>, slot: uint32, value: T): (r: Table<T>)
  {
    if t == [] || slot < t[0].slot then [Entry(slot, value)] + t
    else if slot == t[0].slot then [Entry(slot, value)] + t[1..]
    else [t[0]] + Insert(t[1..], slot, value)
  }

  function Find<T>(t: Table<T>, slot: uint32): (r: Option<T>)
  {
    if t == [] then None
    else if t[0].slot == slot then Some(t[0].value)
    else Find(t[1..], slot)
  }

  function MaxSlot<T>(t: Table<T>): (r: uint32)
    ensures forall i :: 0 <= i < |t| ==> t[i].slot <= r
    ensures t == [] ==> r == 0
    ensures t != [] ==> exists i :: 0 <= i < |t| && t[i].slot == r
  {
    if t == [] then 0
    else
      var rest := MaxSlot(t[1..]);
      if |t| == 1 || t[0].slot > rest then t[0].slot else rest
  }

  /** Where an insertion lands, element by element. */
  lemma {:induction false} InsertShape<T>(t: Table<T>, slot: uint32, value: T) returns (k: nat, next: nat)
    requires Sorted(t)
    ensures k <= next <= k + 1 && next <= |t|
    ensures Insert(t, slot, value) == t[..k] + [Entry(slot, value)] + t[next..]
    ensures forall i :: 0 <= i < k ==> t[i].slot < slot
    ensures forall i :: next <= i < |t| ==> slot < t[i].slot
  {
    if t == [] || slot < t[0].slot {
      k, next := 0, 0;
      assert t[..0] == [] && t[0..] == t;
    } else if slot == t[0].slot {
      k, next := 0, 1;
      assert t[..0] == [];
    } else {
      var tail := t[1..];
      var k', next' := InsertShape(tail, slot, value);
      k, next := k' + 1, next' + 1;
      InsertBehind(t, slot, value, k', next');
      assert forall i :: 0 < i < |t| ==> t[i] == tail[i - 1];
    }
  }

  /** Inserting behind the first entry. */
  lemma InsertBehind<T>(t: Table<T>, slot: uint32, value: T, k: nat, next: nat)
    requires t != [] && slot > t[0].slot && k <= |t| - 1 && next <= |t| - 1
    requires Insert(t[1..], slot, value) == t[1..][..k] + [Entry(slot, value)] + t[1..][next..]
    ensures Insert(t, slot, value) == t[..k + 1] + [Entry(slot, value)] + t[next + 1..]
  {
    assert t[..k + 1] == [t[0]] + t[1..][..k] && t[next + 1..] == t[1..][next..];
  }

  lemma InsertSorted<T>(t: Table<T>, slot: uint32, value: T)
    requires Sorted(t)
    ensures Sorted(Insert(t, slot, value))
    ensures forall i :: 0 <= i < |Insert(t, slot, value)| ==>
              Insert(t, slot, value)[i] == Entry(slot, value) || Insert(t, slot, value)[i] in t
  {
    hide Insert;
    var k, next := InsertShape(t, slot, value);
  }

  lemma {:induction false} FindIs<T>(t: Table<T>, k: nat)
    requires Sorted(t) && k < |t|
    ensures Find(t, t[k].slot) == Some(t[k].value)
  {
    if k > 0 {
      FindIs(t[1..], k - 1);
    }
  }

  lemma {:induction false} FindNone<T>(t: Table<T>, slot: uint32)
    requires forall i :: 0 <= i < |t| ==> t[i].slot != slot
    ensures Find(t, slot) == None
  {
    if t != [] {
      FindNone(t[1..], slot);
    }
  }

  /** Insert is map update. */
  lemma {:induction false} FindInsert<T>(t: Table<T>, slot: uint32, value: T, k: uint32)
    requires Sorted(t)
    ensures Find(Insert(t, slot, value), k) == if k == slot then Some(value) else Find(t, k)
  {
    if t != [] && slot > t[0].slot {
      FindInsert(t[1..], slot, value, k);
      assert Insert(t, slot, value)[1..] == Insert(t[1..], slot, value);
    } else if t != [] && slot == t[0].slot {
      assert Insert(t, slot, value)[1..] == t[1..];
    } else {
      assert Insert(t, slot, value)[1..] == t;
    }
  }

  lemma {:induction false} FindSnoc<T>(t: Table<T>, e: Entry<T>, k: uint32)
    ensures Find(t + [e], k) == if Find(t, k).Some? then Find(t, k) else if e.slot == k then Some(e.value) else None
  {
    if t != [] {
      assert (t + [e])[1..] == t[1..] + [e];
      FindSnoc(t[1..], e, k);
    } else {
      assert t + [e] == [e];
    }
  }

  lemma FreshSlot<T>(t: Table<T>, i: nat)
    requires Sorted(t) && i < |t|
    ensures Find(t[..i], t[i].slot) == None && t[..i + 1] == t[..i] + [t[i]]
  {
    FindNone(t[..i], t[i].slot);
  }

  lemma {:induction false} InsertMax<T>(t: Table<T>, slot: uint32, value: T)
    ensures MaxSlot(Insert(t, slot, value)) == if slot > MaxSlot(t) then slot else MaxSlot(t)
  {
    var r := Insert(t, slot, value);
    if t == [] || slot < t[0].slot {
      assert r[1..] == t;
    } else if slot == t[0].slot {
      assert r[1..] == t[1..];
    } else {
      InsertMax(t[1..], slot, value);
      assert r[1..] == Insert(t[1..], slot, value);
    }
  }

  lemma {:induction false} MaxSnoc<T>(t: Table<T>, e: Entry<T>)
    ensures MaxSlot(t + [e]) == if e.slot > MaxSlot(t) then e.slot else MaxSlot(t)
  {
    if t == [] {
      assert t + [e] == [e];
    } else {
      assert (t + [e])[1..] == t[1..] + [e];
      MaxSnoc(t[1..], e);
    }
  }
}
