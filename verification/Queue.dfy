/** Deadline indexes and bucketed deadline queues (cacophony/src/queue.rs). */
module Queue {
  import opened Prelude

  /** The first key of a tree map exists. */
  lemma {:induction false} Least(s: set<nat>) returns (least: nat)
    requires s != {}
    ensures least in s && forall e :: e in s ==> least <= e
    decreases |s|
  {
    var x :| x in s;
    least := x;
    var rest := s - {x};
    if rest != {} {
      var d := Least(rest);
      least := if d < x then d else x;
    }
    assert s == rest + {x};
  }

  /** Keys with a deadline each, indexed both ways. */
  class DeadlineSet<K(==)> {
    var keys: map<K, nat>
    var deadlines: map<nat, set<K>>

    /** The two indexes hold the same pairs, and no deadline is listed without a key. */
    ghost predicate Valid()
      reads this
    {
      && (forall d :: d in deadlines ==> deadlines[d] != {})
      && (forall d, k :: d in deadlines && k in deadlines[d] ==> k in keys && keys[k] == d)
      && (forall k :: k in keys ==> keys[k] in deadlines && k in deadlines[keys[k]])
    }

    constructor ()
      ensures Valid() && keys == map[]
    {
      keys, deadlines := map[], map[];
    }

    method Insert(key: K, deadline: nat)
      requires Valid()
      modifies this
      ensures Valid() && keys == old(keys)[key := deadline]
    {
      if key in keys {
        var oldDeadline := keys[key];
        keys := keys[key := deadline];
        if oldDeadline == deadline {
          return;
        }
        RemoveFromDeadline(key, oldDeadline);
      } else {
        keys := keys[key := deadline];
      }
      var others := if deadline in deadlines then deadlines[deadline] else {};
      deadlines := deadlines[deadline := others + {key}];
    }

    method Remove(key: K) returns (removed: bool)
      requires Valid()
      modifies this
      ensures Valid() && keys == old(keys) - {key} && (removed <==> key in old(keys))
    {
      if key !in keys {
        return false;
      }
      var deadline := keys[key];
      keys := keys - {key};
      RemoveFromDeadline(key, deadline);
      return true;
    }

    method RemoveFromDeadline(key: K, deadline: nat)
      modifies this`deadlines
      ensures forall d :: d in deadlines <==> d in old(deadlines) && (d == deadline ==> old(deadlines)[d] - {key} != {})
      ensures forall d :: d in deadlines ==>
                deadlines[d] == if d == deadline then old(deadlines)[d] - {key} else old(deadlines)[d]
    {
      if deadline !in deadlines {
        return;
      }
      var rest := deadlines[deadline] - {key};
      deadlines := if rest == {} then deadlines - {deadline} else deadlines[deadline := rest];
    }

    method NextDeadline() returns (r: Option<nat>)
      requires Valid()
      ensures r.None? <==> keys == map[]
      ensures r.Some? ==>
                && (exists k :: k in keys && keys[k] == r.value)
                && forall k :: k in keys ==> r.value <= keys[k]
    {
      if deadlines == map[] {
        return None;
      }
      ghost var least := Least(deadlines.Keys);
      var d :| d in deadlines && forall e :: e in deadlines ==> d <= e;
      var k :| k in deadlines[d];
      assert k in keys;
      return Some(d);
    }

    /** A key of the earliest deadline, if that has passed; among equal deadlines the choice is open. */
    method PopExpired(now: nat) returns (r: Option<K>)
      requires Valid()
      modifies this
      ensures Valid()
      ensures r.None? <==> forall k :: k in old(keys) ==> old(keys)[k] > now
      ensures r.None? ==> keys == old(keys)
      ensures r.Some? ==>
                && r.value in old(keys) && old(keys)[r.value] <= now
                && (forall k :: k in old(keys) ==> old(keys)[r.value] <= old(keys)[k])
                && keys == old(keys) - {r.value}
    {
      if deadlines == map[] {
        return None;
      }
      ghost var least := Least(deadlines.Keys);
      var deadline :| deadline in deadlines && forall e :: e in deadlines ==> deadline <= e;
      var key :| key in deadlines[deadline];
      if deadline > now {
        return None;
      }
      var removed := Remove(key);
      return Some(key);
    }

    /** A key of the earliest deadline among those selected. */
    method FirstMatching(selected: K -> bool) returns (r: Option<K>)
      requires Valid()
      ensures r.None? <==> forall k :: k in keys ==> !selected(k)
      ensures r.Some? ==>
                && r.value in keys && selected(r.value)
                && forall k :: k in keys && selected(k) ==> keys[r.value] <= keys[k]
    {
      var left := deadlines.Keys;
      while left != {}
        invariant left <= deadlines.Keys
        invariant forall d, e :: d in left && e in deadlines && e !in left ==> e <= d
        invariant forall d, k :: d in deadlines && d !in left && k in deadlines[d] ==> !selected(k)
        decreases |left|
      {
        ghost var least := Least(left);
        var d :| d in left && forall e :: e in left ==> d <= e;
        if key :| key in deadlines[d] && selected(key) {
          return Some(key);
        }
        left := left - {d};
      }
      return None;
    }
  }

  // ----- Bucketed queue -----

  datatype Item<T> = Item(deadline: nat, value: T)

  ghost predicate Sorted<T>(queue: seq<Item<T>>) {
    forall i, j :: 0 <= i < j < |queue| ==> queue[i].deadline <= queue[j].deadline
  }

  /** Where a new item goes: behind everything due no later than it. */
  function Slot<T>(queue: seq<Item<T>>, deadline: nat): (i: nat)
    ensures i <= |queue|
    ensures forall j :: 0 <= j < i ==> queue[j].deadline <= deadline
    ensures i < |queue| ==> queue[i].deadline > deadline
  {
    if queue == [] || queue[0].deadline > deadline then 0 else 1 + Slot(queue[1..], deadline)
  }

  function Inserted<T>(queue: seq<Item<T>>, item: Item<T>): seq<Item<T>> {
    var i := Slot(queue, item.deadline);
    queue[..i] + [item] + queue[i..]
  }

  /** Insertion keeps the order, adds exactly the item, and puts it behind equals. */
  lemma InsertedSorted<T>(queue: seq<Item<T>>, item: Item<T>)
    requires Sorted(queue)
    ensures Sorted(Inserted(queue, item))
    ensures multiset(Inserted(queue, item)) == multiset(queue) + multiset{item}
  {
    hide Slot;
    var i := Slot(queue, item.deadline);
    assert queue == queue[..i] + queue[i..];
    var all := Inserted(queue, item);
    forall a, b | 0 <= a < b < |all|
      ensures all[a].deadline <= all[b].deadline
    {
      if b > i {
        assert all[b] == queue[b - 1];
        assert i <= b - 1 && queue[i].deadline <= queue[b - 1].deadline;
      }
      if a < i {
        assert all[a] == queue[a];
      } else if a > i {
        assert all[a] == queue[a - 1];
      }
    }
  }

  method InsertSorted<T>(queue: seq<Item<T>>, item: Item<T>) returns (r: seq<Item<T>>)
    requires Sorted(queue)
    ensures r == Inserted(queue, item)
  {
    hide Slot;
    if queue == [] || queue[|queue| - 1].deadline <= item.deadline {
      SlotAtEnd(queue, item);
      return queue + [item];
    }
    var index := 0;
    while queue[index].deadline <= item.deadline
      invariant 0 <= index < |queue| && forall j :: 0 <= j < index ==> queue[j].deadline <= item.deadline
      decreases |queue| - index
    {
      index := index + 1;
    }
    SlotUnique(queue, item.deadline, index);
    return queue[..index] + [item] + queue[index..];
  }

  class BucketDeadlineQueue<B(==, !new), T> {
    var buckets: map<B, seq<Item<T>>>
    const deadlines: DeadlineSet<B>

    ghost function Bucket(bucket: B): seq<Item<T>>
      reads this
    {
      if bucket in buckets then buckets[bucket] else []
    }

    /** Buckets are sorted and the deadline index holds exactly the fronts of the non-empty ones. */
    ghost predicate Valid()
      reads this, deadlines
    {
      && deadlines.Valid()
      && (forall b :: b in buckets ==> Sorted(buckets[b]))
      && (forall b :: b in deadlines.keys <==> b in buckets && buckets[b] != [])
      && (forall b :: b in deadlines.keys ==> deadlines.keys[b] == buckets[b][0].deadline)
    }

    constructor ()
      ensures Valid() && buckets == map[] && fresh(deadlines)
    {
      buckets := map[];
      deadlines := new DeadlineSet();
    }

    method RefreshBucketDeadline(bucket: B)
      requires deadlines.Valid()
      requires forall b :: b in buckets ==> Sorted(buckets[b])
      requires forall b :: b != bucket ==> (b in deadlines.keys <==> b in buckets && buckets[b] != [])
      requires forall b :: b != bucket && b in deadlines.keys ==> deadlines.keys[b] == buckets[b][0].deadline
      modifies deadlines
      ensures Valid()
    {
      hide Sorted;
      if bucket in buckets && buckets[bucket] != [] {
        deadlines.Insert(bucket, buckets[bucket][0].deadline);
      } else {
        var removed := deadlines.Remove(bucket);
      }
    }

    /** Appends when in order, otherwise inserts in front of the first later item. */
    method Push(bucket: B, value: T, deadline: nat)
      requires Valid()
      modifies this, deadlines
      ensures Valid()
      ensures buckets == old(buckets)[bucket := Inserted(old(Bucket(bucket)), Item(deadline, value))]
    {
      var queue := if bucket in buckets then buckets[bucket] else [];
      InsertedSorted(queue, Item(deadline, value));
      hide Sorted, Slot, Inserted;
      queue := InsertSorted(queue, Item(deadline, value));
      buckets := buckets[bucket := queue];
      RefreshBucketDeadline(bucket);
    }

    method PopBucketFront(bucket: B) returns (item: Item<T>)
      requires deadlines.Valid() && bucket in buckets && buckets[bucket] != []
      requires forall b :: b in buckets ==> Sorted(buckets[b])
      requires forall b :: b != bucket ==> (b in deadlines.keys <==> b in buckets && buckets[b] != [])
      requires forall b :: b != bucket && b in deadlines.keys ==> deadlines.keys[b] == buckets[b][0].deadline
      modifies this, deadlines
      ensures Valid() && item == old(buckets[bucket][0]) && buckets == old(buckets)[bucket := old(buckets[bucket])[1..]]
    {
      item := buckets[bucket][0];
      buckets := buckets[bucket := buckets[bucket][1..]];
      RefreshBucketDeadline(bucket);
    }

    /** Every queued item is due no earlier than the front of its bucket. */
    lemma FrontIsEarliest(bucket: B, i: nat)
      requires Valid() && bucket in buckets && i < |buckets[bucket]|
      ensures bucket in deadlines.keys && deadlines.keys[bucket] <= buckets[bucket][i].deadline
    {
    }

    /** Takes an item of the earliest deadline of all, if it has passed; nothing else changes. */
    method PopExpired(now: nat) returns (r: Option<Item<T>>, ghost bucket: Option<B>)
      requires Valid()
      modifies this, deadlines
      ensures Valid()
      ensures r.Some? <==> bucket.Some?
      ensures r.None? ==>
                && buckets == old(buckets)
                && forall b, i :: b in old(buckets) && 0 <= i < |old(buckets)[b]| ==> old(buckets)[b][i].deadline > now
      ensures r.Some? ==>
                && Taken(old(buckets), buckets, bucket.value, r.value) && r.value.deadline <= now
                && forall b, i :: b in old(buckets) && 0 <= i < |old(buckets)[b]| ==>
                     r.value.deadline <= old(buckets)[b][i].deadline
    {
      forall b, i | b in buckets && 0 <= i < |buckets[b]|
        ensures b in deadlines.keys && deadlines.keys[b] <= buckets[b][i].deadline
      {
        FrontIsEarliest(b, i);
      }
      hide Sorted;
      var key := deadlines.PopExpired(now);
      if key.None? {
        return None, None;
      }
      var item := PopBucketFront(key.value);
      return Some(item), key;
    }

    /** Takes the earliest item among the selected buckets. */
    method PopMatching(selected: B -> bool) returns (r: Option<Item<T>>, ghost bucket: Option<B>)
      requires Valid()
      modifies this, deadlines
      ensures Valid()
      ensures r.Some? <==> bucket.Some?
      ensures r.None? ==> buckets == old(buckets) && forall b :: b in buckets && selected(b) ==> buckets[b] == []
      ensures r.Some? ==>
                && selected(bucket.value) && Taken(old(buckets), buckets, bucket.value, r.value)
                && forall b, i :: b in old(buckets) && selected(b) && 0 <= i < |old(buckets)[b]| ==>
                     r.value.deadline <= old(buckets)[b][i].deadline
    {
      forall b, i | b in buckets && 0 <= i < |buckets[b]|
        ensures b in deadlines.keys && deadlines.keys[b] <= buckets[b][i].deadline
      {
        FrontIsEarliest(b, i);
      }
      hide Sorted;
      var key := deadlines.FirstMatching(selected);
      if key.None? {
        return None, None;
      }
      var item := PopBucketFront(key.value);
      return Some(item), key;
    }

    /** Keeps the chosen items of one bucket, in order. */
    method Retain(bucket: B, keep: T -> bool)
      requires Valid()
      modifies this, deadlines
      ensures Valid()
      ensures buckets == if bucket in old(buckets)
                         then old(buckets)[bucket := Filtered(old(buckets)[bucket], keep)] else old(buckets)
    {
      if bucket in buckets {
        FilteredSorted(buckets[bucket], keep);
        buckets := buckets[bucket := Filtered(buckets[bucket], keep)];
      }
      hide Sorted;
      RefreshBucketDeadline(bucket);
    }
  }

  /** Exactly the front item of one bucket is gone. */
  ghost predicate Taken<B(!new), T>(before: map<B, seq<Item<T>>>, after: map<B, seq<Item<T>>>, bucket: B, item: Item<T>) {
    && bucket in before && before[bucket] != [] && item == before[bucket][0]
    && after == before[bucket := before[bucket][1..]]
  }

  function Filtered<T>(queue: seq<Item<T>>, keep: T -> bool): (kept: seq<Item<T>>)
    ensures forall x :: x in kept ==> x in queue && keep(x.value)
  {
    if queue == [] then [] else
    (if keep(queue[0].value) then [queue[0]] else []) + Filtered(queue[1..], keep)
  }

  /** A kept item occurs as often as before, so nothing is lost or duplicated. */
  lemma {:induction false} FilteredCounts<T>(queue: seq<Item<T>>, keep: T -> bool, x: Item<T>)
    ensures multiset(Filtered(queue, keep))[x] == if keep(x.value) then multiset(queue)[x] else 0
  {
    if queue != [] {
      FilteredCounts(queue[1..], keep, x);
      assert queue == [queue[0]] + queue[1..];
    }
  }

  lemma {:induction false} FilteredSorted<T>(queue: seq<Item<T>>, keep: T -> bool)
    requires Sorted(queue)
    ensures Sorted(Filtered(queue, keep))
  {
    if queue != [] {
      var rest := Filtered(queue[1..], keep);
      FilteredSorted(queue[1..], keep);
      forall x | x in rest
        ensures queue[0].deadline <= x.deadline
      {
        assert x in queue[1..];
      }
      var all := Filtered(queue, keep);
      forall i, j | 0 <= i < j < |all|
        ensures all[i].deadline <= all[j].deadline
      {
        if keep(queue[0].value) {
          assert all[j] == rest[j - 1] && rest[j - 1] in rest;
        }
      }
    }
  }

  lemma SlotUnique<T>(queue: seq<Item<T>>, deadline: nat, i: nat)
    requires i <= |queue| && forall j :: 0 <= j < i ==> queue[j].deadline <= deadline
    requires i < |queue| ==> queue[i].deadline > deadline
    ensures Slot(queue, deadline) == i
  {
    assert Slot(queue, deadline) >= i;
  }

  lemma SlotAtEnd<T>(queue: seq<Item<T>>, item: Item<T>)
    requires Sorted(queue) && (queue != [] ==> queue[|queue| - 1].deadline <= item.deadline)
    ensures Inserted(queue, item) == queue + [item]
  {
    var deadline := item.deadline;
    forall j | 0 <= j < |queue|
      ensures queue[j].deadline <= deadline
    {
      assert queue[j].deadline <= queue[|queue| - 1].deadline;
    }
    SlotUnique(queue, deadline, |queue|);
    assert queue[..|queue|] == queue && queue[|queue|..] == [];
  }
}
