/** The bucket store of the rate limiter: a map and a hand-written doubly linked list, kept in
    step (internal/platform/security/ratelimit.go). Each public method runs under the lock. */
module RateLimiting {
  import opened Recency

  /** The token bucket of golang.org/x/time/rate; its arithmetic is not modelled. */
  class Limiter {
    constructor () {
    }
  }

  class BucketEntry {
    const limiter: Limiter
    const key: string
    var prev: BucketEntry?
    var next: BucketEntry?
    var lastSeen: int

    constructor (limiter: Limiter, key: string, now: int)
      ensures this.limiter == limiter && this.key == key && lastSeen == now
    {
      this.limiter, this.key := limiter, key;
      prev, next, lastSeen := null, null, now;
    }
  }

  class RateLimiter {
    const maxEntries: nat
    var buckets: map<string, BucketEntry>
    var head: BucketEntry?
    var tail: BucketEntry?
    /** The entries on the list, head first. */
    ghost var entries: seq<BucketEntry>
    /** All calls so far. */
    ghost var history: seq<Op<BucketEntry>>

    // ---------- the pointer structure ----------

    /** next from head and prev from tail read the same entries, each once. */
    ghost predicate Linked()
      reads this`head, this`tail, this`entries, entries`prev, entries`next
    {
      && (forall i, j :: 0 <= i < j < |entries| ==> entries[i] != entries[j])
      && (forall i {:trigger entries[i].next} :: 0 <= i < |entries| ==>
            entries[i].next == if i + 1 < |entries| then entries[i + 1] else null)
      && (forall i {:trigger entries[i].prev} :: 0 <= i < |entries| ==>
            entries[i].prev == if i > 0 then entries[i - 1] else null)
      && head == (if entries == [] then null else entries[0])
      && tail == (if entries == [] then null else entries[|entries| - 1])
    }

    /** Each map entry is on the list under its own key, and nothing else is. */
    ghost predicate Mapped()
      reads this`buckets, this`entries
    {
      InStep(buckets, entries)
    }

    static ghost predicate InStep(buckets: map<string, BucketEntry>, entries: seq<BucketEntry>) {
      && (forall k <- buckets :: buckets[k] in entries && buckets[k].key == k)
      && (forall e <- entries :: e.key in buckets && buckets[e.key] == e)
    }

    ghost predicate Valid()
      reads this, entries
    {
      && Linked() && Mapped() && |entries| <= maxEntries && 1 <= maxEntries
      && Slots() == Run(history, maxEntries)
    }

    ghost function Slots(): (r: seq<Slot<BucketEntry>>)
      reads this`entries, entries
      ensures |r| == |entries|
    {
      SlotsOf(entries)
    }

    static ghost function SlotsOf(l: seq<BucketEntry>): (r: seq<Slot<BucketEntry>>)
      reads l
      ensures |r| == |l|
    {
      seq(|l|, i requires 0 <= i < |l| reads l => Slot(l[i].key, l[i].lastSeen, l[i]))
    }

    constructor (maxEntries: nat)
      requires maxEntries >= 1
      ensures Valid() && history == [] && this.maxEntries == maxEntries
    {
      this.maxEntries := maxEntries;
      buckets, head, tail, entries, history := map[], null, null, [], [];
    }

    // ---------- list operations ----------

    method PushFront(entry: BucketEntry)
      requires Linked() && entry !in entries
      modifies this`head, this`tail, this`entries, entry`prev, entry`next, entries`prev
      ensures Linked() && entries == [entry] + old(entries)
      ensures Slots() == [Slot(entry.key, entry.lastSeen, entry)] + old(Slots())
    {
      entry.prev := null;
      entry.next := head;
      if head != null {
        head.prev := entry;
      }
      head := entry;
      if tail == null {
        tail := entry;
      }
      ghost var was := entries;
      entries := [entry] + was;
      forall i | 0 <= i < |entries|
        ensures entries[i].next == if i + 1 < |entries| then entries[i + 1] else null
        ensures entries[i].prev == if i > 0 then entries[i - 1] else null
      {
        assert i > 0 ==> entries[i] == was[i - 1];
        assert i > 1 ==> entries[i - 1] == was[i - 2];
        assert i + 1 < |entries| ==> entries[i + 1] == was[i];
      }
    }

    method UnlinkPointers(entry: BucketEntry, ghost i: nat)
      requires Linked() && i < |entries| && entries[i] == entry
      modifies this`head, this`tail, this`entries, entries`prev, entries`next
      ensures Linked() && entries == old(entries)[..i] + old(entries)[i + 1..]
      ensures entry.prev == null && entry.next == null
    {
      ghost var was := entries;
      assert entry.prev == if i > 0 then was[i - 1] else null;
      assert entry.next == if i + 1 < |was| then was[i + 1] else null;
      if entry.prev != null {
        entry.prev.next := entry.next;
      } else {
        head := entry.next;
      }
      if entry.next != null {
        entry.next.prev := entry.prev;
      } else {
        tail := entry.prev;
      }
      entry.prev := null;
      entry.next := null;
      entries := was[..i] + was[i + 1..];
      forall j | 0 <= j < |entries|
        ensures entries[j].next == if j + 1 < |entries| then entries[j + 1] else null
        ensures entries[j].prev == if j > 0 then entries[j - 1] else null
      {
        assert entries[j] == if j < i then was[j] else was[j + 1];
        assert j == i ==> i + 1 < |was|;
        assert j > 0 ==> entries[j - 1] == if j - 1 < i then was[j - 1] else was[j];
        assert j + 1 < |entries| ==> entries[j + 1] == if j + 1 < i then was[j + 1] else was[j + 2];
      }
    }

    method Unlink(entry: BucketEntry, ghost i: nat)
      requires Linked() && i < |entries| && entries[i] == entry
      modifies this`head, this`tail, this`entries, entries`prev, entries`next
      ensures Linked() && entries == old(entries)[..i] + old(entries)[i + 1..]
      ensures Slots() == old(Slots())[..i] + old(Slots())[i + 1..]
      ensures entry !in entries
    {
      UnlinkPointers(entry, i);
    }

    method MoveToFront(entry: BucketEntry, ghost i: nat)
      requires Linked() && i < |entries| && entries[i] == entry
      modifies this`head, this`tail, this`entries, entries`prev, entries`next
      ensures Linked() && entries == [entry] + (old(entries)[..i] + old(entries)[i + 1..])
      ensures Slots() == [Slot(entry.key, entry.lastSeen, entry)] + (old(Slots())[..i] + old(Slots())[i + 1..])
    {
      if head == entry {
        AlreadyInFront(i);
      } else {
        Unlink(entry, i);
        PushFront(entry);
      }
    }

    lemma AlreadyInFront(i: nat)
      requires Linked() && i < |entries| && entries[i] == head
      ensures entries == [entries[i]] + (entries[..i] + entries[i + 1..])
      ensures Slots() == [Slots()[i]] + (Slots()[..i] + Slots()[i + 1..])
    {
    }

    static lemma InStepAfterMove(buckets: map<string, BucketEntry>, was: seq<BucketEntry>, i: nat)
      requires i < |was| && InStep(buckets, was)
      ensures InStep(buckets, [was[i]] + (was[..i] + was[i + 1..]))
    {
      var now := [was[i]] + (was[..i] + was[i + 1..]);
      assert forall e :: e in was <==> e in now;
    }

    static lemma InStepAfterDrop(buckets: map<string, BucketEntry>, was: seq<BucketEntry>)
      requires was != [] && InStep(buckets, was)
      requires forall i, j :: 0 <= i < j < |was| ==> was[i] != was[j]
      ensures InStep(buckets - {was[|was| - 1].key}, was[..|was| - 1])
    {
      var n := |was| - 1;
      forall e <- was[..n]
        ensures e.key != was[n].key
      {
        assert e in was && was[n] in was;
      }
    }

    /** Unlinking the tail and deleting its key: the common part of eviction and sweep. */
    method DropTail()
      requires Linked() && Mapped() && entries != []
      modifies this`head, this`tail, this`entries, this`buckets, entries`prev, entries`next
      ensures Linked() && Mapped() && buckets.Keys <= old(buckets.Keys)
      ensures entries == old(entries)[..|old(entries)| - 1]
      ensures Slots() == old(Slots())[..|old(entries)| - 1]
    {
      var oldest := tail;
      ghost var was := entries;
      assert oldest == was[|was| - 1];
      InStepAfterDrop(buckets, was);
      Unlink(oldest, |entries| - 1);
      assert entries == was[..|was| - 1];
      buckets := buckets - {oldest.key};
    }

    method EvictOldest()
      requires Linked() && Mapped()
      modifies this`head, this`tail, this`entries, this`buckets, entries`prev, entries`next
      ensures Linked() && Mapped() && buckets.Keys <= old(buckets.Keys)
      ensures entries == if old(entries) == [] then [] else old(entries)[..|old(entries)| - 1]
      ensures Slots() == if old(entries) == [] then [] else old(Slots())[..|old(entries)| - 1]
    {
      if tail == null {
        return;
      }
      DropTail();
    }

    // ---------- map and list in step ----------

    lemma DistinctEntryKeys()
      requires Linked() && Mapped()
      ensures forall i, j :: 0 <= i < j < |entries| ==> entries[i].key != entries[j].key
    {
      forall i, j | 0 <= i < j < |entries|
        ensures entries[i].key != entries[j].key
      {
        assert entries[i] in entries && entries[j] in entries;
      }
    }

    lemma SlotsInStep()
      requires Linked() && Mapped()
      ensures Distinct(Keys(Slots()))
      ensures forall k :: Has(Slots(), k) <==> k in buckets
      ensures |buckets| == |entries|
    {
      DistinctEntryKeys();
      var keys := Keys(Slots());
      forall k
        ensures k in keys <==> k in buckets
      {
        if k in keys {
          var i :| 0 <= i < |keys| && keys[i] == k;
          assert entries[i] in entries;
        }
        if k in buckets {
          var i :| 0 <= i < |entries| && entries[i] == buckets[k];
          assert keys[i] == k;
        }
      }
      KeyCount(keys);
      assert KeySet(keys) == buckets.Keys;
    }

    // ---------- public steps ----------

    method Stamp(entry: BucketEntry, ghost i: nat, now: int)
      requires Linked() && i < |entries| && entries[i] == entry
      modifies entry`lastSeen
      ensures Slots() == old(Slots())[i := Slot(entry.key, now, entry)] && entry.lastSeen == now
      ensures Linked()
    {
      entry.lastSeen := now;
    }

    lemma HitSlots(i: nat, now: int)
      requires Linked() && Mapped() && i < |entries|
      ensures var stamped := Slots()[i := Slot(entries[i].key, now, entries[i])];
              Touch(Slots(), entries[i].key, now, entries[i], maxEntries) == [stamped[i]] + (stamped[..i] + stamped[i + 1..])
      ensures Has(Slots(), entries[i].key) && EntryOf(Slots(), entries[i].key) == entries[i]
    {
      SlotsInStep();
      RemoveAt(Slots(), i);
      TouchHit(Slots(), i, now, maxEntries);
    }

    /** bucket on a key that is present. */
    method Hit(entry: BucketEntry, ghost i: nat, now: int)
      requires Linked() && Mapped() && i < |entries| && entries[i] == entry
      modifies this`head, this`tail, this`entries, entries`prev, entries`next, entry`lastSeen
      ensures Linked() && Mapped() && |entries| == |old(entries)| && entries[0] == entry
      ensures var stamped := old(Slots())[i := Slot(entry.key, now, entry)];
              Slots() == [stamped[i]] + (stamped[..i] + stamped[i + 1..])
    {
      InStepAfterMove(buckets, entries, i);
      Stamp(entry, i, now);
      MoveToFront(entry, i);
    }

    method Insert(entry: BucketEntry)
      requires Linked() && Mapped() && entry !in entries && entry.key !in buckets
      modifies this`head, this`tail, this`entries, this`buckets, entry`prev, entry`next, entries`prev
      ensures Linked() && Mapped() && entries == [entry] + old(entries)
      ensures Slots() == [Slot(entry.key, entry.lastSeen, entry)] + old(Slots())
    {
      buckets := buckets[entry.key := entry];
      PushFront(entry);
    }

    method MakeRoom(ghost key: string)
      requires Linked() && Mapped() && 1 <= maxEntries && |entries| <= maxEntries && key !in buckets
      modifies this`head, this`tail, this`entries, this`buckets, entries`prev, entries`next
      ensures Linked() && Mapped() && buckets.Keys <= old(buckets.Keys)
      ensures |entries| < maxEntries && entries <= old(entries)
      ensures Slots() == Rest(old(Slots()), key, maxEntries)
    {
      SlotsInStep();
      assert |buckets| == |entries| && !Has(Slots(), key);
      if |buckets| >= maxEntries {
        EvictOldest();
      }
    }

    /** bucket on a key that is absent. */
    method Miss(key: string, now: int) returns (entry: BucketEntry)
      requires Linked() && Mapped() && 1 <= maxEntries && |entries| <= maxEntries && key !in buckets
      modifies this`head, this`tail, this`entries, this`buckets, entries`prev, entries`next
      ensures Linked() && Mapped() && |entries| <= maxEntries
      ensures entries != [] && entries[0] == entry && entry.key == key
      ensures fresh(entry) && fresh(entry.limiter)
      ensures Slots() == [Slot(key, now, entry)] + Rest(old(Slots()), key, maxEntries)
    {
      MakeRoom(key);
      var limiter := new Limiter();
      entry := new BucketEntry(limiter, key, now);
      Insert(entry);
    }

    /** The body of bucket under the lock. */
    method BucketLocked(key: string, now: int) returns (entry: BucketEntry)
      requires Linked() && Mapped() && 1 <= maxEntries && |entries| <= maxEntries
      modifies this`head, this`tail, this`entries, this`buckets, entries`prev, entries`next, entries`lastSeen
      ensures Linked() && Mapped() && |entries| <= maxEntries
      ensures entries != [] && entries[0] == entry && entry.key == key
      ensures if Has(old(Slots()), key) then entry == EntryOf(old(Slots()), key) else fresh(entry) && fresh(entry.limiter)
      ensures Slots() == Touch(old(Slots()), key, now, entry, maxEntries)
    {
      SlotsInStep();
      if key in buckets {
        entry := buckets[key];
        ghost var i: nat :| i < |entries| && entries[i] == entry;
        HitSlots(i, now);
        Hit(entry, i, now);
      } else {
        entry := Miss(key, now);
      }
    }

    ghost method Record(op: Op<BucketEntry>)
      requires Linked() && Mapped()
      modifies this`history
      ensures Linked() && Mapped() && Slots() == old(Slots()) && history == old(history) + [op]
    {
      history := history + [op];
    }

    /** bucket: the list follows the history, and with a clock that never went backwards the
        caller gets its former entry back exactly if the key was retained. */
    method Bucket(key: string, now: int) returns (entry: BucketEntry)
      requires Valid()
      modifies this`head, this`tail, this`entries, this`buckets, this`history,
               entries`prev, entries`next, entries`lastSeen
      ensures Valid() && history == old(history) + [Access(key, now, entry)]
      ensures head == entry && entry.key == key
      ensures Monotone(old(history)) && Accessed(old(history), key) ==>
                (entry == LastReturned(old(history), key, maxEntries) <==>
                 Retained(old(history), key, maxEntries))
      ensures !Accessed(old(history), key) ==> fresh(entry) && fresh(entry.limiter)
    {
      ghost var was := history;
      if Accessed(was, key) {
        LastReturnedIsCreated(was, key, maxEntries);
      }
      entry := BucketLocked(key, now);
      Record(Access(key, now, entry));
      RunAccess(was, key, now, entry, maxEntries);
      BucketOutcome(was, key, entry, maxEntries);
    }

    lemma SweptWithoutTail(slots: seq<Slot<BucketEntry>>, shorter: seq<Slot<BucketEntry>>, cutoff: int)
      requires slots != [] && slots[|slots| - 1].seen < cutoff && shorter == slots[..|slots| - 1]
      ensures Sweep(shorter, cutoff) == Sweep(slots, cutoff)
    {
      SweepStep(slots, cutoff);
    }

    method DropStaleTail(ghost cutoff: int)
      requires Linked() && Mapped() && tail != null && tail.lastSeen < cutoff
      modifies this`head, this`tail, this`entries, this`buckets, entries`prev, entries`next
      ensures Linked() && Mapped() && |entries| < |old(entries)| && entries <= old(entries)
      ensures Sweep(Slots(), cutoff) == Sweep(old(Slots()), cutoff)
    {
      ghost var slots := Slots();
      assert entries != [] && slots[|slots| - 1].seen == tail.lastSeen;
      DropTail();
      SweptWithoutTail(slots, Slots(), cutoff);
    }

    /** The loop of gcOnce under the lock. */
    method GcLocked(cutoff: int)
      requires Linked() && Mapped()
      modifies this`head, this`tail, this`entries, this`buckets, entries`prev, entries`next
      ensures Linked() && Mapped() && entries <= old(entries)
      ensures Slots() == Sweep(old(Slots()), cutoff)
    {
      ghost var slots := Slots();
      ghost var kept := Sweep(slots, cutoff);
      while tail != null && tail.lastSeen < cutoff
        invariant Linked() && Mapped()
        invariant Sweep(Slots(), cutoff) == kept
        invariant entries <= old(entries)
        decreases |entries|
      {
        DropStaleTail(cutoff);
      }
      assert tail != null ==> tail == entries[|entries| - 1];
    }

    /** gcOnce: with such a clock it removes exactly the entries last seen before the cutoff. */
    method GcOnce(cutoff: int)
      requires Valid()
      modifies this`head, this`tail, this`entries, this`buckets, this`history, entries`prev, entries`next
      ensures Valid() && history == old(history) + [Gc(cutoff)]
      ensures Monotone(old(history)) ==> Slots() == Fresh(old(Slots()), cutoff)
    {
      ghost var was := history;
      GcLocked(cutoff);
      Record(Gc(cutoff));
      RunGc(was, cutoff, maxEntries);
      if Monotone(was) {
        RunNewestFirst(was, maxEntries);
        SweepIsFilter(Run(was, maxEntries), cutoff);
      }
    }
  }
}
