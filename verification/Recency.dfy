/** The rate limiter's bucket store seen from outside: which keys are kept, in which order, and
    whose limiter state survives, over whole runs (internal/platform/security/ratelimit.go). */
module Recency {
  import opened Sets

  /** A kept key, when it was last seen, and its bucket entry. */
  datatype Slot<E> = Slot(key: string, seen: int, entry: E)

  function Keys<E>(l: seq<Slot<E>>): (r: seq<string>)
    ensures |r| == |l| && forall i :: 0 <= i < |l| ==> r[i] == l[i].key
  {
    seq(|l|, i requires 0 <= i < |l| => l[i].key)
  }

  predicate Has<E>(l: seq<Slot<E>>, key: string) {
    key in Keys(l)
  }

  function EntryOf<E>(l: seq<Slot<E>>, key: string): (r: E)
    requires Has(l, key)
    ensures exists i :: 0 <= i < |l| && l[i].key == key && l[i].entry == r
  {
    assert Keys(l)[1..] == Keys(l[1..]);
    if l[0].key == key then l[0].entry else EntryOf(l[1..], key)
  }

  function Remove<E>(l: seq<Slot<E>>, key: string): seq<Slot<E>> {
    if l == [] then []
    else if l[0].key == key then Remove(l[1..], key)
    else [l[0]] + Remove(l[1..], key)
  }

  /** What bucket(key) returns, created being the entry it would create. */
  function Returned<E>(l: seq<Slot<E>>, key: string, created: E): E {
    if Has(l, key) then EntryOf(l, key) else created
  }

  /** The list after bucket(key): most recently used first, the oldest evicted when full. */
  function Touch<E>(l: seq<Slot<E>>, key: string, now: int, created: E, cap: nat): seq<Slot<E>> {
    [Slot(key, now, Returned(l, key, created))] + Rest(l, key, cap)
  }

  /** What stays behind the key that is moved or put in front. */
  function Rest<E>(l: seq<Slot<E>>, key: string, cap: nat): seq<Slot<E>> {
    if Has(l, key) then Remove(l, key)
    else if |l| >= cap && l != [] then l[..|l| - 1]
    else l
  }

  /** The list after gcOnce(cutoff), which pops stale tails and stops at the first fresh one. */
  function Sweep<E>(l: seq<Slot<E>>, cutoff: int): seq<Slot<E>> {
    if l != [] && l[|l| - 1].seen < cutoff then Sweep(l[..|l| - 1], cutoff) else l
  }

  datatype Op<E> =
    | Access(key: string, now: int, created: E)
    | Gc(cutoff: int)

  function Run<E>(ops: seq<Op<E>>, cap: nat): seq<Slot<E>> {
    if ops == [] then [] else
      var l := Run(ops[..|ops| - 1], cap);
      match ops[|ops| - 1]
      case Access(key, now, created) => Touch(l, key, now, created, cap)
      case Gc(cutoff) => Sweep(l, cutoff)
  }

  // ---------- what a run is compared with: the history alone ----------

  function Without(keys: seq<string>, key: string): seq<string> {
    if keys == [] then []
    else if keys[0] == key then Without(keys[1..], key)
    else [keys[0]] + Without(keys[1..], key)
  }

  /** The distinct keys accessed, most recently used first. */
  function MostRecent<E>(ops: seq<Op<E>>): seq<string> {
    if ops == [] then [] else
      var keys := MostRecent(ops[..|ops| - 1]);
      match ops[|ops| - 1]
      case Access(key, _, _) => [key] + Without(keys, key)
      case Gc(_) => keys
  }

  ghost predicate Accessed<E>(ops: seq<Op<E>>, key: string) {
    exists op <- ops :: op.Access? && op.key == key
  }

  /** The keys accessed after the last access of key. */
  function OthersSince<E>(ops: seq<Op<E>>, key: string): set<string> {
    if ops == [] then {} else
      var n := |ops| - 1;
      match ops[n]
      case Access(k, _, _) => if k == key then {} else OthersSince(ops[..n], key) + {k}
      case Gc(_) => OthersSince(ops[..n], key)
  }

  /** When key was last accessed. */
  function LastTime<E>(ops: seq<Op<E>>, key: string): int {
    if ops == [] then 0 else
      var n := |ops| - 1;
      if ops[n].Access? && ops[n].key == key then ops[n].now else LastTime(ops[..n], key)
  }

  /** What bucket(key) returned at its last call. */
  function LastReturned<E>(ops: seq<Op<E>>, key: string, cap: nat): E
    requires Accessed(ops, key)
  {
    var n := |ops| - 1;
    if ops[n].Access? && ops[n].key == key then Returned(Run(ops[..n], cap), key, ops[n].created)
    else
      assert ops == ops[..n] + [ops[n]];
      LastReturned(ops[..n], key, cap)
  }

  /** Some sweep since key's last access had a cutoff above the time of that access. */
  predicate SweptSince<E>(ops: seq<Op<E>>, key: string) {
    ops != [] &&
    var n := |ops| - 1;
    match ops[n]
    case Access(k, _, _) => k != key && SweptSince(ops[..n], key)
    case Gc(cutoff) => cutoff > LastTime(ops[..n], key) || SweptSince(ops[..n], key)
  }

  /** The retention condition: accessed at all, by fewer than cap other keys since, and not swept. */
  ghost predicate Retained<E>(ops: seq<Op<E>>, key: string, cap: nat) {
    Accessed(ops, key) && |OthersSince(ops, key)| < cap && !SweptSince(ops, key)
  }

  /** The clock does not go backwards. */
  ghost predicate Monotone<E>(ops: seq<Op<E>>) {
    forall i, j :: 0 <= i < j < |ops| && ops[i].Access? && ops[j].Access? ==> ops[i].now <= ops[j].now
  }

  // ---------- lists of distinct keys ----------

  ghost predicate Distinct(keys: seq<string>) {
    forall i, j :: 0 <= i < j < |keys| ==> keys[i] != keys[j]
  }

  lemma {:induction false} WithoutMembers(keys: seq<string>, key: string)
    ensures forall k :: k in Without(keys, key) <==> k in keys && k != key
    ensures key !in keys ==> Without(keys, key) == keys
  {
    if keys != [] {
      WithoutMembers(keys[1..], key);
      assert keys == [keys[0]] + keys[1..];
    }
  }

  lemma {:induction false} WithoutExact(keys: seq<string>, key: string)
    requires Distinct(keys)
    ensures Distinct(Without(keys, key))
    ensures forall k :: k in Without(keys, key) <==> k in keys && k != key
    ensures |Without(keys, key)| == if key in keys then |keys| - 1 else |keys|
    ensures key !in keys ==> Without(keys, key) == keys
  {
    WithoutMembers(keys, key);
    if keys != [] {
      var rest := keys[1..];
      HeadNotInTail(keys);
      WithoutExact(rest, key);
      if keys[0] != key {
        DistinctInFront(keys[0], Without(rest, key));
      }
    }
  }

  lemma HeadNotInTail(keys: seq<string>)
    requires Distinct(keys) && keys != []
    ensures Distinct(keys[1..]) && keys[0] !in keys[1..]
    ensures forall k :: k in keys <==> k == keys[0] || k in keys[1..]
  {
    assert keys == [keys[0]] + keys[1..];
  }

  lemma DistinctInFront(key: string, keys: seq<string>)
    requires Distinct(keys) && key !in keys
    ensures Distinct([key] + keys)
  {
  }

  lemma {:induction false} WithoutPrefix(p: seq<string>, keys: seq<string>, key: string)
    requires p <= keys && Distinct(keys)
    ensures Without(p, key) <= Without(keys, key)
    ensures key !in p ==> p <= Without(keys, key)
  {
    if p != [] {
      assert p[1..] <= keys[1..];
      WithoutPrefix(p[1..], keys[1..], key);
    }
    WithoutMembers(p, key);
  }

  lemma {:induction false} KeysOfRemove<E>(l: seq<Slot<E>>, key: string)
    ensures Keys(Remove(l, key)) == Without(Keys(l), key)
  {
    if l != [] {
      KeysOfRemove(l[1..], key);
      assert Keys(l)[1..] == Keys(l[1..]);
    }
  }

  /** With distinct keys, removing a key cuts out the one slot that has it. */
  lemma {:induction false} RemoveAt<E>(l: seq<Slot<E>>, i: nat)
    requires i < |l| && Distinct(Keys(l))
    ensures Has(l, l[i].key) && EntryOf(l, l[i].key) == l[i].entry
    ensures Remove(l, l[i].key) == l[..i] + l[i + 1..]
  {
    assert Keys(l)[i] == l[i].key;
    assert Keys(l)[1..] == Keys(l[1..]);
    HeadNotInTail(Keys(l));
    if i == 0 {
      KeysOfRemove(l[1..], l[0].key);
      RemoveAbsent(l[1..], l[0].key);
    } else {
      assert Keys(l)[0] != Keys(l)[i];
      RemoveAt(l[1..], i - 1);
      assert l[..i] + l[i + 1..] == [l[0]] + (l[1..][..i - 1] + l[1..][i..]);
    }
  }

  lemma SweepStep<E>(l: seq<Slot<E>>, cutoff: int)
    requires l != [] && l[|l| - 1].seen < cutoff
    ensures Sweep(l, cutoff) == Sweep(l[..|l| - 1], cutoff)
  {
  }

  /** Touching a kept key: its slot is stamped and moved to the front. */
  lemma TouchHit<E>(l: seq<Slot<E>>, i: nat, now: int, cap: nat)
    requires i < |l| && Distinct(Keys(l))
    ensures var stamped := l[i := Slot(l[i].key, now, l[i].entry)];
            Touch(l, l[i].key, now, l[i].entry, cap) == [stamped[i]] + (stamped[..i] + stamped[i + 1..])
  {
    RemoveAt(l, i);
    var stamped := l[i := Slot(l[i].key, now, l[i].entry)];
    assert stamped[..i] == l[..i] && stamped[i + 1..] == l[i + 1..];
  }

  lemma {:induction false} RemoveAbsent<E>(l: seq<Slot<E>>, key: string)
    requires !Has(l, key)
    ensures Remove(l, key) == l
  {
    if l != [] {
      assert Keys(l)[0] == l[0].key && Keys(l)[1..] == Keys(l[1..]);
      RemoveAbsent(l[1..], key);
    }
  }

  lemma {:induction false} SweepIsPrefix<E>(l: seq<Slot<E>>, cutoff: int)
    ensures Sweep(l, cutoff) <= l
  {
    if l != [] && l[|l| - 1].seen < cutoff {
      SweepIsPrefix(l[..|l| - 1], cutoff);
    }
  }

  lemma {:induction false} MostRecentDistinct<E>(ops: seq<Op<E>>)
    ensures Distinct(MostRecent(ops))
    ensures forall k :: k in MostRecent(ops) <==> Accessed(ops, k)
  {
    if ops != [] {
      var n := |ops| - 1;
      MostRecentDistinct(ops[..n]);
      assert ops == ops[..n] + [ops[n]];
      if ops[n].Access? {
        WithoutExact(MostRecent(ops[..n]), ops[n].key);
      }
      forall k
        ensures k in MostRecent(ops) <==> Accessed(ops, k)
      {
        if Accessed(ops, k) {
          var op :| op in ops && op.Access? && op.key == k;
          assert op in ops[..n] || op == ops[n];
        }
      }
    }
  }

  // ---------- the list is a prefix of the keys by recency ----------

  lemma RestIsPrefix<E>(l: seq<Slot<E>>, keys: seq<string>, key: string, cap: nat)
    requires Keys(l) <= keys && Distinct(keys)
    ensures Keys(Rest(l, key, cap)) <= Without(keys, key)
  {
    if Has(l, key) {
      WithoutPrefix(Keys(l), keys, key);
      KeysOfRemove(l, key);
    } else {
      var rest := Rest(l, key, cap);
      assert Keys(rest) <= Keys(l) && key !in Keys(rest);
      WithoutPrefix(Keys(rest), keys, key);
    }
  }

  lemma SweepKeys<E>(l: seq<Slot<E>>, cutoff: int)
    ensures Keys(Sweep(l, cutoff)) <= Keys(l)
  {
    SweepIsPrefix(l, cutoff);
  }

  /** Whatever was accessed and swept, the list read from the head is a prefix of the distinct
      keys of the history in order of most recent use. */
  lemma {:induction false} RunIsPrefix<E>(ops: seq<Op<E>>, cap: nat)
    ensures Keys(Run(ops, cap)) <= MostRecent(ops)
  {
    if ops != [] {
      var n := |ops| - 1;
      var l := Run(ops[..n], cap);
      RunIsPrefix(ops[..n], cap);
      MostRecentDistinct(ops[..n]);
      match ops[n]
      case Access(key, now, created) =>
        RestIsPrefix(l, MostRecent(ops[..n]), key, cap);
        assert Keys(Run(ops, cap)) == [key] + Keys(Rest(l, key, cap));
      case Gc(cutoff) =>
        SweepKeys(l, cutoff);
    }
  }

  lemma RunDistinct<E>(ops: seq<Op<E>>, cap: nat)
    ensures Distinct(Keys(Run(ops, cap)))
  {
    RunIsPrefix(ops, cap);
    MostRecentDistinct(ops);
  }

  lemma {:induction false} RunBounded<E>(ops: seq<Op<E>>, cap: nat)
    requires cap >= 1
    ensures |Run(ops, cap)| <= cap
  {
    if ops != [] {
      var n := |ops| - 1;
      var l := Run(ops[..n], cap);
      RunBounded(ops[..n], cap);
      RunDistinct(ops[..n], cap);
      match ops[n]
      case Access(key, _, _) =>
        KeysOfRemove(l, key);
        WithoutExact(Keys(l), key);
      case Gc(cutoff) => SweepIsPrefix(l, cutoff);
    }
  }

  /** Without sweeps the list holds as many keys as there are, up to the capacity. */
  lemma {:induction false} RunLength<E>(ops: seq<Op<E>>, cap: nat)
    requires cap >= 1 && forall op <- ops :: op.Access?
    ensures |Run(ops, cap)| == if |MostRecent(ops)| < cap then |MostRecent(ops)| else cap
  {
    if ops != [] {
      var n := |ops| - 1;
      var l, keys, key := Run(ops[..n], cap), MostRecent(ops[..n]), ops[n].key;
      assert ops[n] in ops && forall op <- ops[..n] :: op in ops;
      RunLength(ops[..n], cap);
      RunIsPrefix(ops[..n], cap);
      MostRecentDistinct(ops[..n]);
      WithoutExact(keys, key);
      WithoutExact(Keys(l), key);
      KeysOfRemove(l, key);
      if |keys| <= cap {
        assert Keys(l) == keys;
      }
    }
  }

  // ---------- order by time, and what a sweep removes ----------

  ghost predicate NewestFirst<E>(l: seq<Slot<E>>) {
    forall i, j :: 0 <= i < j < |l| ==> l[i].seen >= l[j].seen
  }

  function Fresh<E>(l: seq<Slot<E>>, cutoff: int): seq<Slot<E>> {
    if l == [] then [] else
      Fresh(l[..|l| - 1], cutoff) + (if l[|l| - 1].seen < cutoff then [] else [l[|l| - 1]])
  }

  lemma {:induction false} AllFresh<E>(l: seq<Slot<E>>, cutoff: int)
    requires forall s <- l :: s.seen >= cutoff
    ensures Fresh(l, cutoff) == l
  {
    if l != [] {
      var k := |l| - 1;
      assert l == l[..k] + [l[k]];
      AllFresh(l[..k], cutoff);
    }
  }

  /** On a list ordered by time, stopping at the first fresh tail removes exactly the entries
      last seen before the cutoff, and keeps the order of the rest. */
  lemma {:induction false} SweepIsFilter<E>(l: seq<Slot<E>>, cutoff: int)
    requires NewestFirst(l)
    ensures Sweep(l, cutoff) == Fresh(l, cutoff)
  {
    if l != [] {
      if l[|l| - 1].seen < cutoff {
        SweepIsFilter(l[..|l| - 1], cutoff);
      } else {
        AllFresh(l, cutoff);
      }
    }
  }

  /** Each kept slot carries the time of its key's last access. */
  lemma {:induction false} SeenIsLastTime<E>(ops: seq<Op<E>>, cap: nat)
    ensures forall s <- Run(ops, cap) :: Accessed(ops, s.key) && s.seen == LastTime(ops, s.key)
  {
    if ops != [] {
      var n := |ops| - 1;
      var l := Run(ops[..n], cap);
      SeenIsLastTime(ops[..n], cap);
      assert ops == ops[..n] + [ops[n]];
      assert forall k :: Accessed(ops[..n], k) ==> Accessed(ops, k);
      match ops[n]
      case Access(key, _, _) =>
        assert ops[n] in ops && Accessed(ops, key);
        RestMembers(l, key, cap);
        forall s <- Run(ops, cap)
          ensures Accessed(ops, s.key) && s.seen == LastTime(ops, s.key)
        {
          assert s == Run(ops, cap)[0] || s in Rest(l, key, cap);
        }
      case Gc(cutoff) =>
        SweepIsPrefix(l, cutoff);
    }
  }

  lemma KeyOfMember<E>(l: seq<Slot<E>>, s: Slot<E>)
    requires s in l
    ensures Has(l, s.key)
  {
    var i :| 0 <= i < |l| && l[i] == s;
    assert Keys(l)[i] == s.key;
  }

  lemma {:induction false} RemoveMembers<E>(l: seq<Slot<E>>, key: string)
    ensures forall s <- Remove(l, key) :: s in l && s.key != key
  {
    if l != [] {
      RemoveMembers(l[1..], key);
    }
  }

  lemma RestMembers<E>(l: seq<Slot<E>>, key: string, cap: nat)
    ensures forall s <- Rest(l, key, cap) :: s in l && s.key != key
  {
    RemoveMembers(l, key);
    if !Has(l, key) {
      forall s <- l
        ensures s.key != key
      {
        KeyOfMember(l, s);
      }
    }
  }

  lemma NewestInFront<E>(s: Slot<E>, l: seq<Slot<E>>)
    requires NewestFirst(l) && forall t <- l :: t.seen <= s.seen
    ensures NewestFirst([s] + l)
  {
  }

  lemma {:induction false} RemoveKeepsOrder<E>(l: seq<Slot<E>>, key: string)
    requires NewestFirst(l)
    ensures NewestFirst(Remove(l, key))
  {
    if l != [] {
      var rest := l[1..];
      RemoveKeepsOrder(rest, key);
      RemoveMembers(rest, key);
      if l[0].key != key {
        forall t <- Remove(rest, key)
          ensures t.seen <= l[0].seen
        {
          var i :| 0 <= i < |rest| && rest[i] == t;
          assert l[i + 1] == t;
        }
        NewestInFront(l[0], Remove(rest, key));
      }
    }
  }

  lemma {:induction false} LastTimeIsSome<E>(ops: seq<Op<E>>, key: string)
    requires Accessed(ops, key)
    ensures exists op <- ops :: op.Access? && op.key == key && op.now == LastTime(ops, key)
  {
    var n := |ops| - 1;
    assert ops == ops[..n] + [ops[n]];
    if !(ops[n].Access? && ops[n].key == key) {
      LastTimeIsSome(ops[..n], key);
    } else {
      assert ops[n] in ops;
    }
  }

  lemma KeptNotLater<E>(ops: seq<Op<E>>, now: int, cap: nat)
    requires forall op <- ops :: op.Access? ==> op.now <= now
    ensures forall s <- Run(ops, cap) :: s.seen <= now
  {
    SeenIsLastTime(ops, cap);
    forall s <- Run(ops, cap)
      ensures s.seen <= now
    {
      LastTimeIsSome(ops, s.key);
    }
  }

  /** With a clock that does not go backwards, lastSeen is non-increasing from head to tail. */
  lemma {:induction false} RunNewestFirst<E>(ops: seq<Op<E>>, cap: nat)
    requires Monotone(ops)
    ensures NewestFirst(Run(ops, cap))
  {
    if ops != [] {
      var n := |ops| - 1;
      var l := Run(ops[..n], cap);
      RunNewestFirst(ops[..n], cap);
      match ops[n]
      case Access(key, now, created) =>
        KeptNotLater(ops[..n], now, cap);
        RemoveKeepsOrder(l, key);
        RestMembers(l, key, cap);
        NewestInFront(Run(ops, cap)[0], Rest(l, key, cap));
      case Gc(cutoff) =>
        SweepIsPrefix(l, cutoff);
    }
  }

  // ---------- retention ----------

  ghost function KeySet(keys: seq<string>): set<string> {
    set k <- keys
  }

  lemma {:induction false} KeyCount(keys: seq<string>)
    requires Distinct(keys)
    ensures |KeySet(keys)| == |keys|
  {
    if keys != [] {
      HeadNotInTail(keys);
      KeyCount(keys[1..]);
      assert KeySet(keys) == KeySet(keys[1..]) + {keys[0]};
    }
  }

  lemma OthersNotSelf<E>(ops: seq<Op<E>>, key: string)
    ensures key !in OthersSince(ops, key)
  {
    if ops != [] {
      OthersNotSelf(ops[..|ops| - 1], key);
    }
  }

  /** In the keys by recency, exactly the others accessed since stand in front of a key. */
  lemma {:induction false} OthersInFront<E>(ops: seq<Op<E>>, i: nat)
    requires i < |MostRecent(ops)|
    ensures KeySet(MostRecent(ops)[..i]) == OthersSince(ops, MostRecent(ops)[i])
  {
    var n := |ops| - 1;
    var keys := MostRecent(ops[..n]);
    var k := MostRecent(ops)[i];
    MostRecentDistinct(ops[..n]);
    match ops[n]
    case Gc(_) => OthersInFront(ops[..n], i);
    case Access(key, _, _) =>
      if i > 0 {
        var j := WithoutIndex(keys, key, i - 1);
        OthersInFront(ops[..n], j);
        assert MostRecent(ops)[..i] == [key] + Without(keys, key)[..i - 1];
        assert KeySet(MostRecent(ops)[..i]) == KeySet(keys[..j]) + {key};
      }
  }

  /** Where an element of the shortened sequence stood before, with the same others in front. */
  lemma {:induction false} WithoutIndex(keys: seq<string>, key: string, i: nat) returns (j: nat)
    requires Distinct(keys) && i < |Without(keys, key)|
    ensures j < |keys| && keys[j] == Without(keys, key)[i] && keys[j] != key
    ensures KeySet(Without(keys, key)[..i]) + {key} == KeySet(keys[..j]) + {key}
  {
    HeadNotInTail(keys);
    if keys[0] == key {
      assert Without(keys, key) == Without(keys[1..], key);
      j := WithoutIndex(keys[1..], key, i);
      j := j + 1;
      assert keys[..j] == [keys[0]] + keys[1..][..j - 1];
      assert KeySet(keys[..j]) == KeySet(keys[1..][..j - 1]) + {keys[0]};
    } else if i == 0 {
      j := 0;
    } else {
      j := WithoutIndex(keys[1..], key, i - 1);
      j := j + 1;
      assert keys[..j] == [keys[0]] + keys[1..][..j - 1];
      assert Without(keys, key)[..i] == [keys[0]] + Without(keys[1..], key)[..i - 1];
      assert KeySet(keys[..j]) == KeySet(keys[1..][..j - 1]) + {keys[0]};
      assert KeySet(Without(keys, key)[..i]) == KeySet(Without(keys[1..], key)[..i - 1]) + {keys[0]};
    }
  }

  /** A kept key stands behind exactly the other keys accessed since its own last access. */
  lemma PositionOf<E>(ops: seq<Op<E>>, key: string, cap: nat) returns (p: nat)
    requires Has(Run(ops, cap), key)
    ensures p < |Run(ops, cap)| && Run(ops, cap)[p].key == key
    ensures KeySet(Keys(Run(ops, cap))[..p]) == OthersSince(ops, key) && |OthersSince(ops, key)| == p
  {
    var keys := Keys(Run(ops, cap));
    p :| 0 <= p < |keys| && keys[p] == key;
    RunIsPrefix(ops, cap);
    MostRecentDistinct(ops);
    assert keys[..p] == MostRecent(ops)[..p];
    OthersInFront(ops, p);
    KeyCount(keys[..p]);
  }

  /** One access of another key that is kept evicts nothing, and there was room for both. */
  lemma KeptOtherRetains<E>(ops: seq<Op<E>>, other: string, key: string, cap: nat)
    requires cap >= 1 && other != key && Has(Run(ops, cap), key) && Has(Run(ops, cap), other)
    ensures Has(Rest(Run(ops, cap), other, cap), key)
    ensures |OthersSince(ops, key) + {other}| < cap
  {
    var l := Run(ops, cap);
    var keys := Keys(l);
    RunDistinct(ops, cap);
    RunBounded(ops, cap);
    var p := PositionOf(ops, key, cap);
    KeyCount(keys);
    KeysOfRemove(l, other);
    WithoutMembers(keys, other);
    SubsetSize(OthersSince(ops, key) + {other}, KeySet(keys) - {key});
  }

  /** One that is not kept evicts the last key if the list is full. */
  lemma NewOtherRetains<E>(ops: seq<Op<E>>, other: string, key: string, cap: nat)
    requires cap >= 1 && other != key && Has(Run(ops, cap), key) && !Has(Run(ops, cap), other)
    ensures Has(Rest(Run(ops, cap), other, cap), key) <==> |OthersSince(ops, key) + {other}| < cap
  {
    var l := Run(ops, cap);
    var keys := Keys(l);
    RunDistinct(ops, cap);
    RunBounded(ops, cap);
    var p := PositionOf(ops, key, cap);
    assert other !in KeySet(keys[..p]);
    assert |OthersSince(ops, key) + {other}| == p + 1;
    var rest := Rest(l, other, cap);
    assert Keys(rest) == keys[..|rest|];
    assert Has(rest, key) <==> p < |rest|;
  }

  /** One access of another key keeps the correspondence. */
  lemma OtherAccessRetains<E>(ops: seq<Op<E>>, other: string, key: string, cap: nat)
    requires cap >= 1 && other != key
    requires Has(Run(ops, cap), key) <==> Retained(ops, key, cap)
    ensures Has(Rest(Run(ops, cap), other, cap), key) <==>
            Retained(ops, key, cap) && |OthersSince(ops, key) + {other}| < cap
  {
    var l := Run(ops, cap);
    if !Has(l, key) {
      RunDistinct(ops, cap);
      RestIsPrefix(l, Keys(l), other, cap);
      WithoutMembers(Keys(l), other);
    } else if Has(l, other) {
      KeptOtherRetains(ops, other, key, cap);
    } else {
      NewOtherRetains(ops, other, key, cap);
    }
  }

  lemma {:induction false} FreshKeys<E>(l: seq<Slot<E>>, cutoff: int, key: string)
    ensures Has(Fresh(l, cutoff), key) <==> exists i :: 0 <= i < |l| && l[i].key == key && l[i].seen >= cutoff
  {
    if l != [] {
      var n := |l| - 1;
      FreshKeys(l[..n], cutoff, key);
      assert Keys(Fresh(l, cutoff)) ==
             Keys(Fresh(l[..n], cutoff)) + (if l[n].seen < cutoff then [] else [l[n].key]);
    }
  }

  /** One sweep keeps it too, because the list is ordered by time. */
  lemma SweepRetains<E>(ops: seq<Op<E>>, cutoff: int, key: string, cap: nat)
    requires Monotone(ops)
    requires Has(Run(ops, cap), key) <==> Retained(ops, key, cap)
    ensures Has(Sweep(Run(ops, cap), cutoff), key) <==>
            Retained(ops, key, cap) && !(cutoff > LastTime(ops, key))
  {
    var l := Run(ops, cap);
    RunNewestFirst(ops, cap);
    SweepIsFilter(l, cutoff);
    FreshKeys(l, cutoff, key);
    SeenIsLastTime(ops, cap);
    assert forall i :: 0 <= i < |l| ==> l[i] in l && Keys(l)[i] == l[i].key;
  }

  /** A key is kept exactly if fewer than cap others were accessed since its last access and no
      sweep since had a cutoff above that time. */
  lemma {:induction false} KeptExactly<E>(ops: seq<Op<E>>, key: string, cap: nat)
    requires cap >= 1 && Monotone(ops)
    ensures Has(Run(ops, cap), key) <==> Retained(ops, key, cap)
  {
    if ops != [] {
      var n := |ops| - 1;
      assert ops == ops[..n] + [ops[n]];
      KeptExactly(ops[..n], key, cap);
      assert Accessed(ops, key) <==> Accessed(ops[..n], key) || (ops[n].Access? && ops[n].key == key);
      match ops[n]
      case Access(other, now, created) =>
        assert Keys(Run(ops, cap)) == [other] + Keys(Rest(Run(ops[..n], cap), other, cap));
        if other != key {
          OtherAccessRetains(ops[..n], other, key, cap);
          SubsetSize(OthersSince(ops[..n], key), OthersSince(ops, key));
        } else {
          assert ops[n] in ops && OthersSince(ops, key) == {} && !SweptSince(ops, key);
        }
      case Gc(cutoff) =>
        SweepRetains(ops[..n], cutoff, key, cap);
    }
  }

  /** As long as a key is kept, so is the entry its last access returned. */
  lemma {:induction false} EntryIsLastReturned<E>(ops: seq<Op<E>>, key: string, cap: nat)
    requires Has(Run(ops, cap), key)
    ensures Accessed(ops, key)
    ensures EntryOf(Run(ops, cap), key) == LastReturned(ops, key, cap)
  {
    var n := |ops| - 1;
    assert ops == ops[..n] + [ops[n]];
    var l := Run(ops[..n], cap);
    match ops[n]
    case Access(other, now, created) =>
      if other == key {
        assert ops[n] in ops;
      } else {
        var rest := Rest(l, other, cap);
        assert Keys(Run(ops, cap)) == [other] + Keys(rest);
        assert Run(ops, cap)[1..] == rest;
        EntryOfRest(l, other, key, cap);
        EntryIsLastReturned(ops[..n], key, cap);
        assert forall op <- ops[..n] :: op in ops;
      }
    case Gc(cutoff) =>
      SweepIsPrefix(l, cutoff);
      EntryOfPrefix(Sweep(l, cutoff), l, key);
      EntryIsLastReturned(ops[..n], key, cap);
      assert forall op <- ops[..n] :: op in ops;
  }

  lemma EntryOfRest<E>(l: seq<Slot<E>>, other: string, key: string, cap: nat)
    requires other != key && Has(Rest(l, other, cap), key)
    ensures Has(l, key) && EntryOf(l, key) == EntryOf(Rest(l, other, cap), key)
  {
    if Has(l, other) {
      EntryOfRemove(l, other, key);
    } else {
      EntryOfPrefix(Rest(l, other, cap), l, key);
    }
  }

  lemma {:induction false} EntryOfPrefix<E>(p: seq<Slot<E>>, l: seq<Slot<E>>, key: string)
    requires p <= l && Has(p, key)
    ensures Has(l, key) && EntryOf(l, key) == EntryOf(p, key)
  {
    assert Keys(p) <= Keys(l);
    if p[0].key != key {
      assert Keys(p)[1..] == Keys(p[1..]) && Keys(l)[1..] == Keys(l[1..]);
      EntryOfPrefix(p[1..], l[1..], key);
    }
  }

  lemma {:induction false} EntryOfRemove<E>(l: seq<Slot<E>>, other: string, key: string)
    requires other != key && Has(Remove(l, other), key)
    ensures Has(l, key) && EntryOf(l, key) == EntryOf(Remove(l, other), key)
  {
    KeysOfRemove(l, other);
    WithoutMembers(Keys(l), other);
    if l[0].key == key {
      assert Remove(l, other)[0] == l[0];
    } else {
      RemoveTail(l, other, key);
      EntryOfRemove(l[1..], other, key);
    }
  }

  lemma RemoveTail<E>(l: seq<Slot<E>>, other: string, key: string)
    requires l != [] && l[0].key != key && Has(l, key) && Has(Remove(l, other), key)
    ensures Has(l[1..], key) && EntryOf(l, key) == EntryOf(l[1..], key)
    ensures Has(Remove(l[1..], other), key)
    ensures EntryOf(Remove(l, other), key) == EntryOf(Remove(l[1..], other), key)
  {
    assert Keys(l)[1..] == Keys(l[1..]);
    var rest := Remove(l[1..], other);
    if l[0].key != other {
      assert Remove(l, other) == [l[0]] + rest && Remove(l, other)[1..] == rest;
      assert Keys(Remove(l, other))[1..] == Keys(rest);
    } else {
      assert Remove(l, other) == rest;
    }
  }

  /** bucket(key) hands out the very same entry as at its last call, so that the limiter state
      is not reset, exactly if the key was retained. */
  lemma SameEntryExactlyIfRetained<E>(ops: seq<Op<E>>, key: string, created: E, cap: nat)
    requires cap >= 1 && Monotone(ops) && Accessed(ops, key)
    requires created != LastReturned(ops, key, cap)
    ensures Returned(Run(ops, cap), key, created) == LastReturned(ops, key, cap) <==> Retained(ops, key, cap)
  {
    KeptExactly(ops, key, cap);
    if Has(Run(ops, cap), key) {
      EntryIsLastReturned(ops, key, cap);
    }
  }

  /** Every entry handed out was created in some call. */
  lemma {:induction false} EntriesAreCreated<E>(ops: seq<Op<E>>, cap: nat)
    ensures forall s <- Run(ops, cap) :: exists op <- ops :: op.Access? && op.created == s.entry
  {
    if ops != [] {
      var n := |ops| - 1;
      var l := Run(ops[..n], cap);
      assert ops == ops[..n] + [ops[n]];
      EntriesAreCreated(ops[..n], cap);
      forall s <- Run(ops, cap)
        ensures exists op <- ops :: op.Access? && op.created == s.entry
      {
        if t :| t in l && t.entry == s.entry {
          var op :| op in ops[..n] && op.Access? && op.created == t.entry;
          assert op in ops;
        } else {
          match ops[n]
          case Access(key, _, _) =>
            RestMembers(l, key, cap);
            assert s == Run(ops, cap)[0] || s in Rest(l, key, cap);
            assert ops[n] in ops;
          case Gc(cutoff) => SweepIsPrefix(l, cutoff);
        }
      }
    }
  }

  lemma {:induction false} LastReturnedIsCreated<E>(ops: seq<Op<E>>, key: string, cap: nat)
    requires Accessed(ops, key)
    ensures exists op <- ops :: op.Access? && op.created == LastReturned(ops, key, cap)
  {
    var n := |ops| - 1;
    assert ops == ops[..n] + [ops[n]];
    var l := Run(ops[..n], cap);
    if ops[n].Access? && ops[n].key == key {
      if Has(l, key) {
        EntriesAreCreated(ops[..n], cap);
        var i :| 0 <= i < |l| && l[i].key == key && l[i].entry == EntryOf(l, key);
        assert l[i] in l;
        var op :| op in ops[..n] && op.Access? && op.created == l[i].entry;
        assert op in ops;
      } else {
        assert ops[n] in ops;
      }
    } else {
      LastReturnedIsCreated(ops[..n], key, cap);
      var op :| op in ops[..n] && op.Access? && op.created == LastReturned(ops[..n], key, cap);
      assert op in ops;
    }
  }

  // ---------- one call more ----------

  lemma RunAccess<E>(ops: seq<Op<E>>, key: string, now: int, created: E, cap: nat)
    ensures Run(ops + [Access(key, now, created)], cap) == Touch(Run(ops, cap), key, now, created, cap)
  {
    assert (ops + [Access(key, now, created)])[..|ops|] == ops;
  }

  lemma RunGc<E>(ops: seq<Op<E>>, cutoff: int, cap: nat)
    ensures Run(ops + [Gc(cutoff)], cap) == Sweep(Run(ops, cap), cutoff)
  {
    assert (ops + [Gc(cutoff)])[..|ops|] == ops;
  }

  /** The same for an entry that is the kept one if there is one, and new otherwise. */
  lemma BucketOutcome<E>(ops: seq<Op<E>>, key: string, entry: E, cap: nat)
    requires cap >= 1
    requires Has(Run(ops, cap), key) ==> entry == EntryOf(Run(ops, cap), key)
    requires !Has(Run(ops, cap), key) && Accessed(ops, key) ==> entry != LastReturned(ops, key, cap)
    ensures Monotone(ops) && Accessed(ops, key) ==>
              (entry == LastReturned(ops, key, cap) <==> Retained(ops, key, cap))
    ensures !Accessed(ops, key) ==> !Has(Run(ops, cap), key)
  {
    if Monotone(ops) {
      KeptExactly(ops, key, cap);
    }
    if Has(Run(ops, cap), key) {
      EntryIsLastReturned(ops, key, cap);
    }
  }
}
