/**
 * A set-associative cache (src/hashmap_cache.cc): `numSets` sets, each holding at most
 * `numSlots` key/value slots and its own least-recently-used replacement policy.
 * A key always lives in set `HashToSet(key)`; the template is modelled at the
 * instantiation the C++ code exercises, `SetAssociativeCache<int, int>`.
 */
module Cache {
  import opened Wrappers

  /** size_t is 64 bits wide: an int key is converted to it before the modulus. */
  const SizeModulus: int := 0x1_0000_0000_0000_0000

  /** The set a key belongs to (HashToSet): depends on the key and the number of sets alone. */
  function HashToSet(key: int, numSets: nat): (s: nat)
    requires numSets > 0
    ensures s < numSets
  {
    (key % SizeModulus) % numSets
  }

  /**
   * `k` is the slot the LRU policy picks: it carries the smallest age stamp, and every
   * slot before it carries a strictly larger one (the scan uses a strict `<`).
   */
  predicate IsVictim(ages: seq<nat>, k: nat)
  {
    k < |ages| &&
    (forall j :: 0 <= j < |ages| ==> ages[k] <= ages[j]) &&
    (forall j :: 0 <= j < k ==> ages[k] < ages[j])
  }

  /** At most one slot is the victim. */
  lemma VictimUnique(ages: seq<nat>, k1: nat, k2: nat)
    requires IsVictim(ages, k1) && IsVictim(ages, k2)
    ensures k1 == k2
  {
    assert ages[k1] <= ages[k2] && ages[k2] <= ages[k1];
  }

  /** The eviction target, defined independently of the policy's scan. */
  function OldestSlot(ages: seq<nat>): (k: nat)
    requires |ages| > 0
    ensures IsVictim(ages, k)
  {
    if |ages| == 1 then 0
    else
      var k := OldestSlot(ages[..|ages| - 1]);
      if ages[|ages| - 1] < ages[k] then |ages| - 1 else k
  }

  /**
   * A slot stamped with a counter larger than every other stamp is never the
   * eviction target while there is another slot.
   */
  lemma FreshStampIsNotVictim(ages: seq<nat>, i: nat, c: nat)
    requires i < |ages| && |ages| > 1
    requires forall j :: 0 <= j < |ages| && j != i ==> ages[j] < c
    ensures OldestSlot(ages[i := c]) != i
  {
    var other := if i == 0 then 1 else 0;
    assert ages[i := c][other] < c;
  }

  /** The least-recently-used replacement policy of one set. */
  class LruPolicy {
    var ageCounter: nat
    var ageBits: seq<nat>

    constructor (numSlots: nat)
      ensures ageCounter == 0 && ageBits == seq(numSlots, _ => 0)
    {
      ageCounter := 0;
      ageBits := seq(numSlots, _ => 0);
    }

    /** Stamps the slot with the current counter, then advances the counter. */
    method NotifyUsed(slotIndex: nat)
      requires slotIndex < |ageBits|
      modifies this
      ensures ageBits == old(ageBits)[slotIndex := old(ageCounter)]
      ensures ageCounter == old(ageCounter) + 1
    {
      ageBits := ageBits[slotIndex := ageCounter];
      ageCounter := ageCounter + 1;
    }

    /** The slot with the oldest stamp, lowest index first among equal stamps. */
    method ChooseEvictionTarget() returns (index: nat)
      requires |ageBits| > 0
      ensures IsVictim(ageBits, index)
    {
      var indexAge := ageBits[0];
      index := 0;
      var i := 1;
      while i < |ageBits|
        invariant 1 <= i <= |ageBits|
        invariant index < i && indexAge == ageBits[index]
        invariant forall j :: 0 <= j < i ==> indexAge <= ageBits[j]
        invariant forall j :: 0 <= j < index ==> indexAge < ageBits[j]
      {
        if ageBits[i] < indexAge {
          index := i;
          indexAge := ageBits[i];
        }
        i := i + 1;
      }
    }
  }

  datatype Slot = Slot(key: int, value: int)

  predicate DistinctKeys(c: seq<Slot>)
  {
    forall i, j :: 0 <= i < j < |c| ==> c[i].key != c[j].key
  }

  /** The first slot of a set holding `key`, the one the front-to-back scans of Set and Get stop at. */
  function FindSlot(c: seq<Slot>, key: int): (r: Option<nat>)
    ensures r.Some? ==> r.value < |c| && c[r.value].key == key
    ensures r.Some? ==> forall j :: 0 <= j < r.value ==> c[j].key != key
    ensures r.None? <==> forall j :: 0 <= j < |c| ==> c[j].key != key
  {
    if |c| == 0 then None
    else if c[0].key == key then Some(0)
    else match FindSlot(c[1..], key)
      case None => None
      case Some(i) => Some(i + 1)
  }

  /** The value stored under `key` among the slots of one set, if any. */
  function ValueOf(c: seq<Slot>, key: int): (r: Option<int>)
    ensures r.Some? <==> exists j :: 0 <= j < |c| && c[j].key == key
  {
    match FindSlot(c, key)
    case None => None
    case Some(i) => Some(c[i].value)
  }

  /** The lookup stops at the first slot holding the key. */
  lemma FindSlotFirst(c: seq<Slot>, i: nat, k: int)
    requires i < |c| && c[i].key == k
    requires forall j :: 0 <= j < i ==> c[j].key != k
    ensures FindSlot(c, k) == Some(i)
  {
  }

  /** The lookup only depends on which positions hold the key. */
  lemma {:induction false} FindSlotSameKeys(c: seq<Slot>, d: seq<Slot>, k: int)
    requires |c| == |d|
    requires forall j :: 0 <= j < |c| ==> (c[j].key == k <==> d[j].key == k)
    ensures FindSlot(c, k) == FindSlot(d, k)
  {
    if |c| > 0 && c[0].key != k {
      FindSlotSameKeys(c[1..], d[1..], k);
    }
  }

  /** Appending a slot for another key leaves a lookup unchanged. */
  lemma {:induction false} FindSlotAppend(c: seq<Slot>, s: Slot, k: int)
    requires s.key != k
    ensures FindSlot(c + [s], k) == FindSlot(c, k)
  {
    if |c| > 0 && c[0].key != k {
      assert (c + [s])[1..] == c[1..] + [s];
      FindSlotAppend(c[1..], s, k);
    }
  }

  /**
   * One set as the cache sees it: its slots in insertion order, and its policy's age
   * stamps (one per slot position) and counter.
   */
  datatype Bucket = Bucket(slots: seq<Slot>, ages: seq<nat>, counter: nat)

  /** A freshly allocated set of `numSlots` slot positions. */
  function EmptyBucket(numSlots: nat): Bucket
  {
    Bucket([], seq(numSlots, _ => 0), 0)
  }

  /**
   * The invariant of one set: at most one slot per age position, distinct keys, and
   * pairwise distinct stamps on the occupied slots, each below the counter.
   */
  ghost predicate BucketValid(b: Bucket)
  {
    |b.slots| <= |b.ages| &&
    DistinctKeys(b.slots) &&
    (forall j :: 0 <= j < |b.slots| ==> b.ages[j] < b.counter) &&
    (forall i, j :: 0 <= i < j < |b.slots| ==> b.ages[i] != b.ages[j])
  }

  /**
   * The effect of Set on the key's set: the slot already holding the key gets the new
   * value; otherwise a slot is appended while there is room; otherwise the least
   * recently used slot is overwritten. The touched slot is stamped in every case.
   */
  function Store(b: Bucket, key: int, value: int): (r: Bucket)
    requires |b.slots| <= |b.ages| && |b.ages| > 0
    ensures |r.slots| <= |r.ages| == |b.ages|
  {
    match FindSlot(b.slots, key)
    case Some(i) =>
      Bucket(b.slots[i := b.slots[i].(value := value)], b.ages[i := b.counter], b.counter + 1)
    case None =>
      if |b.slots| < |b.ages| then
        Bucket(b.slots + [Slot(key, value)], b.ages[|b.slots| := b.counter], b.counter + 1)
      else
        var v := OldestSlot(b.ages);
        Bucket(b.slots[v := Slot(key, value)], b.ages[v := b.counter], b.counter + 1)
  }

  /** The effect of Get on the key's set: the value (0 on a miss) and the refreshed set. */
  function Fetch(b: Bucket, key: int): (r: (int, Bucket))
    requires |b.slots| <= |b.ages|
    ensures r.1.slots == b.slots && |r.1.ages| == |b.ages|
  {
    match FindSlot(b.slots, key)
    case Some(i) => (b.slots[i].value, Bucket(b.slots, b.ages[i := b.counter], b.counter + 1))
    case None => (0, b)
  }

  /** Stamping slot `t` of a set that kept its length or grew by that slot keeps the invariant. */
  lemma StampKeepsValid(b: Bucket, slots: seq<Slot>, t: nat)
    requires BucketValid(b) && DistinctKeys(slots)
    requires t < |slots| <= |b.ages|
    requires |slots| == |b.slots| || (|slots| == |b.slots| + 1 && t == |b.slots|)
    ensures BucketValid(Bucket(slots, b.ages[t := b.counter], b.counter + 1))
  {
  }

  /** Set keeps the invariant of the set it writes to, and never lets it exceed its capacity. */
  lemma StoreKeepsValid(b: Bucket, key: int, value: int)
    requires BucketValid(b) && |b.ages| > 0
    ensures BucketValid(Store(b, key, value))
    ensures |Store(b, key, value).slots| <= |b.ages| && |Store(b, key, value).ages| == |b.ages|
  {
    match FindSlot(b.slots, key)
    case Some(i) =>
      StampKeepsValid(b, b.slots[i := b.slots[i].(value := value)], i);
    case None =>
      if |b.slots| < |b.ages| {
        StampKeepsValid(b, b.slots + [Slot(key, value)], |b.slots|);
      } else {
        StampKeepsValid(b, b.slots[OldestSlot(b.ages) := Slot(key, value)], OldestSlot(b.ages));
      }
  }

  /**
   * The size of a set after Set: one more when the key was absent and there was room,
   * otherwise unchanged, with exactly one slot overwritten in place.
   */
  lemma StoreSize(b: Bucket, key: int, value: int)
    requires BucketValid(b) && |b.ages| > 0
    ensures var r := Store(b, key, value);
      if FindSlot(b.slots, key).None? && |b.slots| < |b.ages| then
        |r.slots| == |b.slots| + 1 && r.slots[..|b.slots|] == b.slots
      else
        exists t :: 0 <= t < |b.slots| && r.slots == b.slots[t := r.slots[t]]
  {
    var r := Store(b, key, value);
    match FindSlot(b.slots, key)
    case Some(i) =>
      assert r.slots == b.slots[i := r.slots[i]];
    case None =>
      if |b.slots| == |b.ages| {
        var v := OldestSlot(b.ages);
        assert r.slots == b.slots[v := r.slots[v]];
      }
  }

  /** After Set, the key reads back the value just stored. */
  lemma StoreThenValue(b: Bucket, key: int, value: int)
    requires BucketValid(b) && |b.ages| > 0
    ensures ValueOf(Store(b, key, value).slots, key) == Some(value)
  {
    var r := Store(b, key, value);
    match FindSlot(b.slots, key)
    case Some(i) =>
      FindSlotFirst(r.slots, i, key);
    case None =>
      if |b.slots| < |b.ages| {
        FindSlotFirst(r.slots, |b.slots|, key);
      } else {
        FindSlotFirst(r.slots, OldestSlot(b.ages), key);
      }
  }

  /**
   * Set changes the value of no other key, except that in a full set without the key
   * the key of the least recently used slot is evicted.
   */
  lemma StoreKeepsOtherValues(b: Bucket, key: int, value: int, k: int)
    requires BucketValid(b) && |b.ages| > 0 && k != key
    ensures var r := Store(b, key, value);
      if FindSlot(b.slots, key).None? && |b.slots| == |b.ages| && k == b.slots[OldestSlot(b.ages)].key then
        ValueOf(b.slots, k).Some? && ValueOf(r.slots, k) == None
      else
        ValueOf(r.slots, k) == ValueOf(b.slots, k)
  {
    var r := Store(b, key, value);
    match FindSlot(b.slots, key)
    case Some(i) =>
      FindSlotSameKeys(r.slots, b.slots, k);
    case None =>
      if |b.slots| < |b.ages| {
        FindSlotAppend(b.slots, Slot(key, value), k);
      } else {
        var v := OldestSlot(b.ages);
        if k == b.slots[v].key {
          FindSlotFirst(b.slots, v, k);
        } else {
          FindSlotSameKeys(r.slots, b.slots, k);
        }
      }
  }

  /** Set at capacity overwrites the slot carrying the oldest stamp. */
  lemma StoreEvictsOldest(b: Bucket, key: int, value: int)
    requires BucketValid(b) && |b.ages| > 0
    requires FindSlot(b.slots, key).None? && |b.slots| == |b.ages|
    ensures exists v: nat :: IsVictim(b.ages, v) && Store(b, key, value).slots == b.slots[v := Slot(key, value)]
  {
    assert IsVictim(b.ages, OldestSlot(b.ages));
  }

  /** In a full set of more than one slot, the key just written is never the next to be evicted. */
  lemma StoredIsNotNextVictim(b: Bucket, key: int, value: int)
    requires BucketValid(b) && |b.ages| > 1
    ensures var r := Store(b, key, value);
      |r.slots| == |r.ages| ==> r.slots[OldestSlot(r.ages)].key != key
  {
    var r := Store(b, key, value);
    StoreKeepsValid(b, key, value);
    if |r.slots| == |r.ages| {
      match FindSlot(b.slots, key)
      case Some(i) =>
        FreshStampIsNotVictim(b.ages, i, b.counter);
      case None =>
        if |b.slots| < |b.ages| {
          FreshStampIsNotVictim(b.ages, |b.slots|, b.counter);
        } else {
          FreshStampIsNotVictim(b.ages, OldestSlot(b.ages), b.counter);
        }
    }
  }

  /** Get returns the stored value, or 0 on a miss, keeps the slots, and keeps the invariant. */
  lemma FetchSpec(b: Bucket, key: int)
    requires BucketValid(b)
    ensures var (value, r) := Fetch(b, key);
      r.slots == b.slots && BucketValid(r) &&
      value == match ValueOf(b.slots, key) case Some(v) => v case None => 0
  {
    match FindSlot(b.slots, key)
    case Some(i) =>
      StampKeepsValid(b, b.slots, i);
    case None =>
  }

  class SetAssociativeCache {
    const numSets: nat
    const numSlots: nat
    /** The slots of each set, in insertion order. */
    var containers: seq<seq<Slot>>
    /** The replacement policy of each set. */
    const policies: seq<LruPolicy>

    /** Set `s` with its policy's state. */
    ghost function BucketAt(s: nat): Bucket
      reads this, policies
      requires s < |containers| && s < |policies|
    {
      Bucket(containers[s], policies[s].ageBits, policies[s].ageCounter)
    }

    /**
     * Every set satisfies BucketValid with numSlots age positions, and every key it holds
     * hashes to it; the sets own distinct policies.
     */
    ghost predicate Valid()
      reads this, policies
    {
      numSets > 0 &&
      |containers| == numSets && |policies| == numSets &&
      (forall s, t :: 0 <= s < t < numSets ==> policies[s] != policies[t]) &&
      forall s :: 0 <= s < numSets ==>
        BucketValid(BucketAt(s)) && |policies[s].ageBits| == numSlots &&
        forall j {:trigger HashToSet(containers[s][j].key, numSets)} :: 0 <= j < |containers[s]| ==>
          HashToSet(containers[s][j].key, numSets) == s
    }

    /** The value the sets `cs` hold for `key`: only set HashToSet(key) is searched. */
    ghost function LookupIn(cs: seq<seq<Slot>>, key: int): Option<int>
      requires numSets > 0 && |cs| == numSets
    {
      ValueOf(cs[HashToSet(key, numSets)], key)
    }

    /** The value the cache holds for `key`, if any. */
    ghost function Lookup(key: int): Option<int>
      reads this
      requires numSets > 0 && |containers| == numSets
    {
      LookupIn(containers, key)
    }

    /** Replacing set `h` by `d` leaves the lookup of every key whose value `d` keeps unchanged. */
    lemma ReplaceSetKeepsLookups(cs: seq<seq<Slot>>, h: nat, d: seq<Slot>, k: int)
      requires numSets > 0 && |cs| == numSets && h < numSets
      requires HashToSet(k, numSets) == h ==> ValueOf(d, k) == ValueOf(cs[h], k)
      ensures LookupIn(cs[h := d], k) == LookupIn(cs, k)
    {
    }

    /** Builds numSets empty sets, each with a fresh policy (the constructor calls Reallocate). */
    constructor (numSets: nat, numSlots: nat)
      requires numSets > 0
      ensures Valid()
      ensures this.numSets == numSets && this.numSlots == numSlots
      ensures forall s :: 0 <= s < numSets ==> BucketAt(s) == EmptyBucket(numSlots) && fresh(policies[s])
      ensures forall key :: Lookup(key) == None
    {
      this.numSets := numSets;
      this.numSlots := numSlots;
      var ps: seq<LruPolicy> := [];
      while |ps| < numSets
        invariant |ps| <= numSets
        invariant forall s, t :: 0 <= s < t < |ps| ==> ps[s] != ps[t]
        invariant forall s :: 0 <= s < |ps| ==> fresh(ps[s])
        invariant forall s :: 0 <= s < |ps| ==>
          ps[s].ageCounter == 0 && ps[s].ageBits == seq(numSlots, _ => 0)
      {
        var p := new LruPolicy(numSlots);
        ps := ps + [p];
      }
      policies := ps;
      containers := seq(numSets, _ => []);
    }

    /**
     * Stores `value` under `key` in set HashToSet(key): see Store for the three cases.
     * No other set changes, the key reads back `value`, and every other key keeps its
     * value except the one evicted from a full set.
     */
    method Set(key: int, value: int)
      requires Valid() && numSlots > 0
      modifies this, policies[HashToSet(key, numSets)]
      ensures Valid()
      ensures var h := HashToSet(key, numSets);
        BucketAt(h) == Store(old(BucketAt(h)), key, value) &&
        forall s :: 0 <= s < numSets && s != h ==> containers[s] == old(containers[s])
      ensures Lookup(key) == Some(value)
      ensures var b := old(BucketAt(HashToSet(key, numSets)));
        forall k :: k != key ==>
          if FindSlot(b.slots, key).None? && |b.slots| == numSlots && k == b.slots[OldestSlot(b.ages)].key then
            old(Lookup(k)).Some? && Lookup(k) == None
          else
            Lookup(k) == old(Lookup(k))
    {
      var h := HashToSet(key, numSets);
      var container := containers[h];
      var policy := policies[h];
      var i := 0;
      while i < |container|
        invariant 0 <= i <= |container|
        invariant forall j :: 0 <= j < i ==> container[j].key != key
      {
        if container[i].key == key {
          FindSlotFirst(container, i, key);
          Commit(key, value, i, container[i := container[i].(value := value)]);
          return;
        }
        i := i + 1;
      }
      if |container| < numSlots {
        Commit(key, value, |container|, container + [Slot(key, value)]);
        return;
      }
      var index := policy.ChooseEvictionTarget();
      VictimUnique(policy.ageBits, index, OldestSlot(policy.ageBits));
      Commit(key, value, index, container[index := Slot(key, value)]);
    }

    /**
     * The write Set ends with: stamps slot `t` of the key's set and installs `c` as its
     * slots, where `c` and the stamp are what Store prescribes.
     */
    method Commit(key: int, value: int, t: nat, c: seq<Slot>)
      requires Valid() && numSlots > 0 && t < numSlots
      requires var h := HashToSet(key, numSets);
        Bucket(c, policies[h].ageBits[t := policies[h].ageCounter], policies[h].ageCounter + 1) ==
        Store(BucketAt(h), key, value)
      modifies this, policies[HashToSet(key, numSets)]
      ensures Valid()
      ensures var h := HashToSet(key, numSets);
        BucketAt(h) == Store(old(BucketAt(h)), key, value) &&
        forall s :: 0 <= s < numSets && s != h ==> containers[s] == old(containers[s])
      ensures Lookup(key) == Some(value)
      ensures var b := old(BucketAt(HashToSet(key, numSets)));
        forall k :: k != key ==>
          if FindSlot(b.slots, key).None? && |b.slots| == numSlots && k == b.slots[OldestSlot(b.ages)].key then
            old(Lookup(k)).Some? && Lookup(k) == None
          else
            Lookup(k) == old(Lookup(k))
    {
      var h := HashToSet(key, numSets);
      ghost var b := BucketAt(h);
      policies[h].NotifyUsed(t);
      containers := containers[h := c];
      SetFinish(h, b, key, value);
    }

    /** The facts about Store that carry Set's contract over to the whole cache. */
    lemma SetFinish(h: nat, b: Bucket, key: int, value: int)
      requires numSets > 0 && |containers| == numSets && |policies| == numSets && h < numSets
      requires h == HashToSet(key, numSets)
      requires BucketValid(b) && |b.ages| == numSlots > 0
      requires BucketAt(h) == Store(b, key, value)
      ensures BucketValid(BucketAt(h)) && |policies[h].ageBits| == numSlots
      ensures ValueOf(containers[h], key) == Some(value)
      ensures forall k :: k != key ==>
        if FindSlot(b.slots, key).None? && |b.slots| == numSlots && k == b.slots[OldestSlot(b.ages)].key then
          ValueOf(b.slots, k).Some? && ValueOf(containers[h], k) == None
        else
          ValueOf(containers[h], k) == ValueOf(b.slots, k)
    {
      StoreKeepsValid(b, key, value);
      StoreThenValue(b, key, value);
      forall k | k != key
        ensures if FindSlot(b.slots, key).None? && |b.slots| == numSlots && k == b.slots[OldestSlot(b.ages)].key then
          ValueOf(b.slots, k).Some? && ValueOf(containers[h], k) == None
        else
          ValueOf(containers[h], k) == ValueOf(b.slots, k)
      {
        StoreKeepsOtherValues(b, key, value, k);
      }
    }

    /** Reads the value stored under `key` and refreshes its slot; a miss yields the value-initialised 0. */
    method Get(key: int) returns (value: int)
      requires Valid()
      modifies policies[HashToSet(key, numSets)]
      ensures Valid() && containers == old(containers)
      ensures var h := HashToSet(key, numSets);
        (value, BucketAt(h)) == Fetch(old(BucketAt(h)), key)
      ensures value == match old(Lookup(key)) case Some(v) => v case None => 0
    {
      var h := HashToSet(key, numSets);
      var container := containers[h];
      var i := 0;
      while i < |container|
        invariant 0 <= i <= |container|
        invariant forall j :: 0 <= j < i ==> container[j].key != key
      {
        if container[i].key == key {
          FindSlotFirst(container, i, key);
          Touch(key, i);
          return container[i].value;
        }
        i := i + 1;
      }
      return 0;
    }

    /** The policy update of a Get hit: stamps slot `i`, the one holding `key`. */
    method Touch(key: int, i: nat)
      requires Valid() && FindSlot(containers[HashToSet(key, numSets)], key) == Some(i)
      modifies policies[HashToSet(key, numSets)]
      ensures Valid() && containers == old(containers)
      ensures var h := HashToSet(key, numSets);
        BucketAt(h) == Fetch(old(BucketAt(h)), key).1
    {
      var h := HashToSet(key, numSets);
      FetchSpec(BucketAt(h), key);
      policies[h].NotifyUsed(i);
    }
  }

  /** Store when the key is absent and the set has room: the slot is appended. */
  lemma StoreAppends(b: Bucket, key: int, value: int)
    requires |b.slots| < |b.ages|
    requires forall j :: 0 <= j < |b.slots| ==> b.slots[j].key != key
    ensures Store(b, key, value) ==
      Bucket(b.slots + [Slot(key, value)], b.ages[|b.slots| := b.counter], b.counter + 1)
  {
  }

  /** Store when the key is absent from a full set: the victim `v` is overwritten. */
  lemma StoreEvicts(b: Bucket, key: int, value: int, v: nat)
    requires 0 < |b.slots| == |b.ages| && IsVictim(b.ages, v)
    requires forall j :: 0 <= j < |b.slots| ==> b.slots[j].key != key
    ensures Store(b, key, value) == Bucket(b.slots[v := Slot(key, value)], b.ages[v := b.counter], b.counter + 1)
  {
    VictimUnique(b.ages, v, OldestSlot(b.ages));
  }

  /** Store when slot `i` holds the key: its value is replaced. */
  lemma StoreRefreshes(b: Bucket, key: int, value: int, i: nat)
    requires i < |b.slots| <= |b.ages| && 0 < |b.ages| && b.slots[i].key == key
    requires forall j :: 0 <= j < i ==> b.slots[j].key != key
    ensures Store(b, key, value) == Bucket(b.slots[i := Slot(key, value)], b.ages[i := b.counter], b.counter + 1)
  {
    FindSlotFirst(b.slots, i, key);
  }

  /*
   * The driver's scenario, on the one set its keys fall into (four sets of five slots):
   * one lemma per call, each stating the set before and after it.
   */

  /** The keys of the driver's scenario all fall into set 1 of four. */
  lemma ScenarioKeysShareSet()
    ensures forall k :: k in [1, 5, 9, 13, 17, 21, 25] ==> HashToSet(k, 4) == 1
  {
  }

  /** Set(1, 2): key 1 goes into the empty set. */
  lemma ScenarioSet1(b: Bucket)
    requires b == EmptyBucket(5)
    ensures Store(b, 1, 2) == Bucket([Slot(1, 2)], [0, 0, 0, 0, 0], 1)
  {
    StoreAppends(b, 1, 2);
  }

  /** Set(5, 3): key 5 is appended. */
  lemma ScenarioSet2(b: Bucket)
    requires b == Bucket([Slot(1, 2)], [0, 0, 0, 0, 0], 1)
    ensures Store(b, 5, 3) == Bucket([Slot(1, 2), Slot(5, 3)], [0, 1, 0, 0, 0], 2)
  {
    StoreAppends(b, 5, 3);
  }

  /** Set(9, 4): key 9 is appended. */
  lemma ScenarioSet3(b: Bucket)
    requires b == Bucket([Slot(1, 2), Slot(5, 3)], [0, 1, 0, 0, 0], 2)
    ensures Store(b, 9, 4) == Bucket([Slot(1, 2), Slot(5, 3), Slot(9, 4)], [0, 1, 2, 0, 0], 3)
  {
    StoreAppends(b, 9, 4);
  }

  /** Set(13, 5): key 13 is appended. */
  lemma ScenarioSet4(b: Bucket)
    requires b == Bucket([Slot(1, 2), Slot(5, 3), Slot(9, 4)], [0, 1, 2, 0, 0], 3)
    ensures Store(b, 13, 5) == Bucket([Slot(1, 2), Slot(5, 3), Slot(9, 4), Slot(13, 5)], [0, 1, 2, 3, 0], 4)
  {
    StoreAppends(b, 13, 5);
  }

  /** Set(17, 6): key 17 fills the set. */
  lemma ScenarioSet5(b: Bucket)
    requires b == Bucket([Slot(1, 2), Slot(5, 3), Slot(9, 4), Slot(13, 5)], [0, 1, 2, 3, 0], 4)
    ensures Store(b, 17, 6) == Bucket([Slot(1, 2), Slot(5, 3), Slot(9, 4), Slot(13, 5), Slot(17, 6)], [0, 1, 2, 3, 4], 5)
  {
    StoreAppends(b, 17, 6);
  }

  /** Set(21, 7): key 21 evicts key 1, the oldest. */
  lemma ScenarioSet6(b: Bucket)
    requires b == Bucket([Slot(1, 2), Slot(5, 3), Slot(9, 4), Slot(13, 5), Slot(17, 6)], [0, 1, 2, 3, 4], 5)
    ensures Store(b, 21, 7) == Bucket([Slot(21, 7), Slot(5, 3), Slot(9, 4), Slot(13, 5), Slot(17, 6)], [5, 1, 2, 3, 4], 6)
  {
    StoreEvicts(b, 21, 7, 0);
  }

  /** Set(9, 8): key 9 is updated in place. */
  lemma ScenarioSet7(b: Bucket)
    requires b == Bucket([Slot(21, 7), Slot(5, 3), Slot(9, 4), Slot(13, 5), Slot(17, 6)], [5, 1, 2, 3, 4], 6)
    ensures Store(b, 9, 8) == Bucket([Slot(21, 7), Slot(5, 3), Slot(9, 8), Slot(13, 5), Slot(17, 6)], [5, 1, 6, 3, 4], 7)
  {
    StoreRefreshes(b, 9, 8, 2);
  }

  /** Get(5) reads 3 and refreshes key 5, which leaves key 13 the oldest. */
  lemma ScenarioGet(b: Bucket)
    requires b == Bucket([Slot(21, 7), Slot(5, 3), Slot(9, 8), Slot(13, 5), Slot(17, 6)], [5, 1, 6, 3, 4], 7)
    ensures Fetch(b, 5) == (3, Bucket([Slot(21, 7), Slot(5, 3), Slot(9, 8), Slot(13, 5), Slot(17, 6)], [5, 7, 6, 3, 4], 8))
  {
    FindSlotFirst(b.slots, 1, 5);
    assert b.ages[1 := b.counter] == [5, 7, 6, 3, 4];
  }

  /** Set(25, 9): key 25 evicts key 13. */
  lemma ScenarioSet8(b: Bucket)
    requires b == Bucket([Slot(21, 7), Slot(5, 3), Slot(9, 8), Slot(13, 5), Slot(17, 6)], [5, 7, 6, 3, 4], 8)
    ensures Store(b, 25, 9) == Bucket([Slot(21, 7), Slot(5, 3), Slot(9, 8), Slot(25, 9), Slot(17, 6)], [5, 7, 6, 8, 4], 9)
  {
    StoreEvicts(b, 25, 9, 3);
  }
}
