/**
 * The ordered count map `std::map<int, int>` that several array puzzles fill with
 * `map[n]++`: a sequence of (key, count) entries in increasing key order. A map built
 * with `std::greater` is the same content visited from the other end.
 */
module CountMap {
  /** One entry of the ordered count map: a value and how often it occurs. */
  datatype Entry = Entry(key: int, count: nat)

  /** The map's order: keys strictly increasing, hence unique. */
  predicate Ascending(m: seq<Entry>)
  {
    forall i, j :: 0 <= i < j < |m| ==> m[i].key < m[j].key
  }

  /** The count the map holds for `k`, 0 when absent. */
  function CountOf(m: seq<Entry>, k: int): nat
  {
    if |m| == 0 then 0 else (if m[0].key == k then m[0].count else 0) + CountOf(m[1..], k)
  }

  lemma {:induction false} CountOfConcat(a: seq<Entry>, b: seq<Entry>, k: int)
    ensures CountOf(a + b, k) == CountOf(a, k) + CountOf(b, k)
  {
    if |a| > 0 {
      assert (a + b)[0] == a[0];
      assert (a + b)[1..] == a[1..] + b;
      CountOfConcat(a[1..], b, k);
    } else {
      assert a + b == b;
    }
  }

  /** In an ascending map, the count of a key held at position j is that entry's count. */
  lemma {:induction false} CountOfAt(m: seq<Entry>, j: nat)
    requires Ascending(m) && j < |m|
    ensures CountOf(m, m[j].key) == m[j].count
  {
    if j > 0 {
      CountOfAt(m[1..], j - 1);
    } else {
      CountOfAbsent(m[1..], m[0].key);
    }
  }

  /** A key held by no entry has count 0. */
  lemma {:induction false} CountOfAbsent(m: seq<Entry>, k: int)
    requires forall j :: 0 <= j < |m| ==> m[j].key != k
    ensures CountOf(m, k) == 0
  {
    if |m| > 0 {
      CountOfAbsent(m[1..], k);
    }
  }

  /**
   * `h_map[c]++` on the ordered map: the entry for `c` is bumped, or inserted with count 1
   * at the place that keeps the keys increasing.
   */
  method Increment(m: seq<Entry>, c: int) returns (r: seq<Entry>)
    requires Ascending(m) && forall j :: 0 <= j < |m| ==> m[j].count > 0
    ensures Ascending(r) && forall j :: 0 <= j < |r| ==> r[j].count > 0
    ensures forall k :: CountOf(r, k) == CountOf(m, k) + (if k == c then 1 else 0)
    ensures forall j :: 0 <= j < |r| ==> r[j].key == c || exists i :: 0 <= i < |m| && m[i].key == r[j].key
  {
    var p := 0;
    while p < |m| && m[p].key < c
      invariant 0 <= p <= |m|
      invariant forall j :: 0 <= j < p ==> m[j].key < c
    {
      p := p + 1;
    }
    if p < |m| && m[p].key == c {
      r := m[p := Entry(c, m[p].count + 1)];
      BumpCounts(m, p, c);
    } else {
      r := m[..p] + [Entry(c, 1)] + m[p..];
      InsertCounts(m, p, c);
      forall j | 0 <= j < |r| && r[j].key != c
        ensures exists i :: 0 <= i < |m| && m[i].key == r[j].key
      {
        if j < p {
          assert m[j].key == r[j].key;
        } else {
          assert m[j - 1].key == r[j].key;
        }
      }
    }
  }

  /** Bumping the entry at `p`, which holds `c`, adds one to the count of `c` only. */
  lemma BumpCounts(m: seq<Entry>, p: nat, c: int)
    requires p < |m| && m[p].key == c
    ensures forall k :: CountOf(m[p := Entry(c, m[p].count + 1)], k) == CountOf(m, k) + (if k == c then 1 else 0)
  {
    var r := m[p := Entry(c, m[p].count + 1)];
    assert m == m[..p] + ([m[p]] + m[p + 1..]);
    assert r == m[..p] + ([r[p]] + m[p + 1..]);
    forall k
      ensures CountOf(r, k) == CountOf(m, k) + (if k == c then 1 else 0)
    {
      CountOfConcat(m[..p], [m[p]] + m[p + 1..], k);
      CountOfConcat([m[p]], m[p + 1..], k);
      CountOfConcat(m[..p], [r[p]] + m[p + 1..], k);
      CountOfConcat([r[p]], m[p + 1..], k);
    }
  }

  /** Inserting a fresh entry for `c` at `p` adds one to the count of `c` only. */
  lemma InsertCounts(m: seq<Entry>, p: nat, c: int)
    requires p <= |m|
    ensures forall k :: CountOf(m[..p] + [Entry(c, 1)] + m[p..], k) == CountOf(m, k) + (if k == c then 1 else 0)
  {
    assert m == m[..p] + m[p..];
    forall k
      ensures CountOf(m[..p] + [Entry(c, 1)] + m[p..], k) == CountOf(m, k) + (if k == c then 1 else 0)
    {
      CountOfConcat(m[..p] + [Entry(c, 1)], m[p..], k);
      CountOfConcat(m[..p], [Entry(c, 1)], k);
      CountOfConcat(m[..p], m[p..], k);
    }
  }

  /**
   * get_element_count_map (src/array_majority_element.cc): one `map[n]++` per element,
   * so the map holds exactly the elements, each with its number of occurrences.
   */
  method CountElements(nums: seq<int>) returns (m: seq<Entry>)
    ensures Ascending(m) && forall j :: 0 <= j < |m| ==> m[j].count > 0
    ensures forall k :: CountOf(m, k) == multiset(nums)[k]
  {
    m := [];
    var i := 0;
    while i < |nums|
      invariant 0 <= i <= |nums|
      invariant Ascending(m) && forall j :: 0 <= j < |m| ==> m[j].count > 0
      invariant forall k :: CountOf(m, k) == multiset(nums[..i])[k]
    {
      assert nums[..i + 1] == nums[..i] + [nums[i]];
      m := Increment(m, nums[i]);
      i := i + 1;
    }
    assert nums[..i] == nums;
  }
}
