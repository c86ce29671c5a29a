/** A BPF hash map as a single thread of user space sees it: entries and the order of a walk. */
module HashMaps {
  import opened Wrappers

  predicate Distinct<K(==)>(s: seq<K>) {
    forall i, j | 0 <= i < j < |s| :: s[i] != s[j]
  }

  function IndexOf<K(==)>(s: seq<K>, k: K): (i: nat)
    requires k in s
    ensures i < |s| && s[i] == k && forall j | 0 <= j < i :: s[j] != k
  {
    if s[0] == k then 0 else 1 + IndexOf(s[1..], k)
  }

  /** `get_next_key`: no key, or a key that is not in the map, means the first one; the last key
      means the end. */
  function NextKey<K(==)>(order: seq<K>, key: Option<K>): Option<K> {
    if key.Some? && key.value in order then
      var i := IndexOf(order, key.value);
      if i + 1 < |order| then Some(order[i + 1]) else None
    else if order != [] then Some(order[0])
    else None
  }

  /** The walk order after an entry is gone: the others keep their places. */
  function Without<K(==)>(order: seq<K>, k: K): (r: seq<K>)
    ensures k !in order ==> r == order
    ensures k in order ==> r == order[..IndexOf(order, k)] + order[IndexOf(order, k) + 1..]
  {
    if k !in order then order else order[..IndexOf(order, k)] + order[IndexOf(order, k) + 1..]
  }

  ghost predicate Walks<K(!new)>(order: seq<K>, values: map<K, nat>) {
    Distinct(order) && forall k :: k in order <==> k in values
  }

  class HashMap<K(==, !new)> {
    const capacity: nat
    var order: seq<K>
    var values: map<K, nat>

    ghost predicate Valid()
      reads this
    {
      Walks(order, values) && |values| <= capacity
    }

    constructor (capacity: nat)
      ensures Valid() && this.capacity == capacity && values == map[]
    {
      this.capacity, order, values := capacity, [], map[];
    }

    method GetNextKey(key: Option<K>) returns (next: Option<K>)
      ensures next == NextKey(order, key)
    {
      next := NextKey(order, key);
    }

    method Lookup(key: K) returns (value: Option<nat>)
      ensures value == if key in values then Some(values[key]) else None
    {
      value := if key in values then Some(values[key]) else None;
    }

    /** `BPF_ANY`: replaces an entry, or adds one (somewhere in the walk order) while there is room. */
    method Update(key: K, value: nat) returns (ok: bool)
      requires Valid()
      modifies this
      ensures Valid()
      ensures ok <==> old(key in values || |values| < capacity)
      ensures values == if ok then old(values)[key := value] else old(values)
    {
      if key in values {
        values := values[key := value];
        return true;
      }
      if |values| >= capacity {
        return false;
      }
      var at: nat :| at <= |order|;
      order := order[..at] + [key] + order[at..];
      values := values[key := value];
      return true;
    }

    method Delete(key: K)
      requires Valid()
      modifies this
      ensures Valid()
      ensures values == old(values) - {key} && order == Without(old(order), key)
    {
      ghost var before := order;
      order := Without(order, key);
      values := values - {key};
      WithoutIs(before, key);
      assert values.Keys == old(values).Keys - {key};
      SmallerMap(values, old(values));
    }
  }

  lemma InsertedSize<K, V>(m: map<K, V>, k: K, v: V)
    ensures |m[k := v]| == if k in m then |m| else |m| + 1
  {
    assert m[k := v].Keys == m.Keys + {k};
    if k in m {
      assert m.Keys + {k} == m.Keys;
    }
  }

  lemma SmallerMap<K, V>(m: map<K, V>, n: map<K, V>)
    requires m.Keys <= n.Keys
    ensures |m| <= |n|
  {
    SmallerSet(m.Keys, n.Keys);
  }

  lemma SmallerSet<T>(a: set<T>, b: set<T>)
    requires a <= b
    ensures |a| <= |b|
  {
    assert b == a + (b - a);
  }

  lemma WithoutIs<K(!new)>(order: seq<K>, k: K)
    requires Distinct(order)
    ensures Distinct(Without(order, k)) && forall x :: x in Without(order, k) <==> x in order && x != k
  {
    if k in order {
      WithoutAt(order, k);
      WithoutHas(order, k);
    }
  }

  /** What is left keeps its place, or moves up by one. */
  lemma WithoutAt<K>(order: seq<K>, k: K)
    requires k in order
    ensures var i, r := IndexOf(order, k), Without(order, k);
      && |r| == |order| - 1
      && forall j | 0 <= j < |r| :: r[j] == if j < i then order[j] else order[j + 1]
  {
    hide IndexOf, Without;
    RemovedAt(order, IndexOf(order, k), Without(order, k));
  }

  lemma RemovedAt<K>(s: seq<K>, i: nat, r: seq<K>)
    requires i < |s| && r == s[..i] + s[i + 1..]
    ensures |r| == |s| - 1
    ensures forall j | 0 <= j < |r| :: r[j] == if j < i then s[j] else s[j + 1]
  {
  }

  lemma WithoutHas<K(!new)>(order: seq<K>, k: K)
    requires Distinct(order) && k in order
    ensures forall x :: x in Without(order, k) <==> x in order && x != k
  {
    WithoutAt(order, k);
    hide Without, IndexOf;
    var i, r := IndexOf(order, k), Without(order, k);
    forall x | x in order && x != k
      ensures x in r
    {
      var j :| 0 <= j < |order| && order[j] == x;
      assert r[if j < i then j else j - 1] == x;
    }
  }

  /** The walk that is left when the first entry is gone. */
  lemma WalkAfterFirst<K(!new)>(order: seq<K>, values: map<K, nat>)
    requires Walks(order, values) && order != []
    ensures Walks(order[1..], values - {order[0]})
  {
    assert order == [order[0]] + order[1..];
  }

  // ---- rows

  /** The rows a full walk writes: every entry with its count. */
  function Listing<K(==)>(order: seq<K>, values: map<K, nat>): (rows: seq<(K, nat)>)
    requires forall k | k in order :: k in values
    ensures |rows| == |order|
    ensures forall i | 0 <= i < |rows| :: rows[i] == (order[i], values[order[i]])
  {
    seq(|order|, i requires 0 <= i < |order| => (order[i], values[order[i]]))
  }

  /** A full walk writes every entry exactly once. */
  lemma ListingIsExact<K(!new)>(order: seq<K>, values: map<K, nat>)
    requires Walks(order, values)
    ensures forall k, n :: (k, n) in Listing(order, values) <==> k in values && values[k] == n
    ensures Distinct(Listing(order, values)) && |Listing(order, values)| == |values|
  {
    var rows := Listing(order, values);
    forall k, n | k in values && values[k] == n
      ensures (k, n) in rows
    {
      assert rows[IndexOf(order, k)] == (k, n);
    }
    DistinctSize(order, values.Keys);
  }

  lemma {:induction false} DistinctSize<K(!new)>(order: seq<K>, keys: set<K>)
    requires Distinct(order) && forall k :: k in order <==> k in keys
    ensures |order| == |keys|
    decreases |order|
  {
    if order == [] {
      assert keys == {};
    } else {
      var rest := order[1..];
      assert order == [order[0]] + rest;
      DistinctSize(rest, keys - {order[0]});
    }
  }
}
