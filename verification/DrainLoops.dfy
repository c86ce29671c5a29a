/** The three user-space loops over a flow map, with no packets arriving meanwhile. */
module DrainLoops {
  import opened Wrappers
  import opened HashMaps

  function Total<K>(rows: seq<(K, nat)>): nat {
    if rows == [] then 0 else Total(rows[..|rows| - 1]) + rows[|rows| - 1].1
  }

  predicate TopAt<K(==)>(rows: seq<(K, nat)>, i: nat, top: K, packets: nat)
    requires i < |rows|
  {
    rows[i] == (top, packets) && forall j | 0 <= j < i :: rows[j].1 < packets
  }

  /** The busiest row: the first of the largest count, or none if no row has packets. */
  predicate IsTopTalker<K(==)>(rows: seq<(K, nat)>, top: Option<K>, packets: nat) {
    && (forall i | 0 <= i < |rows| :: rows[i].1 <= packets)
    && (top == None <==> packets == 0)
    && (top.Some? ==> exists i | 0 <= i < |rows| :: TopAt(rows, i, top.value, packets))
  }

  /** Part of a drain: the rows cover the front of the walk, the map still holds the rest. */
  ghost predicate Drained<K(!new)>(order: seq<K>, all: map<K, nat>, left: seq<K>, values: map<K, nat>,
                                   rows: seq<(K, nat)>)
  {
    && Walks(order, all) && Walks(left, values)
    && |rows| <= |order| && left == order[|rows|..]
    && (forall k | k in values :: k in all && values[k] == all[k])
    && rows == Listing(order, all)[..|rows|]
  }

  /** Taking the first key of a walk. */
  lemma HeadOfWalk<K(!new)>(left: seq<K>, values: map<K, nat>)
    requires Walks(left, values) && left != []
    ensures left[0] in values && left[0] !in left[1..]
    ensures Without(left, left[0]) == left[1..]
    ensures NextKey(left, Some(left[0])) == if |left| > 1 then Some(left[1]) else None
    ensures Walks(left[1..], values - {left[0]})
  {
    hide IndexOf, Without, NextKey, Distinct;
    HeadOfOrder(left);
    WithoutIs(left, left[0]);
  }

  lemma HeadOfOrder<K>(left: seq<K>)
    requires Distinct(left) && left != []
    ensures Without(left, left[0]) == left[1..]
    ensures NextKey(left, Some(left[0])) == if |left| > 1 then Some(left[1]) else None
  {
    hide Distinct, IndexOf;
    assert IndexOf(left, left[0]) == 0;
    assert left[..0] + left[1..] == left[1..];
  }

  lemma DrainStep<K(!new)>(order: seq<K>, all: map<K, nat>, left: seq<K>, values: map<K, nat>, rows: seq<(K, nat)>)
    requires Drained(order, all, left, values, rows) && left != []
    ensures left[0] in values && left[0] !in left[1..]
    ensures Without(left, left[0]) == left[1..]
    ensures NextKey(left, Some(left[0])) == if |left| > 1 then Some(left[1]) else None
    ensures Drained(order, all, left[1..], values - {left[0]}, rows + [(left[0], values[left[0]])])
  {
    hide NextKey, Without, Walks;
    HeadOfWalk(left, values);
    RowStep(order, all, left, rows);
  }

  lemma RowStep<K(!new)>(order: seq<K>, all: map<K, nat>, left: seq<K>, rows: seq<(K, nat)>)
    requires Walks(order, all)
    requires |rows| < |order| && left == order[|rows|..] && rows == Listing(order, all)[..|rows|]
    ensures left[0] in all && left[1..] == order[|rows| + 1..]
    ensures rows + [(left[0], all[left[0]])] == Listing(order, all)[..|rows| + 1]
  {
    hide Distinct;
    var listing := Listing(order, all);
    assert left[0] == order[|rows|] && order[|rows|] in order;
    assert listing[..|rows| + 1] == listing[..|rows|] + [listing[|rows|]];
  }

  lemma DrainDone<K(!new)>(order: seq<K>, all: map<K, nat>, left: seq<K>, values: map<K, nat>, rows: seq<(K, nat)>)
    requires Drained(order, all, left, values, rows) && left == []
    ensures values == map[] && rows == Listing(order, all)
  {
    assert values.Keys == {};
    assert |rows| == |order|;
  }

  lemma DrainStart<K(!new)>(order: seq<K>, all: map<K, nat>)
    requires Walks(order, all)
    ensures Drained(order, all, order, all, [])
  {
  }

  /** One batch of the flow tracker: it asks for the next key before it deletes the current one. */
  method DrainBatch<K(==, !new)>(m: HashMap<K>)
    returns (rows: seq<(K, nat)>, activeFlows: nat, totalPackets: nat, topKey: Option<K>, topPackets: nat)
    requires m.Valid()
    modifies m
    ensures m.Valid() && m.values == map[] && m.order == []
    ensures rows == Listing(old(m.order), old(m.values))
    ensures activeFlows == |rows| && totalPackets == Total(rows)
    ensures IsTopTalker(rows, topKey, topPackets)
  {
    hide Drained, Walks, IsTopTalker, Without, Total;
    ghost var order, all := m.order, m.values;
    DrainStart(order, all);
    NoTalker<K>();
    rows, activeFlows, totalPackets, topKey, topPackets := [], 0, 0, None, 0;
    var next := m.GetNextKey(None);
    while next.Some?
      invariant m.Valid()
      invariant Drained(order, all, m.order, m.values, rows)
      invariant next == if m.order != [] then Some(m.order[0]) else None
      invariant activeFlows == |rows| && totalPackets == Total(rows)
      invariant IsTopTalker(rows, topKey, topPackets)
      decreases |m.order|
    {
      var key := next.value;
      DrainStep(order, all, m.order, m.values, rows);
      next := m.GetNextKey(Some(key));
      var value := m.Lookup(key);
      RowAdded(rows, (key, value.value), topKey, topPackets);
      rows := rows + [(key, value.value)];
      if value.value > topPackets {
        topPackets := value.value;
        topKey := Some(key);
      }
      activeFlows := activeFlows + 1;
      totalPackets := totalPackets + value.value;
      m.Delete(key);
    }
    DrainDone(order, all, m.order, m.values, rows);
  }

  lemma NoTalker<K>()
    ensures IsTopTalker<K>([], None, 0) && Total<K>([]) == 0
  {
  }

  lemma TopStays<K>(rows: seq<(K, nat)>, row: (K, nat), top: Option<K>, packets: nat)
    requires IsTopTalker(rows, top, packets)
    ensures if row.1 > packets then IsTopTalker(rows + [row], Some(row.0), row.1)
            else IsTopTalker(rows + [row], top, packets)
  {
    var more := rows + [row];
    assert more[|rows|] == row;
    if row.1 <= packets && top.Some? {
      var i :| 0 <= i < |rows| && TopAt(rows, i, top.value, packets);
      assert TopAt(more, i, top.value, packets);
    } else if row.1 > packets {
      assert TopAt(more, |rows|, row.0, row.1);
    }
  }

  lemma RowAdded<K>(rows: seq<(K, nat)>, row: (K, nat), top: Option<K>, packets: nat)
    requires IsTopTalker(rows, top, packets)
    ensures Total(rows + [row]) == Total(rows) + row.1
    ensures if row.1 > packets then IsTopTalker(rows + [row], Some(row.0), row.1)
            else IsTopTalker(rows + [row], top, packets)
  {
    assert (rows + [row])[..|rows|] == rows;
    TopStays(rows, row, top, packets);
  }

  /** The other drain: it asks with a key it has already deleted and relies on the restart. */
  method DrainByRestart<K(==, !new)>(m: HashMap<K>) returns (rows: seq<(K, nat)>)
    requires m.Valid()
    modifies m
    ensures m.Valid() && m.values == map[] && m.order == []
    ensures rows == Listing(old(m.order), old(m.values))
  {
    hide Drained, Walks, Without;
    ghost var order, all := m.order, m.values;
    DrainStart(order, all);
    rows := [];
    var first := true;
    var key: Option<K> := None;
    while true
      invariant m.Valid()
      invariant Drained(order, all, m.order, m.values, rows)
      invariant first ==> key == None
      invariant !first ==> key.Some? && key.value !in m.order
      decreases |m.order|
    {
      var next: Option<K>;
      if first {
        next := m.GetNextKey(None);
      } else {
        next := m.GetNextKey(key);
      }
      if next.None? {
        break;
      }
      key := next;
      first := false;
      DrainStep(order, all, m.order, m.values, rows);
      var value := m.Lookup(key.value);
      rows := rows + [(key.value, value.value)];
      m.Delete(key.value);
    }
    DrainDone(order, all, m.order, m.values, rows);
  }

  /** The keys a walk that starts from `zero` reaches. */
  function ListedKeys<K(==)>(order: seq<K>, zero: K): (r: seq<K>)
    ensures |r| <= |order| && r == order[|order| - |r|..]
  {
    if zero in order then order[IndexOf(order, zero) + 1..] else order
  }

  lemma NextListed<K>(order: seq<K>, skipped: nat, i: nat, key: K)
    requires Distinct(order) && 1 <= skipped + i <= |order| && order[skipped + i - 1] == key
    ensures NextKey(order, Some(key)) == if skipped + i < |order| then Some(order[skipped + i]) else None
  {
    hide IndexOf;
    assert IndexOf(order, key) == skipped + i - 1;
  }

  lemma DistinctWalk<K(!new)>(order: seq<K>, values: map<K, nat>)
    requires Walks(order, values)
    ensures Distinct(order)
  {
  }

  lemma FirstListed<K>(order: seq<K>, zero: K)
    ensures var listed := ListedKeys(order, zero);
      NextKey(order, Some(zero)) == if listed != [] then Some(listed[0]) else None
  {
    hide IndexOf;
  }

  lemma ListedPresent<K(!new)>(order: seq<K>, values: map<K, nat>, zero: K)
    requires Walks(order, values)
    ensures forall k | k in ListedKeys(order, zero) :: k in values
  {
    var listed := ListedKeys(order, zero);
    assert forall k | k in listed :: k in order;
  }

  /** The listing starts at the all-zero key instead of at no key. */
  method ListFrom<K(==, !new)>(m: HashMap<K>, zero: K) returns (rows: seq<(K, nat)>)
    requires m.Valid()
    ensures forall k | k in ListedKeys(m.order, zero) :: k in m.values
    ensures rows == Listing(ListedKeys(m.order, zero), m.values)
  {
    hide NextKey, ListedKeys, IndexOf, Walks;
    ListedPresent(m.order, m.values, zero);
    FirstListed(m.order, zero);
    rows := [];
    ghost var listed := ListedKeys(m.order, zero);
    ghost var skipped := |m.order| - |listed|;
    var key := zero;
    var next := m.GetNextKey(Some(key));
    while next.Some?
      invariant |rows| <= |listed|
      invariant next == if |rows| < |listed| then Some(listed[|rows|]) else None
      invariant rows == Listing(listed, m.values)[..|rows|]
      decreases |listed| - |rows|
    {
      var value := m.Lookup(next.value);
      assert listed[|rows|] in listed;
      if value.Some? {
        rows := rows + [(next.value, value.value)];
      }
      key := next.value;
      NextListed(m.order, skipped, |rows|, key) by {
        DistinctWalk(m.order, m.values);
      }
      next := m.GetNextKey(Some(key));
    }
  }

  /** Such a listing is the full one exactly when the all-zero key is not a flow. */
  lemma ListingFromZero<K(!new)>(order: seq<K>, values: map<K, nat>, zero: K)
    requires Walks(order, values)
    ensures Listing(ListedKeys(order, zero), values) == Listing(order, values) <==> zero !in values
  {
    if zero in order {
      assert |ListedKeys(order, zero)| < |order|;
    }
  }
}
