/** A shared packet counter as a protocol: any number of CPUs each look the key of a frame up and
    then add to the element they found or insert a new one, while one reader walks the map, logs and
    deletes. How a program makes a key from a frame is its own; everything here holds for any. */
module SharedCounter {
  import opened Wrappers
  import opened Xdp
  import opened HashMaps

  /** A hash element; it keeps existing for a CPU that holds a pointer to it. */
  datatype Element<K(==)> = Element(key: K, packets: nat)

  /** Where a CPU is in the program: between packets, or past the lookup of a flow. */
  datatype Cpu<K(==)> =
    | Idle
    | Holding(key: K, elem: nat)
    | Missed(key: K)

  /** Where the reader is in its loop: asleep, at the top with a key to process, past the request
      for the following key, or past the log of a row that it has not deleted yet. */
  datatype Reader<K(==)> =
    | Resting
    | Fetched(key: K)
    | Walking(key: K, next: Option<K>)
    | Logged(key: K, next: Option<K>, elem: nat, value: nat)

  datatype Row<K(==)> = Row(key: K, packets: nat)

  /** `parse` is the program's way from a frame to its key, if it is counted; `table` maps keys to
      elements of `heap`; `handled` counts the packets that went through. */
  datatype State<K(==)> = State(
    parse: Frame -> Option<K>,
    capacity: nat,
    table: map<K, nat>,
    heap: seq<Element<K>>,
    cpus: seq<Cpu<K>>,
    reader: Reader<K>,
    rows: seq<Row<K>>,
    handled: multiset<K>)

  datatype Step<K(==)> =
    | Lookup(cpu: nat, frame: Frame)
    | Add(cpu: nat)
    | Insert(cpu: nat)
    | Refused(cpu: nat)
    | GetFirst(found: Option<K>)
    | GetNext(found: Option<K>)
    | Log(stale: nat)
    | Delete

  function Init<K(==)>(parse: Frame -> Option<K>, capacity: nat, cpus: nat): State<K> {
    State(parse, capacity, map[], [], seq(cpus, i => Idle), Resting, [], multiset{})
  }

  predicate CpuAt<K(==)>(s: State<K>, c: nat) {
    c < |s.cpus|
  }

  /** The helpers' contracts: an insert needs room unless the key is there, and may be refused at
      any time; the walk yields present keys, and a key other than the present one it is given. */
  predicate Enabled<K(==)>(s: State<K>, step: Step<K>) {
    match step
    case Lookup(c, f) => CpuAt(s, c) && s.cpus[c].Idle? && s.parse(f).Some?
    case Add(c) => CpuAt(s, c) && s.cpus[c].Holding? && s.cpus[c].elem < |s.heap|
    case Insert(c) => CpuAt(s, c) && s.cpus[c].Missed? && (s.cpus[c].key in s.table || |s.table| < s.capacity)
    case Refused(c) => CpuAt(s, c) && s.cpus[c].Missed?
    case GetFirst(found) => s.reader.Resting? && (found.Some? ==> found.value in s.table)
    case GetNext(found) => s.reader.Fetched? && (found.Some? ==> found.value in s.table)
                              && (found.Some? && s.reader.key in s.table ==> found.value != s.reader.key)
    case Log(_) => s.reader.Walking?
                   && (s.reader.key in s.table ==> s.table[s.reader.key] < |s.heap|)
    case Delete => s.reader.Logged?
  }

  function WakeAt<K(==)>(next: Option<K>): Reader<K> {
    match next
    case None => Resting
    case Some(k) => Fetched(k)
  }

  function Apply<K(==)>(s: State<K>, step: Step<K>): State<K>
    requires Enabled(s, step)
  {
    match step
    case Lookup(c, f) =>
      var k := s.parse(f).value;
      s.(cpus := s.cpus[c := if k in s.table then Holding(k, s.table[k]) else Missed(k)])
    case Add(c) =>
      var Holding(k, e) := s.cpus[c];
      s.(heap := s.heap[e := s.heap[e].(packets := s.heap[e].packets + 1)],
         cpus := s.cpus[c := Idle],
         handled := s.handled + multiset{k})
    case Insert(c) =>
      var k := s.cpus[c].key;
      s.(heap := s.heap + [Element(k, 1)],
         table := s.table[k := |s.heap|],
         cpus := s.cpus[c := Idle],
         handled := s.handled + multiset{k})
    case Refused(c) =>
      s.(cpus := s.cpus[c := Idle], handled := s.handled + multiset{s.cpus[c].key})
    case GetFirst(found) => s.(reader := WakeAt(found))
    case GetNext(found) => s.(reader := Walking(s.reader.key, found))
    case Log(stale) =>
      // the return code of the lookup is ignored: an absent key would log what `value` held
      var k := s.reader.key;
      var e := if k in s.table then s.table[k] else |s.heap|;
      var value := if k in s.table then s.heap[e].packets else stale;
      s.(rows := s.rows + [Row(k, value)], reader := Logged(k, s.reader.next, e, value))
    case Delete =>
      s.(table := s.table - {s.reader.key}, reader := WakeAt(s.reader.next))
  }

  // ---- invariant

  predicate ElementOf<K(==)>(s: State<K>, e: nat, k: K) {
    e < |s.heap| && s.heap[e].key == k && s.heap[e].packets >= 1
  }

  predicate NextIsPresent<K(==)>(s: State<K>, k: K, next: Option<K>) {
    next.Some? ==> next.value in s.table && next.value != k
  }

  predicate ReaderOk<K(==)>(s: State<K>) {
    match s.reader
    case Resting => true
    case Fetched(k) => k in s.table
    case Walking(k, next) => k in s.table && NextIsPresent(s, k, next)
    case Logged(k, next, e, v) =>
      k in s.table && NextIsPresent(s, k, next) && ElementOf(s, e, k) && 1 <= v <= s.heap[e].packets
  }

  /** Every pointer is to an element of its flow, elements count at least one packet, the map holds
      no more than its capacity, and the keys the reader is about to use are present: its unchecked
      lookup always succeeds. */
  ghost predicate Inv<K>(s: State<K>) {
    && |s.table| <= s.capacity
    && (forall k | k in s.table :: ElementOf(s, s.table[k], k))
    && (forall c | 0 <= c < |s.cpus| && s.cpus[c].Holding? :: ElementOf(s, s.cpus[c].elem, s.cpus[c].key))
    && ReaderOk(s)
  }

  lemma InsertKeepsInv<K>(s: State<K>, c: nat)
    requires Inv(s) && Enabled(s, Insert(c))
    ensures Inv(Apply(s, Insert(c)))
  {
    InsertedSize(s.table, s.cpus[c].key, |s.heap|);
  }

  lemma AddKeepsInv<K>(s: State<K>, c: nat)
    requires Inv(s) && Enabled(s, Add(c))
    ensures Inv(Apply(s, Add(c)))
  {
  }

  lemma LookupKeepsInv<K>(s: State<K>, c: nat, f: Frame)
    requires Inv(s) && Enabled(s, Lookup(c, f))
    ensures Inv(Apply(s, Lookup(c, f)))
  {
  }

  lemma LogKeepsInv<K>(s: State<K>, stale: nat)
    requires Inv(s) && Enabled(s, Log(stale))
    ensures Inv(Apply(s, Log(stale)))
    ensures Apply(s, Log(stale)).rows == s.rows + [Row(s.reader.key, InMap(s, s.reader.key))]
  {
  }

  lemma DeleteKeepsInv<K>(s: State<K>)
    requires Inv(s) && Enabled(s, Delete)
    ensures Inv(Apply(s, Delete))
  {
    assert Apply(s, Delete).table.Keys == s.table.Keys - {s.reader.key};
  }

  lemma WalkKeepsInv<K>(s: State<K>, step: Step<K>)
    requires Inv(s) && Enabled(s, step) && (step.GetFirst? || step.GetNext? || step.Refused?)
    ensures Inv(Apply(s, step))
  {
  }

  lemma StepKeepsInv<K>(s: State<K>, step: Step<K>)
    requires Inv(s) && Enabled(s, step)
    ensures var t := Apply(s, step);
      Inv(t) && |t.cpus| == |s.cpus| && t.capacity == s.capacity && t.parse == s.parse
  {
    hide Inv;
    match step
    case Lookup(c, f) => LookupKeepsInv(s, c, f);
    case Add(c) => AddKeepsInv(s, c);
    case Insert(c) => InsertKeepsInv(s, c);
    case Log(stale) => LogKeepsInv(s, stale);
    case Delete => DeleteKeepsInv(s);
    case _ => WalkKeepsInv(s, step);
  }

  // ---- conservation

  /** Packets of flow `k` in the rows of the log. */
  function InRows<K(==)>(rows: seq<Row<K>>, k: K): nat {
    if rows == [] then 0
    else InRows(rows[..|rows| - 1], k) + (if rows[|rows| - 1].key == k then rows[|rows| - 1].packets else 0)
  }

  function InMap<K(==)>(s: State<K>, k: K): nat {
    if k in s.table && s.table[k] < |s.heap| then s.heap[s.table[k]].packets else 0
  }

  /** The part of the map's count for `k` that is not already in the log. */
  function Unlogged<K(==)>(s: State<K>, k: K): nat {
    if s.reader.Logged? && s.reader.key == k && k in s.table && s.table[k] == s.reader.elem
    then if InMap(s, k) >= s.reader.value then InMap(s, k) - s.reader.value else 0
    else InMap(s, k)
  }

  predicate MissedBy<K(==)>(s: State<K>, c: nat, k: K) {
    CpuAt(s, c) && s.cpus[c] == Missed(k)
  }

  /** What a step loses of flow `k`: an addition to a detached element, a count overwritten by an
      insert after a common miss, a refused insert, or what came in between log and delete. */
  function Loss<K(==)>(s: State<K>, step: Step<K>, k: K): nat {
    match step
    case Add(c) =>
      if CpuAt(s, c) && s.cpus[c].Holding? && s.cpus[c].key == k
         && !(k in s.table && s.table[k] == s.cpus[c].elem) then 1 else 0
    case Insert(c) => if MissedBy(s, c, k) then Unlogged(s, k) else 0
    case Refused(c) => if MissedBy(s, c, k) then 1 else 0
    case Delete => if s.reader.Logged? && s.reader.key == k then Unlogged(s, k) else 0
    case _ => 0
  }

  lemma RowsGrow<K>(rows: seq<Row<K>>, r: Row<K>, k: K)
    ensures InRows(rows + [r], k) == InRows(rows, k) + (if r.key == k then r.packets else 0)
  {
    assert (rows + [r])[..|rows|] == rows;
  }

  /** Handled packets of `k` are in the log, in the map or lost: a balance a change keeps. */
  predicate Balanced<K(==)>(s: State<K>, t: State<K>, loss: nat, k: K) {
    t.handled[k] + InRows(s.rows, k) + Unlogged(s, k) == s.handled[k] + InRows(t.rows, k) + Unlogged(t, k) + loss
  }

  lemma AddConserves<K>(s: State<K>, c: nat, k: K)
    requires Inv(s) && Enabled(s, Add(c))
    ensures Balanced(s, Apply(s, Add(c)), Loss(s, Add(c), k), k)
  {
    hide InRows;
  }

  lemma InsertConserves<K>(s: State<K>, c: nat, k: K)
    requires Inv(s) && Enabled(s, Insert(c))
    ensures Balanced(s, Apply(s, Insert(c)), Loss(s, Insert(c), k), k)
  {
    hide InRows;
  }

  lemma LogConserves<K>(s: State<K>, stale: nat, k: K)
    requires Inv(s) && Enabled(s, Log(stale))
    ensures Balanced(s, Apply(s, Log(stale)), 0, k)
  {
    hide InRows;
    var t := Apply(s, Log(stale));
    RowsGrow(s.rows, t.rows[|s.rows|], k);
  }

  /** Each step moves packets of a flow between "handled", the log, the map and the losses. */
  lemma StepConserves<K>(s: State<K>, step: Step<K>, k: K)
    requires Inv(s) && Enabled(s, step)
    ensures Balanced(s, Apply(s, step), Loss(s, step, k), k)
  {
    hide InRows;
    match step
    case Add(c) => AddConserves(s, c, k);
    case Insert(c) => InsertConserves(s, c, k);
    case Log(stale) => LogConserves(s, stale, k);
    case _ =>
  }

  predicate Valid<K(==)>(s: State<K>, steps: seq<Step<K>>)
    decreases |steps|
  {
    steps == [] || (Enabled(s, steps[0]) && Valid(Apply(s, steps[0]), steps[1..]))
  }

  function Run<K(==)>(s: State<K>, steps: seq<Step<K>>): State<K>
    requires Valid(s, steps)
    decreases |steps|
  {
    if steps == [] then s else Run(Apply(s, steps[0]), steps[1..])
  }

  function Losses<K(==)>(s: State<K>, steps: seq<Step<K>>, k: K): nat
    requires Valid(s, steps)
    decreases |steps|
  {
    if steps == [] then 0 else Loss(s, steps[0], k) + Losses(Apply(s, steps[0]), steps[1..], k)
  }

  lemma {:induction false} RunConserves<K>(s: State<K>, steps: seq<Step<K>>, k: K)
    requires Inv(s) && Valid(s, steps)
    ensures var t := Run(s, steps);
      && Inv(t) && |t.cpus| == |s.cpus| && t.capacity == s.capacity && t.parse == s.parse
      && Balanced(s, t, Losses(s, steps, k), k)
    decreases |steps|
  {
    if steps == [] {
    } else {
      StepKeepsInv(s, steps[0]);
      StepConserves(s, steps[0], k);
      RunConserves(Apply(s, steps[0]), steps[1..], k);
    }
  }

  // ---- every packet is handled once

  /** Frames of `k` whose program run has begun. */
  function Arrivals<K(==)>(parse: Frame -> Option<K>, steps: seq<Step<K>>, k: K): nat {
    if steps == [] then 0
    else (if steps[0].Lookup? && parse(steps[0].frame) == Some(k) then 1 else 0) + Arrivals(parse, steps[1..], k)
  }

  predicate Busy<K(==)>(c: Cpu<K>, k: K) {
    !c.Idle? && c.key == k
  }

  /** CPUs that are mid-packet on `k`. */
  function InFlight<K(==)>(cpus: seq<Cpu<K>>, k: K): nat {
    if cpus == [] then 0 else (if Busy(cpus[0], k) then 1 else 0) + InFlight(cpus[1..], k)
  }

  lemma {:induction false} InFlightAfter<K>(cpus: seq<Cpu<K>>, c: nat, x: Cpu<K>, k: K)
    requires c < |cpus|
    ensures InFlight(cpus[c := x], k) + (if Busy(cpus[c], k) then 1 else 0)
         == InFlight(cpus, k) + (if Busy(x, k) then 1 else 0)
    decreases c
  {
    if c == 0 {
      assert cpus[0 := x][1..] == cpus[1..];
    } else {
      assert cpus[c := x][1..] == cpus[1..][c - 1 := x];
      InFlightAfter(cpus[1..], c - 1, x, k);
    }
  }

  lemma StepHandles<K>(s: State<K>, step: Step<K>, k: K)
    requires Enabled(s, step)
    ensures var t := Apply(s, step);
      t.parse == s.parse && t.handled[k] + InFlight(t.cpus, k)
      == s.handled[k] + InFlight(s.cpus, k) + (if step.Lookup? && s.parse(step.frame) == Some(k) then 1 else 0)
  {
    hide InFlight;
    if step.Lookup? || step.Add? || step.Insert? || step.Refused? {
      InFlightAfter(s.cpus, step.cpu, Apply(s, step).cpus[step.cpu], k);
    }
  }

  lemma {:induction false} RunHandles<K>(s: State<K>, steps: seq<Step<K>>, k: K)
    requires Valid(s, steps)
    ensures var t := Run(s, steps);
      t.handled[k] + InFlight(t.cpus, k) == s.handled[k] + InFlight(s.cpus, k) + Arrivals(s.parse, steps, k)
    decreases |steps|
  {
    hide Enabled, Apply, InFlight;
    if steps == [] {
    } else {
      StepHandles(s, steps[0], k);
      RunHandles(Apply(s, steps[0]), steps[1..], k);
    }
  }

  lemma {:induction false} IdleAtStart<K>(n: nat, k: K)
    ensures InFlight(seq(n, i => Cpu<K>.Idle), k) == 0
  {
    if n == 0 {
    } else {
      assert seq(n, i => Cpu<K>.Idle)[1..] == seq(n - 1, i => Cpu<K>.Idle);
      IdleAtStart(n - 1, k);
    }
  }

  // ---- a batch of the reader

  /** The map as user space reads it. */
  function Counts<K(==)>(s: State<K>): (m: map<K, nat>)
    ensures m.Keys == s.table.Keys
  {
    map k | k in s.table :: InMap(s, k)
  }

  /** The rows for some keys, each with its count in the map. */
  function RowsOf<K(==)>(s: State<K>, keys: seq<K>): (rows: seq<Row<K>>)
    ensures |rows| == |keys| && forall i | 0 <= i < |keys| :: rows[i] == Row(keys[i], InMap(s, keys[i]))
  {
    seq(|keys|, i requires 0 <= i < |keys| => Row(keys[i], InMap(s, keys[i])))
  }

  function FirstOf<K>(order: seq<K>): Option<K> {
    if order == [] then None else Some(order[0])
  }

  /** The steps of the reader for the keys still to come, when nobody else moves. */
  function Drain<K>(order: seq<K>): seq<Step<K>> {
    if order == [] then []
    else [GetNext(FirstOf(order[1..])), Log(0), Delete] + Drain(order[1..])
  }

  function Batch<K>(order: seq<K>): seq<Step<K>> {
    [GetFirst(FirstOf(order))] + Drain(order)
  }

  lemma Prefixed<K>(s: State<K>, step: Step<K>, rest: seq<Step<K>>)
    requires Enabled(s, step) && Valid(Apply(s, step), rest)
    ensures Valid(s, [step] + rest) && Run(s, [step] + rest) == Run(Apply(s, step), rest)
  {
    assert ([step] + rest)[1..] == rest;
  }

  lemma {:induction false} RunAppends<K>(s: State<K>, a: seq<Step<K>>, b: seq<Step<K>>)
    requires Valid(s, a) && Valid(Run(s, a), b)
    ensures Valid(s, a + b) && Run(s, a + b) == Run(Run(s, a), b)
    decreases |a|
  {
    hide Enabled, Apply;
    if a == [] {
      assert a + b == b;
    } else {
      assert (a + b)[1..] == a[1..] + b;
      RunAppends(Apply(s, a[0]), a[1..], b);
    }
  }

  /** One round of the loop: the following key is asked for before the row is logged and deleted. */
  lemma OneRow<K>(s: State<K>, k: K, next: Option<K>)
    requires Inv(s) && s.reader == Fetched(k) && (next.Some? ==> next.value in s.table && next.value != k)
    ensures var steps := [GetNext(next), Log(0), Delete];
      && Valid(s, steps)
      && Run(s, steps) == s.(table := s.table - {k}, rows := s.rows + [Row(k, InMap(s, k))], reader := WakeAt(next))
  {
    var s1 := Apply(s, GetNext(next));
    var s2 := Apply(s1, Log(0));
    var s3 := Apply(s2, Delete);
    ThreeSteps(s, GetNext(next), Log(0), Delete);
  }

  lemma ThreeSteps<K>(s: State<K>, a: Step<K>, b: Step<K>, c: Step<K>)
    requires Enabled(s, a) && Enabled(Apply(s, a), b) && Enabled(Apply(Apply(s, a), b), c)
    ensures Valid(s, [a, b, c]) && Run(s, [a, b, c]) == Apply(Apply(Apply(s, a), b), c)
  {
    hide Enabled, Apply;
    var s1 := Apply(s, a);
    var s2 := Apply(s1, b);
    Prefixed(s2, c, []);
    Prefixed(s1, b, [c]);
    Prefixed(s, a, [b, c]);
    assert [c] + [] == [c] && [b] + [c] == [b, c] && [a] + [b, c] == [a, b, c];
  }

  lemma RowKeepsInv<K>(s: State<K>, k: K, next: Option<K>)
    requires Inv(s) && Valid(s, [GetNext(next), Log(0), Delete])
    ensures Inv(Run(s, [GetNext(next), Log(0), Delete]))
  {
    RunConserves(s, [GetNext(next), Log(0), Delete], k);
  }

  lemma KeptCounts<K(!new)>(s: State<K>, t: State<K>, order: seq<K>)
    requires order != [] && Walks(order, Counts(s)) && t.heap == s.heap && t.table == s.table - {order[0]}
    ensures forall i | 1 <= i < |order| :: order[i] != order[0] && InMap(t, order[i]) == InMap(s, order[i])
  {
  }

  lemma RestIsWalked<K(!new)>(s: State<K>, t: State<K>, order: seq<K>)
    requires order != [] && Walks(order, Counts(s)) && t.heap == s.heap && t.table == s.table - {order[0]}
    ensures Walks(order[1..], Counts(t))
  {
    WalkAfterFirst(order, Counts(s));
    hide Walks;
    assert Counts(t) == Counts(s) - {order[0]};
  }

  /** What is left of the walk and of its rows when the first key is gone. */
  lemma RestOfWalk<K(!new)>(s: State<K>, t: State<K>, order: seq<K>)
    requires order != [] && Walks(order, Counts(s)) && t.heap == s.heap && t.table == s.table - {order[0]}
    ensures Walks(order[1..], Counts(t))
    ensures RowsOf(s, order) == [Row(order[0], InMap(s, order[0]))] + RowsOf(t, order[1..])
  {
    hide Counts, InMap, Walks;
    RestIsWalked(s, t, order);
    KeptCounts(s, t, order);
    var rows, rest := RowsOf(s, order), RowsOf(t, order[1..]);
    assert forall i | 1 <= i < |order| :: rows[i] == rest[i - 1];
  }

  lemma FollowingKey<K(!new)>(s: State<K>, order: seq<K>)
    requires order != [] && Walks(order, Counts(s))
    ensures FirstOf(order[1..]).Some? ==>
            FirstOf(order[1..]).value in s.table && FirstOf(order[1..]).value != order[0]
  {
    if |order| > 1 {
      assert order[1..][0] == order[1] && order[1] in order;
    }
  }

  lemma NothingToDrain<K(!new)>(s: State<K>)
    requires Walks([], Counts(s)) && s.reader == Resting
    ensures s == s.(table := map[], rows := s.rows + RowsOf(s, []), reader := Resting)
  {
    assert s.table.Keys == {} && s.rows + RowsOf(s, []) == s.rows;
    assert s.table == map[];
  }

  /** A round of the loop leaves the same task for the rest of the walk. */
  lemma RoundDone<K(!new)>(s: State<K>, order: seq<K>) returns (steps: seq<Step<K>>, t: State<K>)
    requires order != [] && Inv(s) && Walks(order, Counts(s)) && s.reader == WakeAt(FirstOf(order))
    ensures steps == [GetNext(FirstOf(order[1..])), Log(0), Delete] && Valid(s, steps) && t == Run(s, steps)
    ensures Inv(t) && Walks(order[1..], Counts(t)) && t.reader == WakeAt(FirstOf(order[1..]))
    ensures s.rows + RowsOf(s, order) == t.rows + RowsOf(t, order[1..])
    ensures t == s.(table := t.table, rows := t.rows, reader := t.reader)
  {
    hide Inv, Enabled, Apply, InMap, Counts, Walks, RowsOf, Valid, Run;
    var k, next := order[0], FirstOf(order[1..]);
    steps := [GetNext(next), Log(0), Delete];
    FollowingKey(s, order);
    OneRow(s, k, next);
    RowKeepsInv(s, k, next);
    t := Run(s, steps);
    RestOfWalk(s, t, order);
    assert (s.rows + [Row(k, InMap(s, k))]) + RowsOf(t, order[1..]) == s.rows + RowsOf(s, order);
  }

  lemma {:induction false} DrainEmpties<K(!new)>(s: State<K>, order: seq<K>)
    requires Inv(s) && Walks(order, Counts(s)) && s.reader == WakeAt(FirstOf(order))
    ensures Valid(s, Drain(order))
    ensures Run(s, Drain(order)) == s.(table := map[], rows := s.rows + RowsOf(s, order), reader := Resting)
    decreases |order|
  {
    hide Inv, Enabled, Apply, InMap, Counts, Walks, RowsOf, Listing;
    if order == [] {
      NothingToDrain(s);
    } else {
      var steps, t := RoundDone(s, order);
      hide Valid, Run, FirstOf, WakeAt;
      DrainEmpties(t, order[1..]);
      RunAppends(s, steps, Drain(order[1..]));
    }
  }

  /** The reader's batch, when nobody else moves: whatever order the map is walked in, it logs one row
      for every entry, with its count, leaves the map empty and goes back to sleep. */
  lemma BatchDrains<K(!new)>(s: State<K>, order: seq<K>)
    requires Inv(s) && s.reader.Resting? && Walks(order, Counts(s))
    ensures Valid(s, Batch(order))
    ensures Run(s, Batch(order)) == s.(table := map[], rows := s.rows + RowsOf(s, order))
    ensures |RowsOf(s, order)| == |order| == |s.table|
    ensures forall i | 0 <= i < |order| :: RowsOf(s, order)[i].packets == Listing(order, Counts(s))[i].1
  {
    hide InMap, Run, Valid;
    var first := GetFirst(FirstOf(order));
    var t := Apply(s, first);
    StepKeepsInv(s, first);
    assert Counts(t) == Counts(s) && RowsOf(t, order) == RowsOf(s, order) by {
      SameRows(s, t, order);
    }
    ListingIsExact(order, Counts(s));
    hide Counts, RowsOf;
    DrainEmpties(t, order);
    Prefixed(s, first, Drain(order));
  }

  lemma SameRows<K>(s: State<K>, t: State<K>, order: seq<K>)
    requires t.table == s.table && t.heap == s.heap
    ensures Counts(t) == Counts(s) && RowsOf(t, order) == RowsOf(s, order)
  {
  }

  // ---- when nothing is lost

  /** The map counts packets of `k` that were not logged: there is an entry, and it is not the one
      just logged at the value it was logged with. */
  predicate Grown<K(==)>(s: State<K>, k: K) {
    && k in s.table
    && !(s.reader.Logged? && s.reader.key == k && s.table[k] == s.reader.elem && InMap(s, k) == s.reader.value)
  }

  /** A step after which no packet of `k` is missing: an addition goes to the entry in the map, an
      insert meets no unlogged packets and is not refused, and a delete takes what was logged. */
  predicate Keeps<K(==)>(s: State<K>, step: Step<K>, k: K) {
    match step
    case Add(c) =>
      CpuAt(s, c) && s.cpus[c].Holding? && s.cpus[c].key == k ==> k in s.table && s.table[k] == s.cpus[c].elem
    case Insert(c) => !(MissedBy(s, c, k) && Grown(s, k))
    case Refused(c) => !MissedBy(s, c, k)
    case Delete => !(s.reader.Logged? && s.reader.key == k && Grown(s, k))
    case _ => true
  }

  predicate KeepsAll<K(==)>(s: State<K>, steps: seq<Step<K>>, k: K)
    requires Valid(s, steps)
    decreases |steps|
  {
    steps == [] || (Keeps(s, steps[0], k) && KeepsAll(Apply(s, steps[0]), steps[1..], k))
  }

  lemma KeepingIsNoLoss<K>(s: State<K>, step: Step<K>, k: K)
    requires Inv(s)
    ensures Loss(s, step, k) == 0 <==> Keeps(s, step, k)
  {
  }

  lemma {:induction false} KeepingAllIsNoLoss<K>(s: State<K>, steps: seq<Step<K>>, k: K)
    requires Inv(s) && Valid(s, steps)
    ensures Losses(s, steps, k) == 0 <==> KeepsAll(s, steps, k)
    decreases |steps|
  {
    hide Inv, Enabled, Apply, Loss, Keeps;
    if steps == [] {
    } else {
      KeepingIsNoLoss(s, steps[0], k);
      StepKeepsInv(s, steps[0]);
      KeepingAllIsNoLoss(Apply(s, steps[0]), steps[1..], k);
    }
  }

  /** Conservation over every interleaving of any number of CPUs and the reader: the packets logged
      and those still in the map never exceed the packets handled, which are the frames that arrived but
      for those a CPU is busy with; they fall short of them by exactly the
      losses of the run, and are all of them if and only if no step of the run drops one. */
  lemma Conservation<K>(parse: Frame -> Option<K>, capacity: nat, cpus: nat, steps: seq<Step<K>>, k: K)
    requires Valid(Init(parse, capacity, cpus), steps)
    ensures var s := Init(parse, capacity, cpus);
      var t := Run(s, steps);
      && Inv(t)
      && Arrivals(parse, steps, k) == t.handled[k] + InFlight(t.cpus, k)
      && t.handled[k] == InRows(t.rows, k) + Unlogged(t, k) + Losses(s, steps, k)
      && (t.handled[k] == InRows(t.rows, k) + Unlogged(t, k) <==> KeepsAll(s, steps, k))
  {
    RunConserves(Init(parse, capacity, cpus), steps, k);
    KeepingAllIsNoLoss(Init(parse, capacity, cpus), steps, k);
    RunHandles(Init(parse, capacity, cpus), steps, k);
    IdleAtStart(cpus, k);
  }
}
