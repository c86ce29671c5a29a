/** Row-partitioned parallel matrix multiplication: threads interleave step by step, each clearing
    and accumulating the cells of its own rows of the shared result. */
module RowMultiply {
  import opened Arithmetic

  const SIZE := 1000
  const NUM_THREADS := 12

  type Matrix = seq<seq<int>>

  predicate Square(m: Matrix, n: nat) {
    |m| == n && forall r | 0 <= r < n :: |m[r]| == n
  }

  /** The inner product of row `r` and column `c` over the first `z` terms. */
  function Dot(a: Matrix, b: Matrix, n: nat, r: nat, c: nat, z: nat): int
    requires Square(a, n) && Square(b, n) && r < n && c < n && z <= n
  {
    if z == 0 then 0 else Dot(a, b, n, r, c, z - 1) + a[r][z - 1] * b[z - 1][c]
  }

  /** The two matrices being multiplied. */
  datatype Problem = Problem(a: Matrix, b: Matrix, n: nat) {
    predicate Ok() {
      Square(a, n) && Square(b, n)
    }

    function Entry(r: nat, c: nat, z: nat): int
      requires Ok() && r < n && c < n && z <= n
    {
      Dot(a, b, n, r, c, z)
    }
  }

  /** Next thing a thread does: clear a cell, read it to add a term, write the sum back, or nothing. */
  datatype Thread =
    | Clear(x: nat, y: nat)
    | Read(x: nat, y: nat, z: nat)
    | Write(x: nat, y: nat, z: nat, sum: int)
    | Halted

  /** Rows from `start` up to but not including `end`. */
  datatype Rows = Rows(start: nat, end: nat) {
    predicate Has(r: nat) {
      start <= r < end
    }
  }

  datatype State = State(result: Matrix, threads: seq<Thread>)

  function Begin(rows: Rows, n: nat): Thread {
    if rows.start < rows.end && n > 0 then Clear(rows.start, 0) else Halted
  }

  /** The cell after `(x, y)` in the two outer loops. */
  function NextCell(rows: Rows, n: nat, x: nat, y: nat): Thread {
    if y + 1 < n then Clear(x, y + 1)
    else if x + 1 < rows.end then Clear(x + 1, 0)
    else Halted
  }

  function SetCell(m: Matrix, x: nat, y: nat, v: int): Matrix
    requires x < |m| && y < |m[x]|
  {
    m[x := m[x][y := v]]
  }

  /** Where a thread can be: inside its rows and columns. */
  predicate Placed(t: Thread, rows: Rows, n: nat) {
    match t
    case Halted => true
    case Clear(x, y) => rows.start <= x < rows.end && y < n
    case Read(x, y, z) => rows.start <= x < rows.end && y < n && z < n
    case Write(x, y, z, _) => rows.start <= x < rows.end && y < n && z < n
  }

  predicate Fits(all: seq<Rows>, n: nat) {
    forall i | 0 <= i < |all| :: all[i].end <= n
  }

  ghost predicate Disjoint(all: seq<Rows>) {
    forall i, j, r: nat | 0 <= i < j < |all| && all[i].Has(r) :: !all[j].Has(r)
  }

  predicate CanStep(p: Problem, all: seq<Rows>, s: State, i: nat) {
    && p.Ok() && Fits(all, p.n) && Square(s.result, p.n) && |s.threads| == |all|
    && i < |all| && !s.threads[i].Halted? && Placed(s.threads[i], all[i], p.n)
  }

  /** One step of thread `i`; `+=` is a separate read and write. */
  function StepOf(p: Problem, all: seq<Rows>, s: State, i: nat): State
    requires CanStep(p, all, s, i)
  {
    match s.threads[i]
    case Clear(x, y) =>
      State(SetCell(s.result, x, y, 0), s.threads[i := Read(x, y, 0)])
    case Read(x, y, z) =>
      s.(threads := s.threads[i := Write(x, y, z, s.result[x][y] + p.a[x][z] * p.b[z][y])])
    case Write(x, y, z, sum) =>
      State(SetCell(s.result, x, y, sum),
            s.threads[i := if z + 1 < p.n then Read(x, y, z + 1) else NextCell(all[i], p.n, x, y)])
  }

  function Start(initial: Matrix, all: seq<Rows>, n: nat): State {
    State(initial, seq(|all|, i requires 0 <= i < |all| => Begin(all[i], n)))
  }

  // ---- invariant

  /** Cells of its rows that a thread has left behind. */
  predicate Behind(t: Thread, rows: Rows, r: nat, c: nat) {
    rows.Has(r) && (t.Halted? || r < t.x || (r == t.x && c < t.y))
  }

  /** What one thread has achieved: every cell behind it is final, the current one is a partial sum. */
  ghost predicate Progress(p: Problem, rows: Rows, result: Matrix, t: Thread)
    requires p.Ok() && Square(result, p.n) && rows.end <= p.n
  {
    && Placed(t, rows, p.n)
    && (forall r: nat, c: nat | c < p.n && Behind(t, rows, r, c) :: result[r][c] == p.Entry(r, c, p.n))
    && (t.Read? ==> result[t.x][t.y] == p.Entry(t.x, t.y, t.z))
    && (t.Write? ==> result[t.x][t.y] == p.Entry(t.x, t.y, t.z) && t.sum == p.Entry(t.x, t.y, t.z + 1))
  }

  predicate Assigned(all: seq<Rows>, r: nat) {
    exists i | 0 <= i < |all| :: all[i].Has(r)
  }

  ghost predicate Inv(p: Problem, all: seq<Rows>, initial: Matrix, s: State) {
    && p.Ok() && Fits(all, p.n) && Disjoint(all)
    && Square(initial, p.n) && Square(s.result, p.n) && |s.threads| == |all|
    && (forall i | 0 <= i < |all| :: Progress(p, all[i], s.result, s.threads[i]))
    && (forall r: nat | r < p.n && !Assigned(all, r) :: s.result[r] == initial[r])
  }

  lemma OwnProgress(p: Problem, all: seq<Rows>, s: State, i: nat)
    requires CanStep(p, all, s, i) && Progress(p, all[i], s.result, s.threads[i])
    ensures Square(StepOf(p, all, s, i).result, p.n)
    ensures Progress(p, all[i], StepOf(p, all, s, i).result, StepOf(p, all, s, i).threads[i])
  {
  }

  /** A thread is not disturbed by a change in a row that is not its own. */
  lemma OthersProgress(p: Problem, rows: Rows, before: Matrix, after: Matrix, t: Thread)
    requires p.Ok() && Square(before, p.n) && Square(after, p.n) && rows.end <= p.n
    requires Progress(p, rows, before, t)
    requires forall r: nat | rows.Has(r) :: after[r] == before[r]
    ensures Progress(p, rows, after, t)
  {
  }

  lemma StepKeepsInv(p: Problem, all: seq<Rows>, initial: Matrix, s: State, i: nat)
    requires Inv(p, all, initial, s) && CanStep(p, all, s, i)
    ensures Inv(p, all, initial, StepOf(p, all, s, i))
  {
    var t, x := StepOf(p, all, s, i), s.threads[i].x;
    OwnProgress(p, all, s, i);
    assert forall r: nat | r < p.n && r != x :: t.result[r] == s.result[r];
    forall j | 0 <= j < |all| && j != i
      ensures Progress(p, all[j], t.result, t.threads[j])
    {
      assert all[i].Has(x);
      assert !all[j].Has(x);
      OthersProgress(p, all[j], s.result, t.result, s.threads[j]);
    }
    assert Assigned(all, x);
  }

  /** A schedule: which thread moves, step by step. */
  predicate Schedule(p: Problem, all: seq<Rows>, s: State, steps: seq<nat>)
    decreases |steps|
  {
    steps == [] || (CanStep(p, all, s, steps[0]) && Schedule(p, all, StepOf(p, all, s, steps[0]), steps[1..]))
  }

  function Run(p: Problem, all: seq<Rows>, s: State, steps: seq<nat>): State
    requires Schedule(p, all, s, steps)
    decreases |steps|
  {
    if steps == [] then s else Run(p, all, StepOf(p, all, s, steps[0]), steps[1..])
  }

  lemma {:induction false} RunKeepsInv(p: Problem, all: seq<Rows>, initial: Matrix, s: State, steps: seq<nat>)
    requires Inv(p, all, initial, s) && Schedule(p, all, s, steps)
    ensures Inv(p, all, initial, Run(p, all, s, steps))
    decreases |steps|
  {
    hide Inv, StepOf, CanStep;
    if steps == [] {
    } else {
      StepKeepsInv(p, all, initial, s, steps[0]);
      RunKeepsInv(p, all, initial, StepOf(p, all, s, steps[0]), steps[1..]);
    }
  }

  // ---- the partition of main()

  function Partition(threads: nat, n: nat): (all: seq<Rows>)
    requires threads > 0
  {
    Blocks(threads, n / threads)
  }

  function Blocks(threads: nat, q: nat): (all: seq<Rows>)
    ensures |all| == threads
    ensures forall i | 0 <= i < threads :: all[i] == Rows(Product(i, q), Product(i + 1, q))
  {
    seq(threads, i requires 0 <= i < threads => Rows(Product(i, q), Product(i + 1, q)))
  }

  /** Rows the threads are given: T * (N / T). */
  function Covered(threads: nat, n: nat): nat
    requires threads > 0
  {
    Product(threads, n / threads)
  }

  lemma {:induction false} OwnerOfRow(threads: nat, q: nat, r: nat) returns (i: nat)
    requires r < Product(threads, q)
    ensures i < threads && Product(i, q) <= r < Product(i + 1, q)
  {
    if r >= Product(threads - 1, q) {
      i := threads - 1;
    } else {
      i := OwnerOfRow(threads - 1, q, r);
    }
  }

  lemma BlocksCover(threads: nat, q: nat, n: nat)
    requires Product(threads, q) <= n
    ensures Fits(Blocks(threads, q), n) && Disjoint(Blocks(threads, q))
    ensures forall r: nat :: Assigned(Blocks(threads, q), r) <==> r < Product(threads, q)
  {
    hide Product;
    var all := Blocks(threads, q);
    forall i | 0 <= i < threads
      ensures all[i].end <= Product(threads, q)
    {
      Scaled(i + 1, threads, q);
    }
    forall i, j, r: nat | 0 <= i < j < |all| && all[i].Has(r)
      ensures !all[j].Has(r)
    {
      Scaled(i + 1, j, q);
    }
    forall r: nat | r < Product(threads, q)
      ensures Assigned(all, r)
    {
      var i := OwnerOfRow(threads, q, r);
      assert all[i].Has(r);
    }
  }

  /** The ranges are disjoint, inside the matrix, and cover exactly the first T * (N / T) rows: the
      last N mod T rows belong to nobody. */
  lemma PartitionCovers(threads: nat, n: nat)
    requires threads > 0
    ensures Fits(Partition(threads, n), n) && Disjoint(Partition(threads, n))
    ensures forall r: nat :: Assigned(Partition(threads, n), r) <==> r < Covered(threads, n)
    ensures Covered(threads, n) == n - n % threads
  {
    hide Fits, Disjoint, Assigned;
    assert Covered(threads, n) == n - n % threads;
    BlocksCover(threads, n / threads, n);
  }

  /** With the program's constants four rows belong to nobody. */
  lemma RowsOfTheProgram(r: nat)
    ensures Assigned(Partition(NUM_THREADS, SIZE), r) <==> r < 996
  {
    PartitionCovers(NUM_THREADS, SIZE);
  }

  predicate AllHalted(s: State) {
    forall i | 0 <= i < |s.threads| :: s.threads[i].Halted?
  }

  lemma AssignedIsDone(p: Problem, all: seq<Rows>, initial: Matrix, s: State, r: nat, c: nat)
    requires Inv(p, all, initial, s) && AllHalted(s) && Assigned(all, r) && r < p.n && c < p.n
    ensures s.result[r][c] == p.Entry(r, c, p.n)
  {
    var i :| 0 <= i < |all| && all[i].Has(r);
    assert Behind(s.threads[i], all[i], r, c);
  }

  // ---- running to the end

  /** Steps a thread still has to take. */
  function Work(t: Thread, rows: Rows, n: nat): int {
    match t
    case Halted => 0
    case Clear(x, y) => ((rows.end - x) * n - y) * (2 * n + 1)
    case Read(x, y, z) => ((rows.end - x) * n - y - 1) * (2 * n + 1) + 2 * (n - z)
    case Write(x, y, z, _) => ((rows.end - x) * n - y - 1) * (2 * n + 1) + 2 * (n - z) - 1
  }

  function TotalWork(threads: seq<Thread>, all: seq<Rows>, n: nat): int
    requires |threads| == |all|
  {
    if threads == [] then 0 else Work(threads[0], all[0], n) + TotalWork(threads[1..], all[1..], n)
  }

  lemma CellCount(rows: Rows, n: nat, x: nat, y: nat)
    requires x < rows.end && y < n
    ensures Work(NextCell(rows, n, x, y), rows, n) == ((rows.end - x) * n - y - 1) * (2 * n + 1)
  {
    assert (rows.end - (x + 1)) * n == (rows.end - x) * n - n;
    if y + 1 == n && x + 1 == rows.end {
      assert (rows.end - x) * n - y - 1 == 0;
    }
  }

  lemma WorkPositive(t: Thread, rows: Rows, n: nat)
    requires Placed(t, rows, n)
    ensures if t.Halted? then Work(t, rows, n) == 0 else Work(t, rows, n) > 0
  {
    if !t.Halted? {
      var cells := (rows.end - t.x) * n - t.y;
      assert (rows.end - t.x) * n >= n by {
        Scaled(1, rows.end - t.x, n);
      }
      assert cells >= 1;
      Scaled(1, cells, 2 * n + 1);
      Scaled(0, cells - 1, 2 * n + 1);
    }
  }

  lemma {:induction false} WorkAfter(threads: seq<Thread>, all: seq<Rows>, n: nat, i: nat, t: Thread)
    requires |threads| == |all| && i < |all|
    ensures TotalWork(threads[i := t], all, n)
            == TotalWork(threads, all, n) - Work(threads[i], all[i], n) + Work(t, all[i], n)
    decreases i
  {
    hide Work;
    if i == 0 {
      assert threads[0 := t][1..] == threads[1..];
    } else {
      assert threads[i := t][1..] == threads[1..][i - 1 := t];
      WorkAfter(threads[1..], all[1..], n, i - 1, t);
    }
  }

  lemma StepWorks(p: Problem, all: seq<Rows>, s: State, i: nat)
    requires CanStep(p, all, s, i)
    ensures TotalWork(StepOf(p, all, s, i).threads, all, p.n) == TotalWork(s.threads, all, p.n) - 1
  {
    hide TotalWork;
    var t := StepOf(p, all, s, i).threads[i];
    WorkAfter(s.threads, all, p.n, i, t);
    if s.threads[i].Write? {
      CellCount(all[i], p.n, s.threads[i].x, s.threads[i].y);
    } else if s.threads[i].Clear? {
      ClearedWork(all[i], p.n, s.threads[i].x, s.threads[i].y);
    }
  }

  lemma ClearedWork(rows: Rows, n: nat, x: nat, y: nat)
    ensures Work(Read(x, y, 0), rows, n) == Work(Clear(x, y), rows, n) - 1
  {
    var cells := (rows.end - x) * n - y;
    assert cells * (2 * n + 1) == (cells - 1) * (2 * n + 1) + (2 * n + 1);
  }

  /** Every schedule takes exactly the steps it has done from the work left, so no schedule goes on
      forever and a schedule that has done all the work has halted every thread. */
  lemma {:induction false} SchedulesEnd(p: Problem, all: seq<Rows>, initial: Matrix, s: State, steps: seq<nat>)
    requires Inv(p, all, initial, s) && Schedule(p, all, s, steps)
    ensures var t := Run(p, all, s, steps);
      && |t.threads| == |all|
      && |steps| + TotalWork(t.threads, all, p.n) == TotalWork(s.threads, all, p.n)
      && TotalWork(t.threads, all, p.n) >= 0
      && (AllHalted(t) <==> TotalWork(t.threads, all, p.n) == 0)
    decreases |steps|
  {
    hide StepOf, CanStep, Progress, Disjoint, TotalWork;
    if steps == [] {
      HaltedIsDone(p, all, initial, s, 0);
      assert s.threads[0..] == s.threads && all[0..] == all;
    } else {
      StepWorks(p, all, s, steps[0]);
      StepKeepsInv(p, all, initial, s, steps[0]);
      SchedulesEnd(p, all, initial, StepOf(p, all, s, steps[0]), steps[1..]);
    }
  }

  lemma {:induction false} HaltedIsDone(p: Problem, all: seq<Rows>, initial: Matrix, s: State, from: nat)
    requires Inv(p, all, initial, s) && from <= |all|
    ensures TotalWork(s.threads[from..], all[from..], p.n) >= 0
    ensures TotalWork(s.threads[from..], all[from..], p.n) == 0 <==>
            forall i | from <= i < |all| :: s.threads[i].Halted?
    decreases |all| - from
  {
    hide Work, Disjoint;
    if from == |all| {
    } else {
      HaltedIsDone(p, all, initial, s, from + 1);
      assert Progress(p, all[from], s.result, s.threads[from]);
      WorkPositive(s.threads[from], all[from], p.n);
      assert s.threads[from..][1..] == s.threads[from + 1..] && all[from..][1..] == all[from + 1..];
    }
  }

  /** A thread that has not halted can move, so no schedule gets stuck. */
  lemma NobodyIsStuck(p: Problem, all: seq<Rows>, initial: Matrix, s: State)
    requires Inv(p, all, initial, s)
    ensures AllHalted(s) <==> forall i: nat :: !CanStep(p, all, s, i)
  {
    if i: nat :| i < |all| && !s.threads[i].Halted? {
      assert Progress(p, all[i], s.result, s.threads[i]);
      assert CanStep(p, all, s, i);
    }
  }

  /** The steps for one row block of `q` rows. */
  function BlockWork(q: nat, n: nat): nat {
    q * n * (2 * n + 1)
  }

  lemma {:induction false} WorkAtStart(all: seq<Rows>, q: nat, n: nat)
    requires forall i | 0 <= i < |all| :: all[i].end == all[i].start + q
    ensures TotalWork(seq(|all|, i requires 0 <= i < |all| => Begin(all[i], n)), all, n)
            == Product(|all|, BlockWork(q, n))
    decreases |all|
  {
    var threads := seq(|all|, i requires 0 <= i < |all| => Begin(all[i], n));
    if all == [] {
    } else {
      var rest := all[1..];
      assert threads[1..] == seq(|rest|, i requires 0 <= i < |rest| => Begin(rest[i], n));
      WorkAtStart(rest, q, n);
      assert Work(threads[0], all[0], n) == BlockWork(q, n);
      OneMore(|rest|, BlockWork(q, n));
    }
  }

  /** Every schedule of the threads ends within T * (N / T) * N * (2 * N + 1) steps, it has used them
      up exactly when no thread can move any more, and then the covered rows hold the sequential
      product; the other rows keep their contents throughout. */
  lemma EveryScheduleMultiplies(p: Problem, threads: nat, initial: Matrix, steps: seq<nat>)
    requires p.Ok() && threads > 0 && Square(initial, p.n)
    requires var all := Partition(threads, p.n);
      Schedule(p, all, Start(initial, all, p.n), steps)
    ensures var all := Partition(threads, p.n);
      var t := Run(p, all, Start(initial, all, p.n), steps);
      var total := Product(threads, BlockWork(p.n / threads, p.n));
      && Square(t.result, p.n)
      && (forall r: nat | Covered(threads, p.n) <= r < p.n :: t.result[r] == initial[r])
      && |steps| <= total
      && (|steps| == total <==> forall i: nat :: !CanStep(p, all, t, i))
      && (|steps| == total ==> forall r: nat, c: nat | r < Covered(threads, p.n) && r < p.n && c < p.n ::
            t.result[r][c] == p.Entry(r, c, p.n))
  {
    hide Covered, Disjoint, Fits, Assigned, CanStep, Run, Schedule, AllHalted;
    hide Work, TotalWork, BlockWork, Product, Blocks;
    var all := Partition(threads, p.n);
    PartitionCovers(threads, p.n);
    var s := Start(initial, all, p.n);
    StartsWithInv(p, all, initial);
    RunKeepsInv(p, all, initial, s, steps);
    var t := Run(p, all, s, steps);
    SchedulesEnd(p, all, initial, s, steps);
    BlockSizes(threads, p.n / threads);
    WorkAtStart(all, p.n / threads, p.n);
    NobodyIsStuck(p, all, initial, t);
    if AllHalted(t) {
      forall r: nat, c: nat | r < Covered(threads, p.n) && r < p.n && c < p.n
        ensures t.result[r][c] == p.Entry(r, c, p.n)
      {
        AssignedIsDone(p, all, initial, t, r, c);
      }
    }
  }

  lemma StartsWithInv(p: Problem, all: seq<Rows>, initial: Matrix)
    requires p.Ok() && Fits(all, p.n) && Disjoint(all) && Square(initial, p.n)
    ensures Inv(p, all, initial, Start(initial, all, p.n))
  {
  }

  lemma BlockSizes(threads: nat, q: nat)
    ensures forall i | 0 <= i < threads :: Blocks(threads, q)[i].end == Blocks(threads, q)[i].start + q
  {
    forall i | 0 <= i < threads
      ensures Blocks(threads, q)[i].end == Blocks(threads, q)[i].start + q
    {
      OneMore(i, q);
    }
  }

  // ---- the product is the product of matrices

  /** The matrix of all inner products. */
  function Mul(a: Matrix, b: Matrix, n: nat): (m: Matrix)
    requires Square(a, n) && Square(b, n)
    ensures Square(m, n) && forall r, c | 0 <= r < n && 0 <= c < n :: m[r][c] == Dot(a, b, n, r, c, n)
  {
    seq(n, r requires 0 <= r < n => seq(n, c requires 0 <= c < n => Dot(a, b, n, r, c, n)))
  }

  function Unit(n: nat): (m: Matrix)
    ensures Square(m, n) && forall r, c | 0 <= r < n && 0 <= c < n :: m[r][c] == if r == c then 1 else 0
  {
    seq(n, r requires 0 <= r < n => seq(n, c requires 0 <= c < n => if r == c then 1 else 0))
  }

  lemma {:induction false} UnitRow(b: Matrix, n: nat, r: nat, c: nat, z: nat)
    requires Square(b, n) && r < n && c < n && z <= n
    ensures Dot(Unit(n), b, n, r, c, z) == if r < z then b[r][c] else 0
  {
    if z == 0 {
    } else {
      UnitRow(b, n, r, c, z - 1);
    }
  }

  lemma {:induction false} UnitColumn(a: Matrix, n: nat, r: nat, c: nat, z: nat)
    requires Square(a, n) && r < n && c < n && z <= n
    ensures Dot(a, Unit(n), n, r, c, z) == if c < z then a[r][c] else 0
  {
    if z == 0 {
    } else {
      UnitColumn(a, n, r, c, z - 1);
    }
  }

  /** The unit matrix is neutral on both sides. */
  lemma UnitIsNeutral(a: Matrix, n: nat)
    requires Square(a, n)
    ensures Mul(Unit(n), a, n) == a && Mul(a, Unit(n), n) == a
  {
    var left, right := Mul(Unit(n), a, n), Mul(a, Unit(n), n);
    forall r, c | 0 <= r < n && 0 <= c < n
      ensures left[r][c] == a[r][c] && right[r][c] == a[r][c]
    {
      UnitRow(a, n, r, c, n);
      UnitColumn(a, n, r, c, n);
    }
    assert forall r | 0 <= r < n :: left[r] == a[r] && right[r] == a[r];
  }

  /** Row `r` of `a` times the first `w` terms of `b` times column `c` of `d`, summed by `b`'s column. */
  function ByColumn(a: Matrix, b: Matrix, d: Matrix, n: nat, r: nat, c: nat, z: nat, w: nat): int
    requires Square(a, n) && Square(b, n) && Square(d, n) && r < n && c < n && z <= n && w <= n
  {
    if w == 0 then 0 else ByColumn(a, b, d, n, r, c, z, w - 1) + Dot(a, b, n, r, w - 1, z) * d[w - 1][c]
  }

  lemma {:induction false} OneMoreRow(a: Matrix, b: Matrix, d: Matrix, n: nat, r: nat, c: nat, z: nat, w: nat)
    requires Square(a, n) && Square(b, n) && Square(d, n) && r < n && c < n && z < n && w <= n
    ensures ByColumn(a, b, d, n, r, c, z + 1, w)
         == ByColumn(a, b, d, n, r, c, z, w) + a[r][z] * Dot(b, d, n, z, c, w)
    decreases w
  {
    if w == 0 {
    } else {
      OneMoreRow(a, b, d, n, r, c, z, w - 1);
      Distributes(Dot(a, b, n, r, w - 1, z), a[r][z], b[z][w - 1], d[w - 1][c], Dot(b, d, n, z, c, w - 1));
    }
  }

  lemma Distributes(sum: int, x: int, y: int, v: int, dot: int)
    ensures (sum + x * y) * v + x * dot == sum * v + x * (dot + y * v)
  {
  }

  /** Summed by row or by column, the double sum is the same. */
  lemma {:induction false} SumsExchange(a: Matrix, b: Matrix, d: Matrix, n: nat, r: nat, c: nat, z: nat)
    requires Square(a, n) && Square(b, n) && Square(d, n) && r < n && c < n && z <= n
    ensures ByColumn(a, b, d, n, r, c, z, n) == Dot(a, Mul(b, d, n), n, r, c, z)
    decreases z
  {
    if z == 0 {
      NothingByColumn(a, b, d, n, r, c, n);
    } else {
      SumsExchange(a, b, d, n, r, c, z - 1);
      OneMoreRow(a, b, d, n, r, c, z - 1, n);
    }
  }

  lemma {:induction false} NothingByColumn(a: Matrix, b: Matrix, d: Matrix, n: nat, r: nat, c: nat, w: nat)
    requires Square(a, n) && Square(b, n) && Square(d, n) && r < n && c < n && w <= n
    ensures ByColumn(a, b, d, n, r, c, 0, w) == 0
    decreases w
  {
    if w == 0 {
    } else {
      NothingByColumn(a, b, d, n, r, c, w - 1);
    }
  }

  lemma {:induction false} ColumnsAreDot(a: Matrix, b: Matrix, d: Matrix, n: nat, r: nat, c: nat, w: nat)
    requires Square(a, n) && Square(b, n) && Square(d, n) && r < n && c < n && w <= n
    ensures Dot(Mul(a, b, n), d, n, r, c, w) == ByColumn(a, b, d, n, r, c, n, w)
    decreases w
  {
    if w == 0 {
    } else {
      ColumnsAreDot(a, b, d, n, r, c, w - 1);
    }
  }

  /** The product is associative. */
  lemma ProductIsAssociative(a: Matrix, b: Matrix, d: Matrix, n: nat)
    requires Square(a, n) && Square(b, n) && Square(d, n)
    ensures Mul(Mul(a, b, n), d, n) == Mul(a, Mul(b, d, n), n)
  {
    var left, right := Mul(Mul(a, b, n), d, n), Mul(a, Mul(b, d, n), n);
    forall r, c | 0 <= r < n && 0 <= c < n
      ensures left[r][c] == right[r][c]
    {
      ColumnsAreDot(a, b, d, n, r, c, n);
      SumsExchange(a, b, d, n, r, c, n);
    }
    assert forall r | 0 <= r < n :: left[r] == right[r];
  }

  // ---- one thread, and the width of int

  /** With entries from 100 to 200 and at most 1000 terms every partial sum fits a 32-bit int. */
  lemma {:induction false} PartialSumsFit(p: Problem, r: nat, c: nat, z: nat)
    requires p.Ok() && p.n <= 1000 && r < p.n && c < p.n && z <= p.n
    requires forall i, j | 0 <= i < p.n && 0 <= j < p.n :: 100 <= p.a[i][j] <= 200 && 100 <= p.b[i][j] <= 200
    ensures 10_000 * z <= p.Entry(r, c, z) <= 40_000 * z <= 40_000_000 < 0x8000_0000
  {
    if z == 0 {
    } else {
      PartialSumsFit(p, r, c, z - 1);
      EntryProduct(p.a[r][z - 1], p.b[z - 1][c]);
    }
  }

  lemma EntryProduct(u: int, v: int)
    requires 100 <= u <= 200 && 100 <= v <= 200
    ensures 10_000 <= u * v <= 40_000
  {
    Scaled(u, 200, v);
    Scaled(100, u, v);
  }

  /** The function each thread runs, on its own. */
  method Multiply(matrix1: array2<int>, matrix2: array2<int>, result: array2<int>, rows: Rows, ghost p: Problem)
    requires p.Ok() && rows.start <= rows.end <= p.n
    requires matrix1.Length0 == matrix1.Length1 == matrix2.Length0 == matrix2.Length1 == p.n
    requires result.Length0 == result.Length1 == p.n && result != matrix1 && result != matrix2
    requires forall i, j | 0 <= i < p.n && 0 <= j < p.n :: matrix1[i, j] == p.a[i][j] && matrix2[i, j] == p.b[i][j]
    modifies result
    ensures forall r, c | rows.start <= r < rows.end && 0 <= c < p.n :: result[r, c] == p.Entry(r, c, p.n)
    ensures forall r, c | 0 <= r < p.n && !(rows.start <= r < rows.end) && 0 <= c < p.n ::
              result[r, c] == old(result[r, c])
  {
    for x := rows.start to rows.end
      invariant forall r, c | rows.start <= r < x && 0 <= c < p.n :: result[r, c] == p.Entry(r, c, p.n)
      invariant forall r, c | 0 <= r < p.n && !(rows.start <= r < x) && 0 <= c < p.n ::
                  result[r, c] == old(result[r, c])
    {
      for y := 0 to matrix1.Length1
        invariant forall r, c | rows.start <= r < x && 0 <= c < p.n :: result[r, c] == p.Entry(r, c, p.n)
        invariant forall c | 0 <= c < y :: result[x, c] == p.Entry(x, c, p.n)
        invariant forall r, c | 0 <= r < p.n && !(rows.start <= r <= x) && 0 <= c < p.n ::
                    result[r, c] == old(result[r, c])
      {
        result[x, y] := 0;
        for z := 0 to matrix1.Length1
          invariant result[x, y] == p.Entry(x, y, z)
          invariant forall r, c | rows.start <= r < x && 0 <= c < p.n :: result[r, c] == p.Entry(r, c, p.n)
          invariant forall c | 0 <= c < y :: result[x, c] == p.Entry(x, c, p.n)
          invariant forall r, c | 0 <= r < p.n && !(rows.start <= r <= x) && 0 <= c < p.n ::
                      result[r, c] == old(result[r, c])
        {
          result[x, y] := result[x, y] + matrix1[x, z] * matrix2[z, y];
        }
      }
    }
  }
}
