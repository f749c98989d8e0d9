/** How `compress` splits the pair indices 0 .. size-2 (pair i is frames i and i+1) among its
    worker threads: contiguous ranges of `chunk` indices, the last range running to size-2. */
module Partition {

  /** The number of workers and the chunk length that `compress` settles on. */
  datatype Plan = Plan(workers: nat, chunk: nat)

  function Min(a: nat, b: nat): nat {
    if a < b then a else b
  }

  /** `nthreads = min(procs, size)`, `chunk = size / nthreads`, and the fallback to one worker
      covering everything when the chunk comes out below one. `compress` reaches this only after
      reading frame 0, so `size >= 1`; the JVM reports at least one processor. */
  function MakePlan(procs: nat, size: nat): (p: Plan)
    requires procs >= 1 && size >= 1
    ensures 1 <= p.workers <= Min(procs, size) && p.chunk >= 1
  {
    var n := Min(procs, size);
    var chunk := size / n;
    if chunk < 1 then Plan(1, size) else Plan(n, chunk)
  }

  /** First pair index of worker t. */
  function Start(p: Plan, t: nat): int {
    t * p.chunk
  }

  /** Last pair index of worker t (the range is empty when it is below Start). */
  function End(p: Plan, size: nat, t: nat): int {
    if t == p.workers - 1 then size - 2 else t * p.chunk + p.chunk - 1
  }

  /** Worker t processes pair index i. */
  predicate Owns(p: Plan, size: nat, t: nat, i: int) {
    t < p.workers && Start(p, t) <= i <= End(p, size, t)
  }

  /** The number of pairs processed once workers 0 .. t-1 have run, in order. */
  function Done(p: Plan, size: nat, t: nat): int {
    if t == 0 then 0 else End(p, size, t - 1) + 1
  }

  lemma MulMonotone(a: nat, b: nat, c: nat)
    requires a <= b
    ensures a * c <= b * c
  {
  }

  /** The `chunk < 1` fallback never fires: with at least one frame and one processor,
      `nthreads <= size` makes the chunk at least one, so the plan is `min(procs, size)` workers
      with chunk `size / min(procs, size)`. */
  lemma FallbackUnreachable(procs: nat, size: nat)
    requires procs >= 1 && size >= 1
    ensures MakePlan(procs, size) == Plan(Min(procs, size), size / Min(procs, size))
  {
  }

  /** The workers before the last one stay inside 0 .. size-2 and the last one's range starts at
      most one past size-2: `(workers - 1) * chunk <= size - 1`. */
  lemma LastStartInRange(procs: nat, size: nat)
    requires procs >= 1 && size >= 1
    ensures var p := MakePlan(procs, size); (p.workers - 1) * p.chunk <= size - 1
  {
    var p := MakePlan(procs, size);
    FallbackUnreachable(procs, size);
    var n := p.workers;
    var c := p.chunk;
    assert size == n * c + size % n;
    assert (n - 1) * c == n * c - c;
  }

  /** Consecutive workers' ranges meet, every range is empty or runs forwards, and no range
      reaches past size-2; the last range ends exactly at size-2. */
  lemma RangeFacts(procs: nat, size: nat, t: nat)
    requires procs >= 1 && size >= 1
    requires t < MakePlan(procs, size).workers
    ensures var p := MakePlan(procs, size);
      && Done(p, size, t) == Start(p, t)
      && 0 <= Start(p, t) <= End(p, size, t) + 1
      && End(p, size, t) <= size - 2
      && Done(p, size, t + 1) == End(p, size, t) + 1
  {
    var p := MakePlan(procs, size);
    var n, c := p.workers, p.chunk;
    LastStartInRange(procs, size);
    MulMonotone(t, n - 1, c);
    if t > 0 {
      assert (t - 1) * c + c == t * c;
    }
    if t < n - 1 {
      MulMonotone(t + 1, n - 1, c);
      assert t * c + c == (t + 1) * c;
    }
  }

  /** After every worker has run, all size-1 pairs are done. */
  lemma AllDone(procs: nat, size: nat)
    requires procs >= 1 && size >= 1
    ensures var p := MakePlan(procs, size); Done(p, size, p.workers) == size - 1
  {
  }

  /** Every pair index a worker touches names two existing frames: `0 <= i` and `i + 1 < size`. */
  lemma OwnedIndexInRange(procs: nat, size: nat, t: nat, i: int)
    requires procs >= 1 && size >= 1
    requires Owns(MakePlan(procs, size), size, t, i)
    ensures 0 <= i && i + 1 < size
  {
    RangeFacts(procs, size, t);
  }

  /** The worker that owns pair index i. */
  function Owner(p: Plan, i: nat): (t: nat)
    requires p.workers >= 1 && p.chunk >= 1
    ensures t < p.workers
  {
    if i / p.chunk < p.workers then i / p.chunk else p.workers - 1
  }

  /** Every pair index in 0 .. size-2 is owned by the worker `Owner` names. */
  lemma OwnerOwns(procs: nat, size: nat, i: nat)
    requires procs >= 1 && size >= 1 && i <= size - 2
    ensures var p := MakePlan(procs, size); Owns(p, size, Owner(p, i), i)
  {
    var p := MakePlan(procs, size);
    var n, c := p.workers, p.chunk;
    var t := Owner(p, i);
    assert i == (i / c) * c + i % c;
    RangeFacts(procs, size, t);
    if i / c < n {
      assert t * c <= i <= t * c + c - 1;
    } else {
      MulMonotone(t, i / c, c);
    }
  }

  /** An earlier worker's range ends before a later worker's range starts. */
  lemma EndBeforeStart(procs: nat, size: nat, lo: nat, hi: nat)
    requires procs >= 1 && size >= 1
    requires lo < hi < MakePlan(procs, size).workers
    ensures End(MakePlan(procs, size), size, lo) < Start(MakePlan(procs, size), hi)
  {
    var p := MakePlan(procs, size);
    var c := p.chunk;
    assert End(p, size, lo) == lo * c + c - 1;
    MulMonotone(lo + 1, hi, c);
    assert (lo + 1) * c == lo * c + c;
  }

  /** No pair index is owned by two workers. */
  lemma OwnersDisjoint(procs: nat, size: nat, t1: nat, t2: nat, i: int)
    requires procs >= 1 && size >= 1
    requires Owns(MakePlan(procs, size), size, t1, i) && Owns(MakePlan(procs, size), size, t2, i)
    ensures t1 == t2
  {
    if t1 < t2 {
      EndBeforeStart(procs, size, t1, t2);
    } else if t2 < t1 {
      EndBeforeStart(procs, size, t2, t1);
    }
  }

  /** The ranges form an exact cover of the pair indices: each index in 0 .. size-2 has exactly
      one owner, and no worker owns an index outside 0 .. size-2. */
  lemma ExactCover(procs: nat, size: nat)
    requires procs >= 1 && size >= 1
    ensures var p := MakePlan(procs, size);
      && (forall i: nat | i <= size - 2 :: Owns(p, size, Owner(p, i), i))
      && (forall t1: nat, t2: nat, i: int | Owns(p, size, t1, i) && Owns(p, size, t2, i) :: t1 == t2)
      && (forall t: nat, i: int | Owns(p, size, t, i) :: 0 <= i && i + 1 < size)
  {
    var p := MakePlan(procs, size);
    forall i: nat | i <= size - 2
      ensures Owns(p, size, Owner(p, i), i)
    {
      OwnerOwns(procs, size, i);
    }
    forall t1: nat, t2: nat, i: int | Owns(p, size, t1, i) && Owns(p, size, t2, i)
      ensures t1 == t2
    {
      OwnersDisjoint(procs, size, t1, t2, i);
    }
    forall t: nat, i: int | Owns(p, size, t, i)
      ensures 0 <= i && i + 1 < size
    {
      OwnedIndexInRange(procs, size, t, i);
    }
  }

  /** Four frames on four processors: workers 0, 1, 2 get one pair each and the last worker's
      range [3, 2] is empty. */
  lemma FourFramesFourWorkers()
    ensures MakePlan(4, 4) == Plan(4, 1)
    ensures Start(Plan(4, 1), 3) == 3 && End(Plan(4, 1), 4, 3) == 2
  {
  }
}
