/**
 sched_enq and sched_deq on one queue by any number of cores: every memory access
 is a step of its own, steps interleave freely, and sleep flags change at any time.
 */
module RunQueue {
  import opened Tailq

  /** Where a core is.  Stage k of Enq and Take is the write to be done next. */
  datatype Pc =
    | Idle
    | Enq(p: int, k: nat)
    | Test
    | Spin
    | First
    | Scan(p: int, i: nat)
    | Take(p: int, i: nat, k: nat)
    | Fail

  /** Who has a process: the queue, or a core. */
  datatype Owner = Nobody | Queue | Core(c: int)

  /** The shared memory and the cores; then what the proof keeps along: the lock
      holder, the list as it was when the lock was taken, its contents, the owners. */
  datatype State = State(lock: bool, tq: Tailq, nproc: int, asleep: int -> bool, pc: int -> Pc,
                         holder: int, base: Tailq, abs: seq<int>, owner: int -> Owner) {
    function At(c: int, to: Pc): State { this.(pc := d => if d == c then to else pc(d)) }
    function Own(p: int, o: Owner): State { this.(owner := q => if q == p then o else owner(q)) }
  }

  /** A core calls in, goes on by one access, or any flags change. */
  datatype Act = CallEnq(c: int, p: int) | CallDeq(c: int) | Go(c: int) | Flags(asleep: int -> bool)

  /** Callers are idle and enqueue what is theirs. */
  predicate Enabled(s: State, a: Act) {
    match a
    case CallEnq(c, p) => s.pc(c) == Idle && p != 0 && s.owner(p) == Core(c)
    case CallDeq(c) => s.pc(c) == Idle
    case _ => true
  }

  function Do(s: State, a: Act): State {
    match a
    case CallEnq(c, p) => s.At(c, Enq(p, 0))
    case CallDeq(c) => s.At(c, Test)
    case Go(c) => Access(s, c)
    case Flags(f) => s.(asleep := f)
  }

  /** __atomic_test_and_set: take the lock, or spin. */
  function Acquire(s: State, c: int, to: Pc): State {
    if s.lock then s else s.(lock := true, holder := c, base := s.tq).At(c, to)
  }

  function Release(s: State, c: int): State { s.(lock := false, base := s.tq).At(c, Idle) }

  /** One access by core c. */
  function Access(s: State, c: int): State {
    match s.pc(c)
    case Idle => s
    case Enq(p, k) =>
      if k == 0 then Acquire(s, c, Enq(p, 1))
      else if k <= 5 then s.(tq := InsertWrite(s.tq, p, k)).At(c, Enq(p, k + 1))
      else if k == 6 then s.(nproc := s.nproc + 1).At(c, Enq(p, 7))
      else Release(s, c).(abs := s.abs + [p]).Own(p, Queue)
    case Test => if s.nproc == 0 then s.At(c, Idle) else s.At(c, Spin)
    case Spin => Acquire(s, c, First)
    case First => s.At(c, if s.tq.first == 0 then Fail else Scan(s.tq.first, 0))
    case Scan(p, i) =>
      if p == 0 then s.At(c, Fail)
      else if s.asleep(p) then s.At(c, Scan(s.tq.next(p), i + 1))
      else s.At(c, Take(p, i, 1))
    case Take(p, i, k) =>
      if k <= 3 then s.(tq := RemoveWrite(s.tq, p, k)).At(c, Take(p, i, k + 1))
      else if k == 4 then s.(nproc := s.nproc - 1).At(c, Take(p, i, 5))
      else Release(s, c).(abs := if i < |s.abs| then Without(s.abs, i) else s.abs).Own(p, Core(c))
    case Fail => Release(s, c)
  }

  /** Between taking and releasing the lock. */
  predicate Inside(pc: Pc) {
    match pc
    case Enq(_, k) => k > 0
    case First => true
    case Scan(_, _) => true
    case Take(_, _, _) => true
    case Fail => true
    case _ => false
  }

  /** What the shared memory looks like while the holder is at pc; w are processes
      that never sleep. */
  ghost predicate Progress(s: State, pc: Pc, w: set<int>) {
    match pc
    case Enq(p, k) => && 1 <= k <= 7 && s.tq == Inserting(s.base, p, if k <= 6 then k - 1 else 5)
                      && s.nproc == |s.abs| + (if k == 7 then 1 else 0)
    case Scan(p, i) => && s.tq == s.base && s.nproc == |s.abs| && i <= |s.abs| && p == Elem(s.abs, i)
                       && Passed(s.abs, i, w)
    case Take(p, i, k) => 1 <= k <= 5 && i < |s.abs| && s.abs[i] == p && Passed(s.abs, i, w)
                          && s.tq == Removing(s.base, p, if k <= 4 then k - 1 else 3)
                          && s.nproc == |s.abs| - (if k == 5 then 1 else 0)
    case _ => s.tq == s.base && s.nproc == |s.abs|
  }

  /** Nothing that never sleeps is among the first i. */
  ghost predicate Passed(q: seq<int>, i: nat, w: set<int>) { forall j :: 0 <= j < i && j < |q| ==> q[j] !in w }

  /** What every core may rely on about itself. */
  predicate CoreOk(s: State, c: int) {
    && (Inside(s.pc(c)) ==> s.lock && s.holder == c)
    && (s.pc(c).Enq? ==> s.pc(c).p != 0 && s.owner(s.pc(c).p) == Core(c) && s.pc(c).k <= 7)
  }

  ghost predicate Inv(s: State, w: set<int>) {
    && (forall p :: p in w ==> !s.asleep(p))
    && Holds(s.base, s.abs) && (forall p :: s.owner(p) == Queue <==> p in s.abs)
    && (forall c {:trigger CoreOk(s, c)} :: CoreOk(s, c))
    && if s.lock then Inside(s.pc(s.holder)) && Progress(s, s.pc(s.holder), w)
       else s.tq == s.base && s.nproc == |s.abs|
  }

  // ---- every step keeps the invariant

  lemma KeepCores(s: State, t: State, c: int, w: set<int>)
    requires Inv(s, w) && (forall d :: d != c ==> t.pc(d) == s.pc(d)) && CoreOk(t, c)
    requires forall d :: d != c && Inside(s.pc(d)) ==> t.lock && t.holder == s.holder
    requires forall p, d :: d != c && s.owner(p) == Core(d) ==> t.owner(p) == Core(d)
    ensures forall d {:trigger CoreOk(t, d)} :: CoreOk(t, d)
  {
    forall d ensures CoreOk(t, d) { assert CoreOk(s, d); }
  }

  lemma AcquireKeeps(s: State, c: int, to: Pc, w: set<int>)
    requires Inv(s, w) && !Inside(s.pc(c)) && (to == First || (s.pc(c).Enq? && to == Enq(s.pc(c).p, 1)))
    ensures Inv(Acquire(s, c, to), w)
  {
    assert CoreOk(s, c);
    if !s.lock {
      forall d ensures !Inside(s.pc(d)) { assert CoreOk(s, d); }
      KeepCores(s, Acquire(s, c, to), c, w);
    }
  }

  lemma EnqKeeps(s: State, c: int, w: set<int>)
    requires Inv(s, w) && s.pc(c).Enq? && s.pc(c).k > 0
    ensures Inv(Access(s, c), w)
  {
    assert CoreOk(s, c);
    var p, k, t := s.pc(c).p, s.pc(c).k, Access(s, c);
    forall d | d != c ensures !Inside(s.pc(d)) { assert CoreOk(s, d); }
    if k == 7 {
      InsertAppends(s.base, s.abs, p);
      forall q ensures t.owner(q) == Queue <==> q in t.abs {}
    }
    KeepCores(s, t, c, w);
  }

  lemma ScanKeeps(s: State, c: int, w: set<int>)
    requires Inv(s, w) && (s.pc(c).First? || s.pc(c).Scan? || s.pc(c).Fail?)
    ensures Inv(Access(s, c), w)
  {
    assert CoreOk(s, c);
    forall d | d != c ensures !Inside(s.pc(d)) { assert CoreOk(s, d); }
    if s.pc(c).Scan? && s.pc(c).p != 0 { assert ElemOk(s.base, s.abs, s.pc(c).i); }
    KeepCores(s, Access(s, c), c, w);
  }

  lemma TakeKeeps(s: State, c: int, w: set<int>)
    requires Inv(s, w) && s.pc(c).Take?
    ensures Inv(Access(s, c), w)
  {
    assert CoreOk(s, c);
    var p, i, k, t := s.pc(c).p, s.pc(c).i, s.pc(c).k, Access(s, c);
    forall d | d != c ensures !Inside(s.pc(d)) { assert CoreOk(s, d); }
    if k == 5 {
      RemoveDeletes(s.base, s.abs, i);
      forall q ensures t.owner(q) == Queue <==> q in t.abs { WithoutHas(s.abs, i, q); }
    }
    KeepCores(s, t, c, w);
  }

  lemma WithoutHas(q: seq<int>, i: nat, x: int)
    requires Distinct(q) && i < |q|
    ensures x in Without(q, i) <==> x in q && x != q[i]
  {
    if x in q && x != q[i] {
      var j :| 0 <= j < |q| && q[j] == x;
      assert Without(q, i)[if j < i then j else j - 1] == x;
    }
  }

  /** A core without the lock goes elsewhere without it. */
  lemma OutsideKeeps(s: State, c: int, to: Pc, w: set<int>)
    requires Inv(s, w) && !Inside(s.pc(c)) && !Inside(to)
    requires to.Enq? ==> to.p != 0 && s.owner(to.p) == Core(c)
    ensures Inv(s.At(c, to), w)
  {
    forall d ensures CoreOk(s.At(c, to), d) { assert CoreOk(s, d); }
  }

  /** The invariant holds over every step. */
  lemma StepKeeps(s: State, a: Act, w: set<int>)
    requires Inv(s, w) && Enabled(s, a) && Awake(a, w)
    ensures Inv(Do(s, a), w)
  {
    match a
    case CallEnq(c, p) => OutsideKeeps(s, c, Enq(p, 0), w);
    case CallDeq(c) => OutsideKeeps(s, c, Test, w);
    case Flags(f) => forall c ensures CoreOk(Do(s, a), c) { assert CoreOk(s, c); }
    case Go(c) => GoKeeps(s, c, w);
  }

  lemma GoKeeps(s: State, c: int, w: set<int>)
    requires Inv(s, w)
    ensures Inv(Access(s, c), w)
  {
    match s.pc(c)
    case Idle =>
    case Enq(p, k) => if k == 0 { AcquireKeeps(s, c, Enq(p, 1), w); } else { EnqKeeps(s, c, w); }
    case Test => OutsideKeeps(s, c, if s.nproc == 0 then Idle else Spin, w);
    case Spin => AcquireKeeps(s, c, First, w);
    case Take(_, _, _) => TakeKeeps(s, c, w);
    case _ => ScanKeeps(s, c, w);
  }

  // ---- whole runs

  /** An act that lets no process of w sleep. */
  ghost predicate Awake(a: Act, w: set<int>) { a.Flags? ==> forall p :: p in w ==> !a.asleep(p) }

  /** The state after TAILQ_INIT: an empty queue, every process with some core or none. */
  ghost predicate Start(s: State) {
    && !s.lock && s.tq == s.base && s.tq.first == 0 && s.tq.last == Head && s.tq.nelem == 0
    && s.nproc == 0 && s.abs == []
    && (forall c :: s.pc(c) == Idle) && forall p :: s.owner(p) != Queue
  }

  /** ss are the states of a run, acts its acts. */
  ghost predicate Run(ss: seq<State>, acts: seq<Act>, w: set<int>) {
    && |ss| == |acts| + 1
    && forall i :: 0 <= i < |acts| ==> Enabled(ss[i], acts[i]) && Awake(acts[i], w) && ss[i + 1] == Do(ss[i], acts[i])
  }

  lemma StartInv(s: State, w: set<int>)
    requires Start(s) && forall p :: p in w ==> !s.asleep(p)
    ensures Inv(s, w)
  {
    forall c ensures CoreOk(s, c) {}
  }

  /** In every state of every run the invariant holds. */
  lemma {:induction false} RunKeeps(ss: seq<State>, acts: seq<Act>, w: set<int>, i: nat)
    requires Run(ss, acts, w) && Inv(ss[0], w) && i < |ss|
    ensures Inv(ss[i], w)
    decreases i
  {
    if i != 0 {
      RunKeeps(ss, acts, w, i - 1);
      StepKeeps(ss[i - 1], acts[i - 1], w);
    }
  }

  /** So at most one core has the lock, and whenever it is free the list holds the
      queue and both counters its length. */
  lemma Safety(ss: seq<State>, acts: seq<Act>, i: nat, c: int, d: int)
    requires Run(ss, acts, {}) && Start(ss[0]) && i < |ss|
    ensures Inside(ss[i].pc(c)) && Inside(ss[i].pc(d)) ==> c == d
    ensures !ss[i].lock ==> Holds(ss[i].tq, ss[i].abs) && ss[i].nproc == ss[i].tq.nelem == |ss[i].abs|
  {
    StartInv(ss[0], {});
    RunKeeps(ss, acts, {}, i);
    assert CoreOk(ss[i], c) && CoreOk(ss[i], d);
  }

  /** A core returns from sched_deq with a process. */
  predicate Gets(s: State, a: Act, x: int) { a.Go? && s.pc(a.c).Take? && s.pc(a.c).k == 5 && s.pc(a.c).p == x }

  predicate Dequeues(s: State, a: Act) { a.Go? && s.pc(a.c).Take? && s.pc(a.c).k == 5 }

  /** No process is lost or made up; only what the queue has is handed out, to one core,
      and only what the queue gets goes in. */
  lemma StepOwners(s: State, a: Act, w: set<int>, x: int)
    requires Inv(s, w) && Enabled(s, a)
    ensures s.owner(x) == Nobody <==> Do(s, a).owner(x) == Nobody
    ensures Gets(s, a, x) ==> s.owner(x) == Queue && x in s.abs && Do(s, a).owner(x) == Core(a.c)
    ensures Do(s, a).owner(x) != s.owner(x) ==>
              || Gets(s, a, x)
              || (a.Go? && s.pc(a.c) == Enq(x, 7) && s.owner(x) == Core(a.c) && Do(s, a).owner(x) == Queue)
  {
    if a.Go? { assert CoreOk(s, a.c); }
  }

  /** Over a whole run no process is lost or made up: one that some core had at the
      start is in the queue, once, or with one core. */
  lemma {:induction false} Conserved(ss: seq<State>, acts: seq<Act>, i: nat, x: int)
    requires Run(ss, acts, {}) && Start(ss[0]) && i < |ss|
    ensures ss[i].owner(x) == Nobody <==> ss[0].owner(x) == Nobody
    ensures Distinct(ss[i].abs) && (x in ss[i].abs <==> ss[i].owner(x) == Queue)
    decreases i
  {
    StartInv(ss[0], {});
    RunKeeps(ss, acts, {}, i);
    if i != 0 {
      Conserved(ss, acts, i - 1, x);
      RunKeeps(ss, acts, {}, i - 1);
      StepOwners(ss[i - 1], acts[i - 1], {}, x);
    }
  }

  /** A core completes sched_enq of x. */
  predicate Puts(s: State, a: Act, x: int) { a.Go? && s.pc(a.c) == Enq(x, 7) }

  /** What the queue does not have it only gets by an enqueue. */
  lemma {:induction false} NotQueued(ss: seq<State>, acts: seq<Act>, x: int, i: nat, j: nat)
    requires Run(ss, acts, {}) && Start(ss[0]) && i <= j < |ss| && ss[i].owner(x) != Queue
    requires forall k :: i <= k < j ==> !Puts(ss[k], acts[k], x)
    ensures ss[j].owner(x) != Queue
    decreases j
  {
    if i < j {
      NotQueued(ss, acts, x, i, j - 1);
      NotQueuedAt(ss, acts, x, j - 1);
    }
  }

  lemma NotQueuedAt(ss: seq<State>, acts: seq<Act>, x: int, i: nat)
    requires Run(ss, acts, {}) && Start(ss[0]) && i < |acts| && ss[i].owner(x) != Queue && !Puts(ss[i], acts[i], x)
    ensures ss[i + 1].owner(x) != Queue
  {
    StartInv(ss[0], {});
    RunKeeps(ss, acts, {}, i);
    StepOwners(ss[i], acts[i], {}, x);
  }

  /** Between two hand-outs of a process it is enqueued again: no run gives it to two
      cores at a time. */
  lemma HandedOnce(ss: seq<State>, acts: seq<Act>, x: int, i: nat, j: nat)
    requires Run(ss, acts, {}) && Start(ss[0]) && i < j < |acts|
    requires Gets(ss[i], acts[i], x) && Gets(ss[j], acts[j], x)
    ensures exists k :: i < k < j && Puts(ss[k], acts[k], x)
  {
    StartInv(ss[0], {});
    RunKeeps(ss, acts, {}, i);
    RunKeeps(ss, acts, {}, j);
    StepOwners(ss[i], acts[i], {}, x);
    StepOwners(ss[j], acts[j], {}, x);
    if forall k :: i + 1 <= k < j ==> !Puts(ss[k], acts[k], x) { NotQueued(ss, acts, x, i + 1, j); }
  }

  /** What a step does to the queue: append at an enqueue, take out at a dequeue, and
      nothing else. */
  lemma StepQueue(s: State, a: Act, w: set<int>)
    requires Inv(s, w) && Enabled(s, a)
    ensures if Dequeues(s, a) then
              && s.pc(a.c).i < |s.abs| && s.abs[s.pc(a.c).i] == s.pc(a.c).p && Passed(s.abs, s.pc(a.c).i, w)
              && Do(s, a).abs == Without(s.abs, s.pc(a.c).i)
            else Do(s, a).abs == s.abs || exists p :: Do(s, a).abs == s.abs + [p]
  {
    if a.Go? { assert CoreOk(s, a.c); }
  }

  /** x is at position i of the queue. */
  ghost predicate Waits(s: State, x: int, i: int) { 0 <= i < |s.abs| && s.abs[i] == x }

  /** Successful dequeues in a run. */
  ghost function Count(ss: seq<State>, acts: seq<Act>, n: nat): nat
    requires n <= |acts| < |ss|
  {
    if n == 0 then 0 else Count(ss, acts, n - 1) + (if Dequeues(ss[n - 1], acts[n - 1]) then 1 else 0)
  }

  lemma FairStep(s: State, a: Act, x: int, i: nat)
    requires Inv(s, {x}) && Enabled(s, a) && Waits(s, x, i) && !Gets(s, a, x)
    ensures Waits(Do(s, a), x, if Dequeues(s, a) then i - 1 else i)
  {
    StepQueue(s, a, {x});
    if Dequeues(s, a) {
      var k := s.pc(a.c).i;
      assert !(i < k);
    }
  }

  lemma FairAt(ss: seq<State>, acts: seq<Act>, x: int, j: nat, n: nat)
    requires Run(ss, acts, {x}) && Inv(ss[0], {x}) && n < |acts| && Waits(ss[n], x, j) && !Gets(ss[n], acts[n], x)
    ensures Waits(ss[n + 1], x, if Dequeues(ss[n], acts[n]) then j - 1 else j)
  {
    RunKeeps(ss, acts, {x}, n);
    FairStep(ss[n], acts[n], x, j);
  }

  /** A process that never sleeps and waits at position i is handed out by the
      (i + 1)-st successful dequeue, whatever is enqueued meanwhile. */
  lemma {:induction false} Fair(ss: seq<State>, acts: seq<Act>, x: int, i: nat, n: nat)
    requires Run(ss, acts, {x}) && Inv(ss[0], {x}) && Waits(ss[0], x, i) && n <= |acts|
    requires forall j :: 0 <= j < n ==> !Gets(ss[j], acts[j], x)
    ensures Waits(ss[n], x, i - Count(ss, acts, n))
    decreases n
  {
    if n != 0 {
      Fair(ss, acts, x, i, n - 1);
      FairAt(ss, acts, x, i - Count(ss, acts, n - 1), n - 1);
    }
  }
}
