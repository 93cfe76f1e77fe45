/**
 sched_enq and sched_deq by one core at a time, on the queue in memory.
 */
module SchedQueue {
  import opened Tailq

  const EAGAIN := 11

  class Queue {
    var tq: Tailq
    var nproc: nat
    ghost var procs: seq<int>

    ghost predicate Valid()
      reads this
    {
      Holds(tq, procs) && nproc == |procs|
    }

    /** TAILQ_INIT */
    constructor (links: Tailq)
      ensures Valid() && procs == []
    {
      tq := links.(first := 0, last := Head, nelem := 0);
      nproc := 0;
      procs := [];
    }

    /** TAILQ_INSERT_TAIL */
    method InsertTail(p: int)
      requires Holds(tq, procs) && p != 0 && p !in procs
      modifies this`tq, this`procs
      ensures Holds(tq, procs) && procs == old(procs) + [p]
    {
      ghost var t := tq;
      InsertAppends(t, procs, p);
      InsertUnfold(t, p);
      tq := tq.Store(Of(p), 0);
      tq := tq.WithPrev(p, tq.last);
      tq := tq.Store(tq.last, p);
      tq := tq.(last := Of(p));
      tq := tq.(nelem := tq.nelem + 1);
      procs := procs + [p];
    }

    /** TAILQ_REMOVE */
    method Remove(p: int, ghost i: nat)
      requires Holds(tq, procs) && i < |procs| && procs[i] == p
      modifies this`tq, this`procs
      ensures Holds(tq, procs) && procs == Without(old(procs), i)
    {
      ghost var t := tq;
      RemoveDeletes(t, procs, i);
      RemoveUnfold(t, p);
      if tq.next(p) != 0 {
        tq := tq.WithPrev(tq.next(p), tq.prev(p));
      } else {
        tq := tq.(last := tq.prev(p));
      }
      tq := tq.Store(tq.prev(p), tq.next(p));
      tq := tq.(nelem := tq.nelem - 1);
      procs := Without(procs, i);
    }

    /** sched_enq */
    method Enq(p: int)
      requires Valid() && p != 0 && p !in procs
      modifies this
      ensures Valid() && procs == old(procs) + [p]
    {
      InsertTail(p);
      nproc := nproc + 1;
    }

    /** sched_deq: the first process that is not asleep, the others kept in order; or
        EAGAIN, and nothing changes, when all are asleep. */
    method Deq(asleep: int -> bool) returns (r: int, proc: int)
      requires Valid()
      modifies this
      ensures Valid() && (r == 0 || r == -EAGAIN)
      ensures r == 0 <==> exists i :: 0 <= i < |old(procs)| && !asleep(old(procs)[i])
      ensures r != 0 ==> procs == old(procs)
      ensures r == 0 ==> exists i ::
                && 0 <= i < |old(procs)| && old(procs)[i] == proc && !asleep(proc)
                && procs == Without(old(procs), i)
                                   && forall j :: 0 <= j < i ==> asleep(old(procs)[j])
    {
      proc := 0;
      if nproc == 0 {
        return -EAGAIN, 0;
      }
      proc := tq.first;
      ghost var i := 0;
      while proc != 0 && asleep(proc)
        invariant 0 <= i <= |procs| && proc == Elem(procs, i) && forall j :: 0 <= j < i ==> asleep(procs[j])
        decreases |procs| - i
      {
        assert ElemOk(tq, procs, i);
        proc := tq.next(proc);
        i := i + 1;
      }
      if proc == 0 {
        assert i < |procs| ==> ElemOk(tq, procs, i);
        return -EAGAIN, 0;
      }
      Remove(proc, i);
      nproc := nproc - 1;
      r := 0;
    }
  }

  lemma InsertUnfold(t: Tailq, p: int)
    ensures Inserting(t, p, 5) ==
            InsertWrite(InsertWrite(InsertWrite(InsertWrite(InsertWrite(t, p, 1), p, 2), p, 3), p, 4), p, 5)
  {
    assert Inserting(t, p, 0) == t;
    assert Inserting(t, p, 1) == InsertWrite(t, p, 1);
    assert Inserting(t, p, 2) == InsertWrite(InsertWrite(t, p, 1), p, 2);
    assert Inserting(t, p, 4) == InsertWrite(InsertWrite(Inserting(t, p, 2), p, 3), p, 4);
  }

  lemma RemoveUnfold(t: Tailq, p: int)
    ensures Removing(t, p, 3) == RemoveWrite(RemoveWrite(RemoveWrite(t, p, 1), p, 2), p, 3)
  {
    assert Removing(t, p, 0) == t;
    assert Removing(t, p, 1) == RemoveWrite(t, p, 1);
    assert Removing(t, p, 2) == RemoveWrite(RemoveWrite(t, p, 1), p, 2);
  }
}
