/**
 * The bounded buffer of the thread pool (src/base/workers_pool.c): a ring with two
 * positions and a count, and the critical sections that use it.
 */
module OperationsRing {

  const MAX_OPERATIONS: nat := 1024
  const TH_FINALIZE: int := 200

  /** An operation: its type, and the call the worker has to make. */
  datatype Op = Op(typeOp: int, call: nat)

  datatype Ring = Ring(buffer: seq<Op>, nOperation: nat, deqPos: nat, enqPos: nat)

  predicate WellFormed(r: Ring) {
    && |r.buffer| == MAX_OPERATIONS
    && r.nOperation <= MAX_OPERATIONS && r.deqPos < MAX_OPERATIONS && r.enqPos < MAX_OPERATIONS
  }

  function Put(r: Ring, op: Op): (r': Ring)
    requires WellFormed(r) && r.nOperation < MAX_OPERATIONS
    ensures WellFormed(r')
  {
    r.(buffer := r.buffer[r.enqPos := op],
       enqPos := (r.enqPos + 1) % MAX_OPERATIONS,
       nOperation := r.nOperation + 1)
  }

  function Take(r: Ring): (r': Ring)
    requires WellFormed(r) && 0 < r.nOperation
    ensures WellFormed(r')
  {
    r.(deqPos := (r.deqPos + 1) % MAX_OPERATIONS, nOperation := r.nOperation - 1)
  }

  function First(r: Ring): Op
    requires WellFormed(r)
  {
    r.buffer[r.deqPos]
  }

  /** The ring holds the accepted operations from number `dequeued` on, in order. */
  ghost predicate Holds(r: Ring, accepted: seq<Op>, dequeued: nat) {
    && WellFormed(r)
    && dequeued <= |accepted| && r.nOperation == |accepted| - dequeued
    && r.deqPos == dequeued % MAX_OPERATIONS && r.enqPos == |accepted| % MAX_OPERATIONS
    && forall k :: dequeued <= k < |accepted| ==> r.buffer[k % MAX_OPERATIONS] == accepted[k]
  }

  lemma SlotsDiffer(k: nat, n: nat)
    requires k < n < k + MAX_OPERATIONS
    ensures k % MAX_OPERATIONS != n % MAX_OPERATIONS
  {
  }

  lemma NextSlot(n: nat)
    ensures (n % MAX_OPERATIONS + 1) % MAX_OPERATIONS == (n + 1) % MAX_OPERATIONS
  {
  }

  /** Putting an operation appends it to what the ring holds. */
  lemma PutAppends(r: Ring, op: Op, accepted: seq<Op>, dequeued: nat)
    requires Holds(r, accepted, dequeued) && r.nOperation < MAX_OPERATIONS
    ensures Holds(Put(r, op), accepted + [op], dequeued)
  {
    NextSlot(|accepted|);
    forall k | dequeued <= k < |accepted| + 1
      ensures Put(r, op).buffer[k % MAX_OPERATIONS] == (accepted + [op])[k]
    {
      if k < |accepted| {
        SlotsDiffer(k, |accepted|);
        assert k % MAX_OPERATIONS != r.enqPos;
      }
    }
  }

  /** Taking an operation gives the oldest one the ring holds, and removes it. */
  lemma TakeRemovesOldest(r: Ring, accepted: seq<Op>, dequeued: nat)
    requires Holds(r, accepted, dequeued) && 0 < r.nOperation
    ensures First(r) == accepted[dequeued]
    ensures Holds(Take(r), accepted, dequeued + 1)
  {
    NextSlot(dequeued);
  }

  /** What a pass through a dequeue critical section leads to. */
  datatype Outcome = MustWait | Exit(op: Op) | Execute(op: Op)

  /** The worker leaves if the pool ends or it got a sentinel. */
  predicate Leaves(poolEnd: bool, op: Op) {
    poolEnd || op.typeOp == TH_FINALIZE
  }

  function DequeueOutcome(r: Ring, poolEnd: bool): Outcome
    requires WellFormed(r)
  {
    if r.nOperation == 0 then MustWait
    else if Leaves(poolEnd, First(r)) then Exit(First(r))
    else Execute(First(r))
  }

  /** The shared fields of the pool, updated in place by the critical sections. */
  class WorkerPool {
    const operationsBuffer: array<Op>
    var nOperation: nat
    var deqPos: nat
    var enqPos: nat
    var poolEnd: bool

    ghost predicate Valid()
      reads this, operationsBuffer
    {
      && operationsBuffer.Length == MAX_OPERATIONS
      && WellFormed(Value())
    }

    ghost function Value(): Ring
      reads this, operationsBuffer
    {
      Ring(operationsBuffer[..], nOperation, deqPos, enqPos)
    }

    constructor (empty: Op)
      ensures Valid() && fresh(operationsBuffer) && !poolEnd
      ensures Holds(Value(), [], 0)
    {
      operationsBuffer := new Op[MAX_OPERATIONS](_ => empty);
      nOperation, deqPos, enqPos, poolEnd := 0, 0, 0, false;
    }

    /** One pass of worker_pool_enqueue with the mutex held: wait, or put and signal. */
    method EnqueueSection(op: Op) returns (mustWait: bool)
      requires Valid()
      modifies this, operationsBuffer
      ensures Valid() && poolEnd == old(poolEnd)
      ensures mustWait == (old(nOperation) == MAX_OPERATIONS)
      ensures Value() == if mustWait then old(Value()) else Put(old(Value()), op)
    {
      if nOperation == MAX_OPERATIONS {
        return true;
      }
      operationsBuffer[enqPos] := op;
      enqPos := (enqPos + 1) % MAX_OPERATIONS;
      nOperation := nOperation + 1;
      return false;
    }

    /** One pass of worker_pool_dequeue with the mutex held. */
    method DequeueSection() returns (outcome: Outcome)
      requires Valid()
      modifies this
      ensures Valid() && poolEnd == old(poolEnd)
      ensures outcome == DequeueOutcome(old(Value()), poolEnd)
      ensures Value() == if outcome.MustWait? then old(Value()) else Take(old(Value()))
    {
      if nOperation == 0 {
        return MustWait;
      }
      var th := operationsBuffer[deqPos];
      deqPos := (deqPos + 1) % MAX_OPERATIONS;
      nOperation := nOperation - 1;
      if poolEnd || th.typeOp == TH_FINALIZE {
        return Exit(th);
      }
      return Execute(th);
    }

    method SetPoolEnd()
      requires Valid()
      modifies this`poolEnd
      ensures Valid() && poolEnd && Value() == old(Value())
    {
      poolEnd := true;
    }
  }
}
