/** The server around the queue: one main thread that accepts connections and puts them in, and any number
of workers that take them out and serve them. Connections are numbered in the order of their acceptance. */
module Server {
  import opened Bits
  import opened Ring
  import opened Monitor

  /** A worker is in its call to dequeue or about to make it, serves a connection, or has returned. */
  datatype Job = Calling | Serving(id: int) | Returned

  /** The main thread: its accept loop, then the three steps of the shutdown, then a join for each worker. */
  datatype Main =
    | Accepting
    | Enqueuing(id: int)
    | Refusing(id: int)
    | Stopping
    | FlagIsSet
    | EmptyIsSent
    | Joining(k: nat)
    | Freed

  datatype Server = Server(m: State, jobs: seq<Job>, main: Main, accepted: nat, closed: seq<int>)

  ghost predicate Start(s: Server, capacity: nat) {
    Init(s.m, capacity) && |s.m.producers| == 1 && |s.jobs| == |s.m.consumers|
    && (forall i :: 0 <= i < |s.jobs| ==> s.jobs[i] == Calling)
    && s.main == Accepting && s.accepted == 0 && s.closed == []
  }

  // ----- Steps -----

  /** A step of a worker's call: with a connection it serves, with an error it returns. */
  ghost predicate WorkerDequeues(s: Server, t: Server, i: nat) {
    i < |s.jobs| && s.jobs[i] == Calling && t == s.(m := t.m, jobs := t.jobs)
    && if ConsumerTakes(s.m, t.m, i) then t.jobs == s.jobs[i := Serving(Oldest(s.m.ring))]
       else if ConsumerRefused(s.m, t.m, i) then t.jobs == s.jobs[i := Returned]
       else ConsumerStep(s.m, t.m, i) && t.jobs == s.jobs
  }

  /** Served or failed, the connection is closed, and the worker turns to the queue again. */
  ghost predicate WorkerCloses(s: Server, t: Server, i: nat) {
    i < |s.jobs| && s.jobs[i].Serving?
    && t == s.(jobs := s.jobs[i := Calling], closed := s.closed + [s.jobs[i].id])
  }

  ghost predicate MainAccepts(s: Server, t: Server) {
    s.main == Accepting && ProducerCalls(s.m, t.m, 0, s.accepted)
    && t == s.(m := t.m, main := Enqueuing(s.accepted), accepted := s.accepted + 1)
  }

  ghost predicate MainEnqueues(s: Server, t: Server) {
    s.main.Enqueuing? && s.m.producers != [] && s.m.producers[0] != Away && t == s.(m := t.m, main := t.main)
    && if ProducerPuts(s.m, t.m, 0) then t.main == Accepting
       else if ProducerRefused(s.m, t.m, 0) then t.main == Refusing(s.main.id)
       else ProducerStep(s.m, t.m, 0) && t.main == s.main
  }

  /** The main thread itself closes what it could not enqueue. */
  ghost predicate MainRefuses(s: Server, t: Server) {
    s.main.Refusing? && t == s.(main := Stopping, closed := s.closed + [s.main.id])
  }

  /** The interrupt ends the accept loop. */
  ghost predicate MainStops(s: Server, t: Server) {
    s.main == Accepting && t == s.(main := Stopping)
  }

  ghost predicate MainShutsDown(s: Server, t: Server) {
    || (s.main == Stopping && FlagSet(s.m, t.m) && t == s.(m := t.m, main := FlagIsSet))
    || (s.main == FlagIsSet && EmptyBroadcast(s.m, t.m) && t == s.(m := t.m, main := EmptyIsSent))
    || (s.main == EmptyIsSent && FullBroadcast(s.m, t.m) && t == s.(m := t.m, main := Joining(0)))
  }

  ghost predicate MainJoins(s: Server, t: Server) {
    s.main.Joining?
    && if s.main.k < |s.jobs| then s.jobs[s.main.k] == Returned && t == s.(main := Joining(s.main.k + 1))
       else t == s.(main := Freed)
  }

  ghost predicate Step(s: Server, t: Server) {
    || (exists i: nat :: WorkerDequeues(s, t, i))
    || (exists i: nat :: WorkerCloses(s, t, i))
    || MainAccepts(s, t) || MainEnqueues(s, t) || MainRefuses(s, t)
    || MainStops(s, t) || MainShutsDown(s, t) || MainJoins(s, t)
  }

  ghost predicate Trace(states: seq<Server>, capacity: nat) {
    states != [] && Start(states[0], capacity) && forall k :: 0 < k < |states| ==> Step(states[k - 1], states[k])
  }

  // ----- Who holds a connection -----

  function Count(ids: seq<int>, id: int): nat {
    if ids == [] then 0 else One(ids[0] == id) + Count(ids[1..], id)
  }

  function Held(jobs: seq<Job>, id: int): nat {
    if jobs == [] then 0 else One(jobs[0] == Serving(id)) + Held(jobs[1..], id)
  }

  function HeldByMain(main: Main, id: int): nat {
    One(main == Enqueuing(id) || main == Refusing(id))
  }

  lemma {:induction false} HeldUpdate(jobs: seq<Job>, i: nat, job: Job, id: int)
    requires i < |jobs|
    ensures Held(jobs[i := job], id) + One(jobs[i] == Serving(id)) == Held(jobs, id) + One(job == Serving(id))
  {
    if i == 0 {
      assert jobs[0 := job][1..] == jobs[1..];
    } else {
      HeldUpdate(jobs[1..], i - 1, job, id);
      assert jobs[i := job][1..] == jobs[1..][i - 1 := job];
    }
  }

  lemma {:induction false} CountSnoc(ids: seq<int>, last: int, id: int)
    ensures Count(ids + [last], id) == Count(ids, id) + One(last == id)
  {
    if ids == [] {
      assert [last][1..] == [];
    } else {
      CountSnoc(ids[1..], last, id);
      assert (ids + [last])[1..] == ids[1..] + [last];
    }
  }

  lemma CountCons(ids: seq<int>, first: int, id: int)
    ensures Count([first] + ids, id) == One(first == id) + Count(ids, id)
  {
    assert ([first] + ids)[1..] == ids;
  }

  // ----- What holds in every state -----

  /** In how many places a connection is: in the queue, with a worker, with the main thread, closed. */
  function Places(s: Server, id: int): nat
    requires s.m.ring.Valid()
  {
    Count(s.m.ring.Contents(), id) + Held(s.jobs, id) + HeldByMain(s.main, id) + Count(s.closed, id)
  }

  /** Every accepted connection is in one place. */
  ghost predicate Conserved(s: Server)
    requires s.m.ring.Valid()
  {
    forall id :: Places(s, id) == One(0 <= id < s.accepted)
  }

  ghost predicate Consistent(s: Server) {
    && |s.m.producers| == 1 && |s.jobs| == |s.m.consumers|
    && (forall i :: 0 <= i < |s.jobs| && s.jobs[i] != Calling ==> s.m.consumers[i] == Away)
    && (if s.main.Enqueuing? then s.m.producers[0] != Away && s.m.offers == [s.main.id] else s.m.producers[0] == Away)
    && (s.m.flag ==> s.main.FlagIsSet? || s.main.EmptyIsSent? || s.main.Joining? || s.main.Freed?)
  }

  /** A worker returns only after the shutdown, and leaves nothing behind in the queue. */
  predicate Drained(s: Server) {
    (exists i :: 0 <= i < |s.jobs| && s.jobs[i] == Returned) ==> s.m.flag && s.m.ring.Empty()
  }

  predicate Joined(s: Server) {
    && (s.main.Joining? ==> s.main.k <= |s.jobs| && forall i :: 0 <= i < s.main.k ==> s.jobs[i] == Returned)
    && (s.main.Freed? ==> forall i :: 0 <= i < |s.jobs| ==> s.jobs[i] == Returned)
  }

  ghost predicate Safe(s: Server) {
    Inv(s.m) && Consistent(s) && Conserved(s) && Drained(s) && Joined(s)
  }

  lemma StartSafe(s: Server, capacity: nat)
    requires Start(s, capacity)
    ensures Safe(s)
  {
    InitInv(s.m, capacity);
    NewIsEmpty(capacity);
    forall id ensures Places(s, id) == One(0 <= id < s.accepted) {
      NobodyHolds(s.jobs, id);
    }
  }

  lemma {:induction false} NobodyHolds(jobs: seq<Job>, id: int)
    requires forall i :: 0 <= i < |jobs| ==> !jobs[i].Serving?
    ensures Held(jobs, id) == 0
  {
    if jobs != [] {
      NobodyHolds(jobs[1..], id);
    }
  }

  /** Every step of the server is a step of the queue's protocol, or leaves the queue alone. */
  lemma StepIsNext(s: Server, t: Server)
    requires Step(s, t)
    ensures t.m == s.m || Next(s.m, t.m)
  {
    if i: nat :| WorkerDequeues(s, t, i) {
      assert ConsumerStep(s.m, t.m, i);
    } else if MainAccepts(s, t) {
      assert ProducerStep(s.m, t.m, 0);
    } else if MainEnqueues(s, t) {
      assert ProducerStep(s.m, t.m, 0);
    }
  }

  lemma DequeueSafe(s: Server, t: Server, i: nat)
    requires Safe(s) && WorkerDequeues(s, t, i) && Inv(t.m)
    ensures Safe(t)
  {
    DequeueConserves(s, t, i);
    DequeueConsistent(s, t, i);
    DequeueEnds(s, t, i);
  }

  lemma DequeueConserves(s: Server, t: Server, i: nat)
    requires s.m.ring.Valid() && Conserved(s) && WorkerDequeues(s, t, i)
    ensures t.m.ring.Valid() && Conserved(t)
  {
    if ConsumerTakes(s.m, t.m, i) {
      TakeConserves(s, t, i);
    } else {
      JobConserves(s, t, i);
    }
  }

  lemma DequeueConsistent(s: Server, t: Server, i: nat)
    requires Consistent(s) && WorkerDequeues(s, t, i)
    ensures Consistent(t)
  {
    if ConsumerTakes(s.m, t.m, i) {
      SignalKeepsAway(s.m.producers, t.m.producers);
    }
  }

  lemma DequeueEnds(s: Server, t: Server, i: nat)
    requires s.m.ring.Valid() && Drained(s) && Joined(s) && WorkerDequeues(s, t, i)
    ensures Drained(t) && Joined(t)
  {
    if ConsumerTakes(s.m, t.m, i) {
      assert !s.m.ring.Empty();
    }
  }

  /** A worker that gets nothing changes the place of nothing. */
  lemma JobConserves(s: Server, t: Server, i: nat)
    requires s.m.ring.Valid() && t.m.ring == s.m.ring && Conserved(s)
    requires i < |s.jobs| && !s.jobs[i].Serving? && (t.jobs == s.jobs || t.jobs == s.jobs[i := Returned])
    requires t.main == s.main && t.closed == s.closed && t.accepted == s.accepted
    ensures Conserved(t)
  {
    forall id ensures Places(t, id) == One(0 <= id < t.accepted) {
      assert Places(s, id) == One(0 <= id < s.accepted);
      HeldUpdate(s.jobs, i, Returned, id);
    }
  }

  lemma TakeConserves(s: Server, t: Server, i: nat)
    requires s.m.ring.Valid() && Conserved(s) && WorkerDequeues(s, t, i) && ConsumerTakes(s.m, t.m, i)
    ensures t.m.ring.Valid() && Conserved(t)
  {
    var first := Oldest(s.m.ring);
    TakeRemoves(s.m.ring);
    forall id ensures Places(t, id) == One(0 <= id < t.accepted) {
      assert Places(s, id) == One(0 <= id < s.accepted);
      HeldUpdate(s.jobs, i, Serving(first), id);
      CountCons(t.m.ring.Contents(), first, id);
    }
  }

  /** Signals leave alone the threads that are not in their call, and send no thread out of it. */
  lemma SignalKeepsAway(before: seq<Phase>, after: seq<Phase>)
    requires Signalled(before, after)
    ensures |after| == |before| && forall i :: 0 <= i < |before| ==> (before[i] == Away <==> after[i] == Away)
  {
    SignalCounts(before, after);
  }

  lemma CloseSafe(s: Server, t: Server, i: nat)
    requires Safe(s) && WorkerCloses(s, t, i)
    ensures Safe(t)
  {
    forall id ensures Places(t, id) == One(0 <= id < t.accepted) {
      assert Places(s, id) == One(0 <= id < s.accepted);
      HeldUpdate(s.jobs, i, Calling, id);
      CountSnoc(s.closed, s.jobs[i].id, id);
    }
  }

  lemma AcceptSafe(s: Server, t: Server)
    requires Safe(s) && MainAccepts(s, t) && Inv(t.m)
    ensures Safe(t)
  {
    forall id ensures Places(t, id) == One(0 <= id < t.accepted) {
      assert Places(s, id) == One(0 <= id < s.accepted);
    }
  }

  lemma EnqueueSafe(s: Server, t: Server)
    requires Safe(s) && MainEnqueues(s, t) && Inv(t.m)
    ensures Safe(t)
  {
    EnqueueConserves(s, t);
    EnqueueConsistent(s, t);
  }

  lemma EnqueueConserves(s: Server, t: Server)
    requires s.m.ring.Valid() && Conserved(s) && Consistent(s) && MainEnqueues(s, t)
    ensures t.m.ring.Valid() && Conserved(t)
  {
    if ProducerPuts(s.m, t.m, 0) {
      PutConserves(s, t);
    } else {
      forall id ensures Places(t, id) == One(0 <= id < t.accepted) {
        assert Places(s, id) == One(0 <= id < s.accepted);
      }
    }
  }

  lemma EnqueueConsistent(s: Server, t: Server)
    requires Consistent(s) && Drained(s) && Joined(s) && MainEnqueues(s, t)
    ensures Consistent(t) && Drained(t) && Joined(t)
  {
    if ProducerPuts(s.m, t.m, 0) {
      SignalKeepsAway(s.m.consumers, t.m.consumers);
    }
  }

  lemma PutConserves(s: Server, t: Server)
    requires s.m.ring.Valid() && Conserved(s) && Consistent(s) && MainEnqueues(s, t) && ProducerPuts(s.m, t.m, 0)
    ensures t.m.ring.Valid() && Conserved(t)
  {
    PutAppends(s.m.ring, s.main.id);
    forall id ensures Places(t, id) == One(0 <= id < t.accepted) {
      assert Places(s, id) == One(0 <= id < s.accepted);
      CountSnoc(s.m.ring.Contents(), s.main.id, id);
    }
  }

  lemma RefuseSafe(s: Server, t: Server)
    requires Safe(s) && MainRefuses(s, t)
    ensures Safe(t)
  {
    forall id ensures Places(t, id) == One(0 <= id < t.accepted) {
      assert Places(s, id) == One(0 <= id < s.accepted);
      CountSnoc(s.closed, s.main.id, id);
    }
  }

  /** Stopping, shutting down and joining move no connection. */
  lemma EndingConserves(s: Server, t: Server)
    requires s.m.ring.Valid() && t.m.ring == s.m.ring && Conserved(s)
    requires t.jobs == s.jobs && t.closed == s.closed && t.accepted == s.accepted
    requires forall id :: HeldByMain(t.main, id) == HeldByMain(s.main, id)
    ensures Conserved(t)
  {
    forall id ensures Places(t, id) == One(0 <= id < t.accepted) {
      assert Places(s, id) == One(0 <= id < s.accepted);
    }
  }

  lemma StopSafe(s: Server, t: Server)
    requires Safe(s) && MainStops(s, t)
    ensures Safe(t)
  {
    EndingConserves(s, t);
  }

  lemma ShutdownSafe(s: Server, t: Server)
    requires Safe(s) && MainShutsDown(s, t) && Inv(t.m)
    ensures Safe(t)
  {
    ShutdownMoves(s, t);
    EndingConserves(s, t);
    ShutdownConsistent(s, t);
  }

  lemma ShutdownMoves(s: Server, t: Server)
    requires MainShutsDown(s, t)
    ensures t.m.ring == s.m.ring && t.jobs == s.jobs && t.closed == s.closed && t.accepted == s.accepted
    ensures s.m.flag ==> t.m.flag
    ensures !t.main.Enqueuing? && !t.main.Refusing? && !s.main.Enqueuing? && !s.main.Refusing?
    ensures t.main.Joining? ==> t.main.k == 0
    ensures !t.main.Freed?
  {
  }

  lemma ShutdownConsistent(s: Server, t: Server)
    requires Consistent(s) && MainShutsDown(s, t)
    ensures Consistent(t)
  {
  }

  lemma JoinSafe(s: Server, t: Server)
    requires Safe(s) && MainJoins(s, t)
    ensures Safe(t)
  {
    EndingConserves(s, t);
  }

  lemma StepSafe(s: Server, t: Server)
    requires Safe(s) && Step(s, t)
    ensures Safe(t)
  {
    StepIsNext(s, t);
    if t.m != s.m {
      NextKeeps(s.m, t.m);
    }
    if i: nat :| WorkerDequeues(s, t, i) {
      DequeueSafe(s, t, i);
    } else if i: nat :| WorkerCloses(s, t, i) {
      CloseSafe(s, t, i);
    } else if MainAccepts(s, t) {
      AcceptSafe(s, t);
    } else if MainEnqueues(s, t) {
      EnqueueSafe(s, t);
    } else if MainRefuses(s, t) {
      RefuseSafe(s, t);
    } else if MainStops(s, t) {
      StopSafe(s, t);
    } else if MainShutsDown(s, t) {
      ShutdownSafe(s, t);
    } else {
      JoinSafe(s, t);
    }
  }

  lemma {:induction false} TraceSafe(states: seq<Server>, capacity: nat, k: nat)
    requires Trace(states, capacity) && k < |states|
    ensures Safe(states[k])
  {
    if k == 0 {
      StartSafe(states[0], capacity);
    } else {
      TraceSafe(states, capacity, k - 1);
      StepSafe(states[k - 1], states[k]);
    }
  }

  // ----- What follows -----

  /** When all workers have returned, the queue is empty and every accepted connection has been closed, once. */
  lemma AllClosedOnce(s: Server, id: int)
    requires Safe(s) && |s.jobs| > 0 && forall i :: 0 <= i < |s.jobs| ==> s.jobs[i] == Returned
    ensures s.m.ring.Contents() == []
    ensures Count(s.closed, id) == One(0 <= id < s.accepted)
  {
    NobodyHolds(s.jobs, id);
    assert Places(s, id) == One(0 <= id < s.accepted);
    assert s.jobs[0] == Returned;
  }

  /** So it is in every run that gets to the end, where the queue is freed with nobody using it. */
  lemma FreedAtTheEnd(states: seq<Server>, capacity: nat, k: nat, id: int)
    requires Trace(states, capacity) && k < |states| && |states[k].jobs| > 0 && states[k].main.Freed?
    ensures Count(states[k].closed, id) == One(0 <= id < states[k].accepted)
    ensures forall i :: 0 <= i < |states[k].m.consumers| ==> states[k].m.consumers[i] == Away
  {
    TraceSafe(states, capacity, k);
    AllClosedOnce(states[k], id);
  }

  /** The main thread's own enqueue is never refused: it alone sets the flag, after its last enqueue. */
  lemma MainNeverRefused(s: Server)
    requires Safe(s) && s.main.Enqueuing?
    ensures !s.m.flag
  {
  }
}
