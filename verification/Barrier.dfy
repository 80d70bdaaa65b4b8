/** The reusable barrier that lets file openings through in groups of a fixed degree. Each thread counts
itself in under a lock; the last of a group posts the semaphore once for each of the others, one post at a
time and still under the lock, while the others wait on the semaphore without it. */
module Barrier {
  import opened Bits
  import opened Spans

  /** Not in a call; called, before the lock; posting; waiting on the semaphore. */
  datatype Phase = Outside | Arriving | Posting | Blocked

  datatype Holder = Nobody | Thread(i: nat)

  /** Arrivals and passed count all calls that have counted themselves in, and all that have returned;
  rounds counts the groups that are complete. */
  datatype State = State(threads: seq<Phase>, holder: Holder, nWaiters: nat, left: nat, semaphore: nat,
                         arrivals: nat, passed: nat, rounds: nat)

  ghost predicate Init(s: State) {
    (forall i :: 0 <= i < |s.threads| ==> s.threads[i] == Outside) && s.holder == Nobody
    && s.nWaiters == 0 && s.left == 0 && s.semaphore == 0 && s.arrivals == 0 && s.passed == 0 && s.rounds == 0
  }

  // ----- Steps -----

  ghost predicate Calls(s: State, t: State, i: nat) {
    i < |s.threads| && s.threads[i] == Outside && t == s.(threads := s.threads[i := Arriving])
  }

  /** The last of a group keeps the lock to post; any other waits. */
  ghost predicate Enters(degree: nat, s: State, t: State, i: nat) {
    i < |s.threads| && s.threads[i] == Arriving && s.holder == Nobody
    && if s.nWaiters == degree - 1
       then t == s.(threads := s.threads[i := Posting], holder := Thread(i), left := degree - 1,
                    arrivals := s.arrivals + 1, rounds := s.rounds + 1)
       else t == s.(threads := s.threads[i := Blocked], nWaiters := s.nWaiters + 1, arrivals := s.arrivals + 1)
  }

  ghost predicate Posts(s: State, t: State, i: nat) {
    i < |s.threads| && s.threads[i] == Posting && s.left > 0
    && t == s.(left := s.left - 1, semaphore := s.semaphore + 1)
  }

  ghost predicate Leaves(s: State, t: State, i: nat) {
    i < |s.threads| && s.threads[i] == Posting && s.left == 0
    && t == s.(threads := s.threads[i := Outside], holder := Nobody, nWaiters := 0, passed := s.passed + 1)
  }

  ghost predicate Passes(s: State, t: State, i: nat) {
    i < |s.threads| && s.threads[i] == Blocked && s.semaphore > 0
    && t == s.(threads := s.threads[i := Outside], semaphore := s.semaphore - 1, passed := s.passed + 1)
  }

  ghost predicate StepOf(degree: nat, s: State, t: State, i: nat) {
    Calls(s, t, i) || Enters(degree, s, t, i) || Posts(s, t, i) || Leaves(s, t, i) || Passes(s, t, i)
  }

  ghost predicate Step(degree: nat, s: State, t: State) {
    exists i: nat :: StepOf(degree, s, t, i)
  }

  ghost predicate Run(degree: nat, states: seq<State>) {
    states != [] && Init(states[0])
    && forall k :: 0 < k < |states| ==> Step(degree, states[k - 1], states[k])
  }

  // ----- What holds in every state -----

  function Waiting(threads: seq<Phase>): nat {
    multiset(threads)[Blocked]
  }

  /** With rounds complete groups: who has arrived, who has passed, and who still waits. */
  ghost predicate Inv(degree: nat, s: State) {
    && degree > 0 && s.nWaiters < degree
    && (forall i :: 0 <= i < |s.threads| ==> (s.threads[i] == Posting <==> s.holder == Thread(i)))
    && (s.holder.Thread? ==> s.holder.i < |s.threads| && s.nWaiters == degree - 1 && s.left <= degree - 1)
    && (s.holder == Nobody ==> s.left == 0)
    && s.arrivals == Span(degree, s.rounds) + (if s.holder == Nobody then s.nWaiters else 0)
    && s.passed + Waiting(s.threads) + One(s.holder != Nobody) == s.arrivals
    && s.passed + s.semaphore + s.left + One(s.holder != Nobody) == Span(degree, s.rounds)
  }

  lemma Counts(threads: seq<Phase>, i: nat, p: Phase)
    requires i < |threads|
    ensures Waiting(threads[i := p]) + One(threads[i] == Blocked) == Waiting(threads) + One(p == Blocked)
  {
    assert threads[i] in multiset(threads);
    assert multiset(threads[i := p]) == multiset(threads) - multiset{threads[i]} + multiset{p};
  }

  lemma InitInv(degree: nat, s: State)
    requires degree > 0 && Init(s)
    ensures Inv(degree, s)
  {
    assert Blocked !in s.threads;
    assert Blocked !in multiset(s.threads);
  }

  lemma StepKeeps(degree: nat, s: State, t: State, i: nat)
    requires Inv(degree, s) && StepOf(degree, s, t, i)
    ensures Inv(degree, t)
  {
    if Enters(degree, s, t, i) {
      EntryKeeps(degree, s, t, i);
    } else if Leaves(s, t, i) {
      ExitKeeps(degree, s, t, i);
    } else {
      Counts(s.threads, i, t.threads[i]);
    }
  }

  lemma EntryKeeps(degree: nat, s: State, t: State, i: nat)
    requires Inv(degree, s) && Enters(degree, s, t, i)
    ensures Inv(degree, t)
  {
    Counts(s.threads, i, t.threads[i]);
  }

  lemma ExitKeeps(degree: nat, s: State, t: State, i: nat)
    requires Inv(degree, s) && Leaves(s, t, i)
    ensures Inv(degree, t)
  {
    Counts(s.threads, i, t.threads[i]);
  }

  lemma {:induction false} RunInv(degree: nat, states: seq<State>, k: nat)
    requires degree > 0 && Run(degree, states) && k < |states|
    ensures Inv(degree, states[k])
  {
    if k == 0 {
      InitInv(degree, states[0]);
    } else {
      RunInv(degree, states, k - 1);
      var i: nat :| StepOf(degree, states[k - 1], states[k], i);
      StepKeeps(degree, states[k - 1], states[k], i);
    }
  }

  // ----- What follows -----

  /** The number of complete groups, and what is left over. */
  lemma Rounds(degree: nat, s: State)
    requires Inv(degree, s)
    ensures s.arrivals / degree == s.rounds
    ensures s.arrivals % degree == if s.holder == Nobody then s.nWaiters else 0
  {
    var r := if s.holder == Nobody then s.nWaiters else 0;
    SpanIsProduct(degree, s.rounds);
    Remainder(s.arrivals, degree, s.rounds, r);
    Quotient(s.arrivals, degree, s.rounds, r);
  }

  lemma Quotient(v: nat, d: nat, q: nat, r: nat)
    requires 0 < d && v == d * q + r && v % d == r
    ensures v / d == q
  {
    assert v == d * (v / d) + v % d;
    Cancel(d, v / d, q);
  }

  lemma Cancel(d: nat, a: nat, b: nat)
    requires 0 < d && d * a == d * b
    ensures a == b
  {
    if a < b {
      NoSmallMultiple(d, b - a);
    } else if b < a {
      NoSmallMultiple(d, a - b);
    }
  }

  /** Never do more threads pass than the complete groups account for. */
  lemma PassedBound(degree: nat, s: State)
    requires Inv(degree, s)
    ensures s.passed <= degree * (s.arrivals / degree)
  {
    Rounds(degree, s);
    SpanIsProduct(degree, s.rounds);
  }

  /** Nothing can happen without a further call. */
  ghost predicate Quiet(degree: nat, s: State) {
    forall t, i: nat :: StepOf(degree, s, t, i) ==> Calls(s, t, i)
  }

  /** When nothing can happen without a further call, exactly the threads of the incomplete group wait. */
  lemma QuietCount(degree: nat, s: State)
    requires Inv(degree, s) && Quiet(degree, s)
    ensures Waiting(s.threads) == s.arrivals % degree
    ensures s.passed == degree * (s.arrivals / degree)
  {
    NobodyPosts(degree, s);
    NobodyPasses(degree, s);
    Rounds(degree, s);
    SpanIsProduct(degree, s.rounds);
  }

  lemma NobodyPosts(degree: nat, s: State)
    requires Inv(degree, s) && Quiet(degree, s)
    ensures s.holder == Nobody
  {
    if s.holder.Thread? {
      var i := s.holder.i;
      var t := if s.left > 0 then s.(left := s.left - 1, semaphore := s.semaphore + 1)
               else s.(threads := s.threads[i := Outside], holder := Nobody, nWaiters := 0, passed := s.passed + 1);
      assert StepOf(degree, s, t, i);
      assert false;
    }
  }

  lemma NobodyPasses(degree: nat, s: State)
    requires Inv(degree, s) && Quiet(degree, s) && s.holder == Nobody
    ensures s.semaphore == 0
  {
    if s.semaphore > 0 {
      assert Waiting(s.threads) > 0;
      assert Blocked in multiset(s.threads);
      assert Blocked in s.threads;
      var i :| 0 <= i < |s.threads| && s.threads[i] == Blocked;
      var t := s.(threads := s.threads[i := Outside], semaphore := s.semaphore - 1, passed := s.passed + 1);
      assert StepOf(degree, s, t, i);
      assert false;
    }
  }

  /** Steps of one thread after each other. */
  ghost predicate Path(degree: nat, states: seq<State>, i: nat) {
    states != [] && forall k :: 0 < k < |states| ==> StepOf(degree, states[k - 1], states[k], i)
  }

  lemma PathGrows(degree: nat, states: seq<State>, i: nat, t: State)
    requires Path(degree, states, i) && StepOf(degree, states[|states| - 1], t, i)
    ensures Path(degree, states + [t], i)
  {
    var all := states + [t];
    forall k | 0 < k < |all| ensures StepOf(degree, all[k - 1], all[k], i) {
      assert k < |states| ==> all[k - 1] == states[k - 1] && all[k] == states[k];
    }
  }

  /** The section under the lock, as the program runs it. */
  class Gate {
    var nWaiters: nat
    var semaphore: nat

    constructor ()
      ensures nWaiters == 0 && semaphore == 0
    {
      nWaiters, semaphore := 0, 0;
    }

    ghost predicate Stands(s: State)
      reads this
    {
      nWaiters == s.nWaiters && semaphore == s.semaphore
    }

    /** A thread that enters under the free lock: it counts itself in and must wait, or it is the last of
    its group, posts once for each of the others, and leaves. */
    method Arrive(degree: nat, ghost s: State, ghost i: nat) returns (mustWait: bool, ghost path: seq<State>)
      requires Inv(degree, s) && Stands(s) && i < |s.threads| && s.threads[i] == Arriving && s.holder == Nobody
      modifies this
      ensures path != [] && path[0] == s && Path(degree, path, i) && Stands(path[|path| - 1])
      ensures mustWait <==> s.nWaiters != degree - 1
      ensures |path| == (if mustWait then 2 else degree + 2) && Enters(degree, s, path[1], i)
      ensures path[|path| - 1].threads == s.threads[i := if mustWait then Blocked else Outside]
      ensures !mustWait ==> nWaiters == 0 && semaphore == s.semaphore + degree - 1
    {
      ghost var t;
      if nWaiters == degree - 1 {
        t := s.(threads := s.threads[i := Posting], holder := Thread(i), left := degree - 1,
                arrivals := s.arrivals + 1, rounds := s.rounds + 1);
        path := [s, t];
        for k := 0 to degree - 1
          invariant t.left == degree - 1 - k && t.semaphore == semaphore == s.semaphore + k && nWaiters == t.nWaiters
          invariant t.threads == s.threads[i := Posting]
          invariant |path| == k + 2 && path[0] == s && Enters(degree, s, path[1], i) && path[k + 1] == t
          invariant Path(degree, path, i)
        {
          semaphore := semaphore + 1;
          ghost var next := t.(left := t.left - 1, semaphore := t.semaphore + 1);
          assert Posts(t, next, i);
          PathGrows(degree, path, i, next);
          path, t := path + [next], next;
        }
        nWaiters := 0;
        ghost var last := t.(threads := t.threads[i := Outside], holder := Nobody, nWaiters := 0,
                             passed := t.passed + 1);
        assert Leaves(t, last, i);
        PathGrows(degree, path, i, last);
        path := path + [last];
        return false, path;
      }
      nWaiters := nWaiters + 1;
      t := s.(threads := s.threads[i := Blocked], nWaiters := s.nWaiters + 1, arrivals := s.arrivals + 1);
      path := [s, t];
      return true, path;
    }
  }
}
