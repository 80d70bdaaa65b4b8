/** The queue's protocol: any number of consumers and producers around one buffer, one mutex and two
condition variables. Sections under the mutex are single steps, except that a thread that has decided to
wait still holds the mutex for a moment, in which the shutdown flag, which no mutex guards, may be set. */
module Monitor {
  import opened Ring

  /** Where a thread is: not in a call, before its first section, about to wait, waiting, or woken and
  before its next section. */
  datatype Phase = Away | Entering | Waiting | Asleep | Woken

  datatype Holder = Nobody | Consumer(i: nat) | Producer(j: nat)

  /** Offers are the values that producers bring; added and taken are all values that went in and out. */
  datatype State = State(ring: Ring, flag: bool, holder: Holder, consumers: seq<Phase>, producers: seq<Phase>,
                         offers: seq<int>, added: seq<int>, taken: seq<int>)

  function Sleepers(threads: seq<Phase>): nat {
    multiset(threads)[Asleep]
  }

  function Awake(threads: seq<Phase>): nat {
    multiset(threads)[Woken]
  }

  ghost predicate Init(s: State, capacity: nat) {
    capacity > 0 && s.ring == New(capacity) && !s.flag && s.holder == Nobody
    && (forall i :: 0 <= i < |s.consumers| ==> s.consumers[i] == Away)
    && (forall j :: 0 <= j < |s.producers| ==> s.producers[j] == Away)
    && |s.offers| == |s.producers| && s.added == [] && s.taken == []
  }

  // ----- Steps -----

  /** A signal wakes one of the waiting threads, if there are any. */
  ghost predicate Signalled(before: seq<Phase>, after: seq<Phase>) {
    if Sleepers(before) == 0 then after == before
    else exists k :: 0 <= k < |before| && before[k] == Asleep && after == before[k := Woken]
  }

  /** A broadcast wakes all. */
  function Broadcast(threads: seq<Phase>): (after: seq<Phase>)
    ensures |after| == |threads|
    ensures forall i :: 0 <= i < |threads| ==> after[i] == if threads[i] == Asleep then Woken else threads[i]
  {
    if threads == [] then [] else
      Broadcast(threads[..|threads| - 1]) + [if threads[|threads| - 1] == Asleep then Woken else threads[|threads| - 1]]
  }

  predicate Runs(p: Phase) {
    p == Entering || p == Woken
  }

  ghost predicate ConsumerCalls(s: State, t: State, i: nat) {
    i < |s.consumers| && s.consumers[i] == Away && t == s.(consumers := s.consumers[i := Entering])
  }

  ghost predicate ConsumerTakes(s: State, t: State, i: nat) {
    i < |s.consumers| && Runs(s.consumers[i]) && s.holder == Nobody && s.ring.Valid() && !s.ring.Empty()
    && t == s.(ring := Take(s.ring), consumers := s.consumers[i := Away], producers := t.producers,
               taken := s.taken + [Oldest(s.ring)])
    && Signalled(s.producers, t.producers)
  }

  ghost predicate ConsumerRefused(s: State, t: State, i: nat) {
    i < |s.consumers| && Runs(s.consumers[i]) && s.holder == Nobody && s.ring.Empty() && s.flag
    && t == s.(consumers := s.consumers[i := Away])
  }

  ghost predicate ConsumerMustWait(s: State, t: State, i: nat) {
    i < |s.consumers| && Runs(s.consumers[i]) && s.holder == Nobody && s.ring.Empty() && !s.flag
    && t == s.(consumers := s.consumers[i := Waiting], holder := Consumer(i))
  }

  ghost predicate ConsumerSleeps(s: State, t: State, i: nat) {
    i < |s.consumers| && s.consumers[i] == Waiting
    && t == s.(consumers := s.consumers[i := Asleep], holder := Nobody)
  }

  /** A wake-up that nobody caused. */
  ghost predicate ConsumerWakes(s: State, t: State, i: nat) {
    i < |s.consumers| && s.consumers[i] == Asleep && t == s.(consumers := s.consumers[i := Woken])
  }

  ghost predicate ProducerCalls(s: State, t: State, j: nat, fd: int) {
    j < |s.producers| && |s.offers| == |s.producers| && s.producers[j] == Away
    && t == s.(producers := s.producers[j := Entering], offers := s.offers[j := fd])
  }

  ghost predicate ProducerPuts(s: State, t: State, j: nat) {
    j < |s.producers| && |s.offers| == |s.producers| && Runs(s.producers[j]) && s.holder == Nobody
    && s.ring.Valid() && !s.ring.Full()
    && t == s.(ring := Put(s.ring, s.offers[j]), producers := s.producers[j := Away], consumers := t.consumers,
               added := s.added + [s.offers[j]])
    && Signalled(s.consumers, t.consumers)
  }

  ghost predicate ProducerRefused(s: State, t: State, j: nat) {
    j < |s.producers| && Runs(s.producers[j]) && s.holder == Nobody && s.ring.Full() && s.flag
    && t == s.(producers := s.producers[j := Away])
  }

  ghost predicate ProducerMustWait(s: State, t: State, j: nat) {
    j < |s.producers| && Runs(s.producers[j]) && s.holder == Nobody && s.ring.Full() && !s.flag
    && t == s.(producers := s.producers[j := Waiting], holder := Producer(j))
  }

  ghost predicate ProducerSleeps(s: State, t: State, j: nat) {
    j < |s.producers| && s.producers[j] == Waiting
    && t == s.(producers := s.producers[j := Asleep], holder := Nobody)
  }

  ghost predicate ProducerWakes(s: State, t: State, j: nat) {
    j < |s.producers| && s.producers[j] == Asleep && t == s.(producers := s.producers[j := Woken])
  }

  /** Shutting down takes three steps, none under the mutex. */
  ghost predicate FlagSet(s: State, t: State) {
    t == s.(flag := true)
  }

  ghost predicate EmptyBroadcast(s: State, t: State) {
    t == s.(consumers := Broadcast(s.consumers))
  }

  ghost predicate FullBroadcast(s: State, t: State) {
    t == s.(producers := Broadcast(s.producers))
  }

  ghost predicate ConsumerStep(s: State, t: State, i: nat) {
    || ConsumerCalls(s, t, i) || ConsumerTakes(s, t, i) || ConsumerRefused(s, t, i)
    || ConsumerMustWait(s, t, i) || ConsumerSleeps(s, t, i) || ConsumerWakes(s, t, i)
  }

  ghost predicate ProducerStep(s: State, t: State, j: nat) {
    || (exists fd :: ProducerCalls(s, t, j, fd)) || ProducerPuts(s, t, j) || ProducerRefused(s, t, j)
    || ProducerMustWait(s, t, j) || ProducerSleeps(s, t, j) || ProducerWakes(s, t, j)
  }

  ghost predicate Next(s: State, t: State) {
    || (exists i: nat :: ConsumerStep(s, t, i))
    || (exists j: nat :: ProducerStep(s, t, j))
    || FlagSet(s, t) || EmptyBroadcast(s, t) || FullBroadcast(s, t)
  }

  /** A run: states reached one after the other. */
  ghost predicate Run(states: seq<State>, capacity: nat) {
    states != [] && Init(states[0], capacity) && forall k :: 0 < k < |states| ==> Next(states[k - 1], states[k])
  }

  // ----- What holds in every state -----

  /** The mutex is held by the one thread that is about to wait, and its reason still holds. */
  ghost predicate Mutex(s: State) {
    && (forall i :: 0 <= i < |s.consumers| ==> (s.consumers[i] == Waiting <==> s.holder == Consumer(i)))
    && (forall j :: 0 <= j < |s.producers| ==> (s.producers[j] == Waiting <==> s.holder == Producer(j)))
    && (s.holder.Consumer? ==> s.holder.i < |s.consumers| && s.ring.Empty())
    && (s.holder.Producer? ==> s.holder.j < |s.producers| && s.ring.Full())
  }

  /** What went in, in order, is what went out followed by what is stored. */
  predicate Fifo(s: State)
    requires s.ring.Valid()
  {
    s.added == s.taken + s.ring.Contents()
  }

  /** While some consumer sleeps, every stored value has a woken consumer on its way; and while some
  producer sleeps, every free slot has a woken producer. */
  predicate NoLostWakeup(s: State)
    requires s.ring.Valid()
  {
    && (Sleepers(s.consumers) > 0 ==> s.ring.length <= Awake(s.consumers))
    && (Sleepers(s.producers) > 0 ==> s.ring.Capacity() - s.ring.length <= Awake(s.producers))
  }

  ghost predicate Inv(s: State) {
    s.ring.Valid() && |s.offers| == |s.producers| && Mutex(s) && Fifo(s) && NoLostWakeup(s)
  }

  lemma InitInv(s: State, capacity: nat)
    requires Init(s, capacity)
    ensures Inv(s)
  {
    NewIsEmpty(capacity);
    NoneAsleep(s.consumers);
    NoneAsleep(s.producers);
  }

  lemma NoneAsleep(threads: seq<Phase>)
    requires forall i :: 0 <= i < |threads| ==> threads[i] != Asleep
    ensures Sleepers(threads) == 0
  {
    assert Asleep !in threads;
    assert Asleep !in multiset(threads);
  }

  /** How one thread's change counts. */
  lemma Counts(threads: seq<Phase>, i: nat, p: Phase)
    requires i < |threads|
    ensures Sleepers(threads[i := p])
         == Sleepers(threads) - (if threads[i] == Asleep then 1 else 0) + (if p == Asleep then 1 else 0)
    ensures Awake(threads[i := p])
         == Awake(threads) - (if threads[i] == Woken then 1 else 0) + (if p == Woken then 1 else 0)
    ensures threads[i] == Asleep ==> Sleepers(threads) > 0
    ensures threads[i] == Woken ==> Awake(threads) > 0
  {
    assert threads[i] in multiset(threads);
    assert multiset(threads[i := p]) == multiset(threads) - multiset{threads[i]} + multiset{p};
  }

  lemma SignalCounts(before: seq<Phase>, after: seq<Phase>)
    requires Signalled(before, after)
    ensures |after| == |before| && forall i :: 0 <= i < |before| ==> (after[i] == Waiting <==> before[i] == Waiting)
    ensures Sleepers(after) <= Sleepers(before)
    ensures Sleepers(before) > 0 ==> Awake(after) == Awake(before) + 1
    ensures Sleepers(before) == 0 ==> after == before
  {
    if Sleepers(before) > 0 {
      var k :| 0 <= k < |before| && before[k] == Asleep && after == before[k := Woken];
      Counts(before, k, Woken);
    }
  }

  lemma BroadcastCounts(threads: seq<Phase>)
    ensures Sleepers(Broadcast(threads)) == 0
    ensures forall i :: 0 <= i < |threads| ==> (Broadcast(threads)[i] == Waiting <==> threads[i] == Waiting)
  {
    NoneAsleep(Broadcast(threads));
  }

  // ----- Every step keeps it -----

  lemma ConsumerKeeps(s: State, t: State, i: nat)
    requires Inv(s) && ConsumerStep(s, t, i)
    ensures Inv(t)
  {
    if ConsumerTakes(s, t, i) {
      TakeKeeps(s, t, i);
    } else if ConsumerMustWait(s, t, i) || ConsumerSleeps(s, t, i) {
      ConsumerWaitKeeps(s, t, i);
    } else {
      Counts(s.consumers, i, t.consumers[i]);
    }
  }

  lemma ConsumerWaitKeeps(s: State, t: State, i: nat)
    requires Inv(s) && (ConsumerMustWait(s, t, i) || ConsumerSleeps(s, t, i))
    ensures Inv(t)
  {
    Counts(s.consumers, i, t.consumers[i]);
  }

  lemma TakeKeeps(s: State, t: State, i: nat)
    requires Inv(s) && ConsumerTakes(s, t, i)
    ensures Inv(t)
  {
    Counts(s.consumers, i, Away);
    TakeRemoves(s.ring);
    SignalCounts(s.producers, t.producers);
  }

  lemma ProducerKeeps(s: State, t: State, j: nat)
    requires Inv(s) && ProducerStep(s, t, j)
    ensures Inv(t)
  {
    if ProducerPuts(s, t, j) {
      PutKeeps(s, t, j);
    } else if ProducerMustWait(s, t, j) || ProducerSleeps(s, t, j) {
      ProducerWaitKeeps(s, t, j);
    } else {
      ProducerGoesKeeps(s, t, j);
    }
  }

  lemma ProducerGoesKeeps(s: State, t: State, j: nat)
    requires Inv(s) && j < |s.producers| == |t.producers| && t.producers == s.producers[j := t.producers[j]]
    requires |t.offers| == |s.offers|
    requires t == s.(producers := t.producers, offers := t.offers) && s.producers[j] != Waiting
    requires t.producers[j] !in {Waiting, Asleep}
    requires s.producers[j] == Woken ==> s.holder == Nobody && s.ring.Full()
    ensures Inv(t)
  {
    Counts(s.producers, j, t.producers[j]);
  }

  lemma ProducerWaitKeeps(s: State, t: State, j: nat)
    requires Inv(s) && (ProducerMustWait(s, t, j) || ProducerSleeps(s, t, j))
    ensures Inv(t)
  {
    Counts(s.producers, j, t.producers[j]);
  }

  lemma PutKeeps(s: State, t: State, j: nat)
    requires Inv(s) && ProducerPuts(s, t, j)
    ensures Inv(t)
  {
    Counts(s.producers, j, Away);
    PutAppends(s.ring, s.offers[j]);
    SignalCounts(s.consumers, t.consumers);
  }

  lemma NextKeeps(s: State, t: State)
    requires Inv(s) && Next(s, t)
    ensures Inv(t)
  {
    if i: nat :| ConsumerStep(s, t, i) {
      ConsumerKeeps(s, t, i);
    } else if j: nat :| ProducerStep(s, t, j) {
      ProducerKeeps(s, t, j);
    } else {
      ShutdownKeeps(s, t);
    }
  }

  lemma ShutdownKeeps(s: State, t: State)
    requires Inv(s) && (FlagSet(s, t) || EmptyBroadcast(s, t) || FullBroadcast(s, t))
    ensures Inv(t)
  {
    if EmptyBroadcast(s, t) {
      EmptyBroadcastKeeps(s, t);
    } else if FullBroadcast(s, t) {
      FullBroadcastKeeps(s, t);
    }
  }

  lemma EmptyBroadcastKeeps(s: State, t: State)
    requires Inv(s) && EmptyBroadcast(s, t)
    ensures Inv(t)
  {
    BroadcastCounts(s.consumers);
  }

  lemma FullBroadcastKeeps(s: State, t: State)
    requires Inv(s) && FullBroadcast(s, t)
    ensures Inv(t)
  {
    BroadcastCounts(s.producers);
  }

  /** In every state of every run: first in, first out; the indices agree; no wake-up is lost. */
  lemma {:induction false} RunInv(states: seq<State>, capacity: nat, k: nat)
    requires Run(states, capacity) && k < |states|
    ensures Inv(states[k])
  {
    if k == 0 {
      InitInv(states[0], capacity);
    } else {
      RunInv(states, capacity, k - 1);
      NextKeeps(states[k - 1], states[k]);
    }
  }

  lemma RunFacts(states: seq<State>, capacity: nat, k: nat)
    requires Run(states, capacity) && k < |states|
    ensures var s := states[k];
            && s.ring.Valid() && s.ring.writeIdx == (s.ring.readIdx + s.ring.length) % |s.ring.slots|
            && s.added == s.taken + s.ring.Contents()
  {
    RunInv(states, capacity, k);
    IndicesAgree(states[k].ring);
  }

  /** Consumers and producers never all sleep at once: when one of each sleeps, some thread has been
  woken and can run as soon as the mutex is free. */
  lemma NeverAllAsleep(s: State)
    requires Inv(s)
    ensures Sleepers(s.consumers) > 0 && Sleepers(s.producers) > 0 ==> Awake(s.consumers) > 0 || Awake(s.producers) > 0
  {
  }

  /** A sleeping consumer with something to take, or a sleeping producer with room, is not forgotten. */
  lemma NobodyForgotten(s: State)
    requires Inv(s)
    ensures Sleepers(s.consumers) > 0 && !s.ring.Empty() ==>
              exists i :: 0 <= i < |s.consumers| && s.consumers[i] == Woken
    ensures Sleepers(s.producers) > 0 && !s.ring.Full() ==>
              exists j :: 0 <= j < |s.producers| && s.producers[j] == Woken
  {
    if Sleepers(s.consumers) > 0 && !s.ring.Empty() {
      OneAwake(s.consumers);
    }
    if Sleepers(s.producers) > 0 && !s.ring.Full() {
      OneAwake(s.producers);
    }
  }

  lemma OneAwake(threads: seq<Phase>)
    requires Awake(threads) > 0
    ensures exists i :: 0 <= i < |threads| && threads[i] == Woken
  {
    assert Woken in multiset(threads);
    assert Woken in threads;
  }

  /** A consumer that has been woken, or has just called, can take its next step once nobody holds the
  mutex; and the one that holds it can always give it up. */
  lemma ConsumerCanRun(s: State, i: nat) returns (t: State)
    requires Inv(s) && i < |s.consumers|
    requires (Runs(s.consumers[i]) && s.holder == Nobody) || s.consumers[i] == Waiting
    ensures ConsumerStep(s, t, i) && t.consumers[i] != s.consumers[i]
  {
    if s.consumers[i] == Waiting {
      t := s.(consumers := s.consumers[i := Asleep], holder := Nobody);
      assert ConsumerSleeps(s, t, i);
    } else if s.ring.Empty() && s.flag {
      t := s.(consumers := s.consumers[i := Away]);
      assert ConsumerRefused(s, t, i);
    } else if s.ring.Empty() {
      t := s.(consumers := s.consumers[i := Waiting], holder := Consumer(i));
      assert ConsumerMustWait(s, t, i);
    } else {
      var producers := SomeSignal(s.producers);
      t := s.(ring := Take(s.ring), consumers := s.consumers[i := Away], producers := producers,
              taken := s.taken + [Oldest(s.ring)]);
      assert ConsumerTakes(s, t, i);
    }
  }

  lemma ProducerCanRun(s: State, j: nat) returns (t: State)
    requires Inv(s) && j < |s.producers|
    requires (Runs(s.producers[j]) && s.holder == Nobody) || s.producers[j] == Waiting
    ensures ProducerStep(s, t, j) && t.producers[j] != s.producers[j]
  {
    if s.producers[j] == Waiting {
      t := s.(producers := s.producers[j := Asleep], holder := Nobody);
      assert ProducerSleeps(s, t, j);
    } else if s.ring.Full() && s.flag {
      t := s.(producers := s.producers[j := Away]);
      assert ProducerRefused(s, t, j);
    } else if s.ring.Full() {
      t := s.(producers := s.producers[j := Waiting], holder := Producer(j));
      assert ProducerMustWait(s, t, j);
    } else {
      var consumers := SomeSignal(s.consumers);
      t := s.(ring := Put(s.ring, s.offers[j]), producers := s.producers[j := Away], consumers := consumers,
              added := s.added + [s.offers[j]]);
      assert ProducerPuts(s, t, j);
    }
  }

  lemma SomeSignal(threads: seq<Phase>) returns (after: seq<Phase>)
    ensures Signalled(threads, after)
  {
    after := threads;
    if Sleepers(threads) > 0 {
      assert Asleep in multiset(threads);
      assert Asleep in threads;
      var k :| 0 <= k < |threads| && threads[k] == Asleep;
      after := threads[k := Woken];
    }
  }
}
