/** The connection queue as the program keeps it, updated in place. Every method is one section that runs
under the mutex, from taking it, or waking, to giving it up. */
module ConnectionQueue {
  import opened Ring
  import opened Monitor

  /** How a section ends: by waiting on a condition, with an error, or with the work done. */
  datatype Section = MustWait | Refused | Finished(fd: int)

  class ConnectionQueue {
    const clientFds: array<int>
    var length: nat
    var readIdx: nat
    var writeIdx: nat
    var shutdown: bool

    constructor (capacity: nat)
      requires capacity > 0
      ensures Buffer() == New(capacity) && !shutdown && fresh(clientFds)
    {
      clientFds := new int[capacity](_ => 0);
      length, readIdx, writeIdx, shutdown := 0, 0, 0, false;
      new;
      assert clientFds[..] == seq(capacity, _ => 0);
    }

    /** The buffer as a value. */
    ghost function Buffer(): Ring
      reads this, clientFds
    {
      Ring(clientFds[..], length, readIdx, writeIdx)
    }

    /** The fields stand for the queue in a state of the protocol. */
    ghost predicate Stands(s: State)
      reads this, clientFds
    {
      Buffer() == s.ring && shutdown == s.flag
    }

    /** Thread j runs under the free mutex: the section is that producer's next step in the protocol. */
    method EnqueueSection(connectionFd: int, ghost s: State, ghost j: nat) returns (end: Section, ghost t: State)
      requires Stands(s) && s.ring.Valid() && |s.offers| == |s.producers|
      requires j < |s.producers| && Runs(s.producers[j]) && s.holder == Nobody && s.offers[j] == connectionFd
      modifies this`length, this`writeIdx, clientFds
      ensures Stands(t) && ProducerStep(s, t, j) && t.ring.Valid()
      ensures end == if s.ring.Full() then (if s.flag then Refused else MustWait) else Finished(connectionFd)
      ensures match end
              case Finished(_) => ProducerPuts(s, t, j) && t.ring.Contents() == s.ring.Contents() + [connectionFd]
              case Refused => ProducerRefused(s, t, j)
              case MustWait => ProducerMustWait(s, t, j)
    {
      if length == clientFds.Length {
        if shutdown {
          t := s.(producers := s.producers[j := Away]);
          return Refused, t;
        }
        t := s.(producers := s.producers[j := Waiting], holder := Producer(j));
        return MustWait, t;
      }
      PutAppends(s.ring, connectionFd);
      var index := writeIdx;
      clientFds[index] := connectionFd;
      length := length + 1;
      index := index + 1;
      if index == clientFds.Length {
        index := 0;
      }
      writeIdx := index;
      ghost var consumers := SomeSignal(s.consumers);
      t := s.(ring := Put(s.ring, connectionFd), producers := s.producers[j := Away], consumers := consumers,
              added := s.added + [connectionFd]);
      return Finished(connectionFd), t;
    }

    /** Thread i runs under the free mutex: the section is that consumer's next step in the protocol. */
    method DequeueSection(ghost s: State, ghost i: nat) returns (end: Section, ghost t: State)
      requires Stands(s) && s.ring.Valid()
      requires i < |s.consumers| && Runs(s.consumers[i]) && s.holder == Nobody
      modifies this`length, this`readIdx
      ensures Stands(t) && ConsumerStep(s, t, i) && t.ring.Valid()
      ensures end == if s.ring.Empty() then (if s.flag then Refused else MustWait) else Finished(Oldest(s.ring))
      ensures match end
              case Finished(fd) => ConsumerTakes(s, t, i) && s.ring.Contents() == [fd] + t.ring.Contents()
              case Refused => ConsumerRefused(s, t, i)
              case MustWait => ConsumerMustWait(s, t, i)
    {
      if length == 0 {
        if shutdown {
          t := s.(consumers := s.consumers[i := Away]);
          return Refused, t;
        }
        t := s.(consumers := s.consumers[i := Waiting], holder := Consumer(i));
        return MustWait, t;
      }
      TakeRemoves(s.ring);
      var index := readIdx;
      var fd := clientFds[index];
      length := length - 1;
      index := index + 1;
      if index == clientFds.Length {
        index := 0;
      }
      readIdx := index;
      ghost var producers := SomeSignal(s.producers);
      t := s.(ring := Take(s.ring), consumers := s.consumers[i := Away], producers := producers,
              taken := s.taken + [fd]);
      return Finished(fd), t;
    }

    /** Done without the mutex: the first of the three steps of a shutdown. */
    method Shutdown(ghost s: State) returns (ghost t: State)
      requires Stands(s)
      modifies this`shutdown
      ensures Stands(t) && FlagSet(s, t)
    {
      shutdown := true;
      t := s.(flag := true);
    }
  }
}
