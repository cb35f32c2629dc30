/** The event registry of devent/docket.c and the code that runs callbacks over it: the read loop of devent/read.c, the
    flush of devent/write.c and the close path of devent/utils.c. Memory is a map from addresses to events, so using an
    event that was freed is an error of the model; an address may be given out again once it was freed. */
module Registry {
  import opened SparseArray

  type Address = nat

  const NULL: Address := 0

  datatype Event = Event(fd: int, readOn: bool, writeOn: bool, hasReadCb: bool, hasWriteCb: bool, hasEventCb: bool)

  /** What the socket answers: it moved data, it would block, or it is at its end or broken. */
  datatype Answer = Moved | Blocked | Ended

  /** The first answer after which a loop does not go on, if there is one. */
  function Stop(answers: seq<Answer>): Answer
  {
    if answers == [] then Moved else if answers[0] != Moved then answers[0] else Stop(answers[1..])
  }

  lemma {:induction false} StopBehind(answers: seq<Answer>, i: nat)
    requires i <= |answers| && forall k :: 0 <= k < i ==> answers[k] == Moved
    ensures Stop(answers) == Stop(answers[i..])
  {
    if i > 0 {
      StopBehind(answers[1..], i - 1);
      assert answers[1..][i - 1..] == answers[i..];
    } else {
      assert answers[0..] == answers;
    }
  }

  lemma {:induction false} UnusedAddress(used: set<Address>) returns (a: Address)
    ensures a !in used && a != NULL
    decreases |used|
  {
    if used == {} {
      a := 1;
    } else {
      var x := Largest(used);
      a := x + 1;
    }
  }

  lemma {:induction false} Largest(s: set<Address>) returns (m: Address)
    requires s != {}
    ensures m in s && forall x :: x in s ==> x <= m
    decreases |s|
  {
    m :| m in s;
    if s != {m} {
      var k := Largest(s - {m});
      assert forall x :: x in s ==> x == m || x in s - {m};
      m := if k > m then k else m;
    }
  }

  class Docket {
    const events: CSparseArray<Address>
    var memory: map<Address, Event>
    ghost var calls: nat // of callbacks

    /** Every registered event is live and registered under its own descriptor. */
    ghost predicate Sound()
      reads this, events, events.nodes
    {
      && events.Valid()
      && forall k :: k in events.Model() ==> events.Model()[k] in memory && memory[events.Model()[k]].fd == k
    }

    /** And all descriptors are positive. */
    ghost predicate Valid()
      reads this, events, events.nodes
    {
      Sound() && NULL !in memory && forall k :: k in events.Model() ==> 0 < k
    }

    ghost predicate Registered(e: Address)
      reads this, events, events.nodes
    {
      e in memory && memory[e].fd in events.Model() && events.Model()[memory[e].fd] == e
    }

    constructor ()
      ensures Valid() && memory == map[] && fresh(events) && fresh(events.nodes)
    {
      events := new CSparseArray();
      memory := map[];
      calls := 0;
    }

    /** `DocketEvent_new`: some address that is not in use. */
    method New(fd: int) returns (e: Address)
      requires Sound() && NULL !in memory
      modifies this`memory
      ensures Sound() && NULL !in memory && e !in old(memory)
      ensures memory == old(memory)[e := Event(fd, true, true, false, false, false)]
    {
      ghost var a := UnusedAddress(memory.Keys);
      e :| e !in memory && e != NULL;
      memory := memory[e := Event(fd, true, true, false, false, false)];
    }

    /** `Docket_add_event`: the descriptor is not looked at. */
    method Add(e: Address)
      requires Sound() && e in memory
      modifies events, events.nodes
      ensures Sound() && events.Model() == old(events.Model())[memory[e].fd := e]
      ensures events.nodes == old(events.nodes) || fresh(events.nodes)
    {
      var _ := events.Put(memory[e].fd, e);
    }

    /** `Docket_find_event`. */
    method Find(fd: int) returns (e: Address)
      requires Valid()
      ensures e == NULL <==> fd !in events.Model()
      ensures e != NULL ==> Registered(e) && memory[e].fd == fd
    {
      var r := events.Get(fd);
      e := if r.Some? then r.value else NULL;
    }

    /** `DocketEvent_free`: only positive descriptors are taken out of the registry, which stays sound exactly unless
        the event is registered under another one. */
    method Free(e: Address)
      requires Sound() && e in memory
      modifies this`memory, events, events.nodes
      ensures memory == old(memory) - {e} && events.Valid() && events.nodes == old(events.nodes)
      ensures events.Model() ==
              if 0 < old(memory[e].fd) then old(events.Model()) - {old(memory[e].fd)} else old(events.Model())
      ensures Sound() <==> 0 < old(memory[e].fd) || !old(Registered(e))
    {
      if 0 < memory[e].fd {
        var _ := events.Remove(memory[e].fd);
      }
      memory := memory - {e};
    }

    /** An event under descriptor 0 stays registered when it is freed. */
    method FreedButRegistered() returns (e: Address)
      requires Sound() && NULL !in memory
      modifies this`memory, events, events.nodes
      ensures 0 in events.Model() && events.Model()[0] == e && e !in memory && !Sound()
    {
      e := New(0);
      Add(e);
      Free(e);
    }

    /** An arbitrary callback that keeps to the API: it frees live events, makes new ones and registers them under
        positive descriptors, also under one that is in use, gives a descriptor to an event that waited for one, and
        changes flags and callbacks of live events, all in any order and number. */
    method Callback()
      requires Valid()
      modifies this`memory, this`calls, events, events.nodes
      ensures Valid() && (events.nodes == old(events.nodes) || fresh(events.nodes)) && calls == old(calls) + 1
    {
      var steps: nat := *;
      while steps > 0
        invariant Valid() && (events.nodes == old(events.nodes) || fresh(events.nodes)) && calls == old(calls)
        decreases steps
      {
        var choice, fd: int := *, *;
        ApiCall(choice, fd);
        steps := steps - 1;
      }
      calls := calls + 1;
    }

    /** One API call of a callback. */
    method ApiCall(choice: int, fd: int)
      requires Valid()
      modifies this`memory, events, events.nodes
      ensures Valid() && (events.nodes == old(events.nodes) || fresh(events.nodes))
    {
      if choice == 0 {
        var e := New(if 0 < fd then fd else -1);
        if 0 < fd {
          Add(e);
        }
      } else if memory.Keys != {} {
        var e :| e in memory.Keys;
        if choice == 1 {
          Free(e);
        } else if choice == 2 {
          if memory[e].fd == -1 && 0 < fd {
            memory := memory[e := memory[e].(fd := fd)];
            Add(e);
          }
        } else {
          var any: Event := *;
          memory := memory[e := any.(fd := memory[e].fd)];
        }
      }
    }

    /** `devent_close_internal`: the callback may free or replace the event, so it is looked up again. Afterwards
        nothing is registered under the descriptor. */
    method Close(e: Address)
      requires Valid() && e in memory
      modifies this`memory, this`calls, events, events.nodes
      ensures Valid() && (events.nodes == old(events.nodes) || fresh(events.nodes))
      ensures old(memory[e].fd) !in events.Model()
      ensures calls == old(calls) + if old(memory[e].hasEventCb) then 1 else 0
      ensures !old(memory[e].hasEventCb) && old(Registered(e)) ==>
                memory == old(memory) - {e} && events.Model() == old(events.Model()) - {old(memory[e].fd)}
    {
      var fd := memory[e].fd;
      memory := memory[e := memory[e].(readOn := false, writeOn := false)];
      if memory[e].hasEventCb {
        Callback();
      }
      var found := Find(fd);
      if found != NULL {
        Free(found);
      }
    }

    /** The event is still there, with writing on or off. */
    ghost predicate Kept(before: map<Address, Event>, e: Address, on: bool, was: map<int, Address>)
      requires e in before
      reads this, events, events.nodes
    {
      events.Valid() && memory == before[e := before[e].(writeOn := on)] && events.Model() == was
    }

    /** `devent_write_data`, for a socket that gives these answers until the queue is empty. */
    method WriteData(e: Address, answers: seq<Answer>)
      requires Valid() && e in memory
      modifies this`memory, this`calls, events, events.nodes
      ensures Valid() && (events.nodes == old(events.nodes) || fresh(events.nodes))
      ensures old(memory[e].writeOn) && Stop(answers) == Ended ==>
                && old(memory[e].fd) !in events.Model()
                && calls == old(calls) + if old(memory[e].hasEventCb) then 1 else 0
      ensures !old(memory[e].writeOn) || Stop(answers) != Ended ==>
                && calls == old(calls) + (if old(memory[e].hasWriteCb) then 1 else 0)
                && (!old(memory[e].hasWriteCb) ==>
                      Kept(old(memory), e, !old(memory[e].writeOn) || Stop(answers) != Blocked, old(events.Model())))
    {
      hide CSparseArray.Valid, CSparseArray.Model;
      if !memory[e].writeOn {
        memory := memory[e := memory[e].(writeOn := true)];
      } else {
        var i := 0;
        while memory[e].writeOn && i < |answers|
          invariant Valid() && e in memory && i <= |answers| && events.nodes == old(events.nodes)
          invariant events.Model() == old(events.Model()) && calls == old(calls)
          invariant memory == old(memory)[e := old(memory[e]).(writeOn := memory[e].writeOn)]
          invariant Stop(answers) == if memory[e].writeOn then Stop(answers[i..]) else Blocked
          decreases |answers| - i
        {
          if answers[i] == Blocked {
            memory := memory[e := memory[e].(writeOn := false)];
          } else if answers[i] == Ended {
            Close(e);
            return;
          }
          assert answers[i..][1..] == answers[i + 1..];
          i := i + 1;
        }
      }
      if memory[e].hasWriteCb {
        Callback();
      }
    }

    /** `docket_on_event_write`; `queued` says whether there is something to write. */
    method OnEventWrite(e: Address, queued: bool, answers: seq<Answer>)
      requires Valid() && e in memory
      modifies this`memory, this`calls, events, events.nodes
      ensures Valid() && (events.nodes == old(events.nodes) || fresh(events.nodes))
      ensures !queued ==> Kept(old(memory), e, true, old(events.Model())) && calls == old(calls)
      ensures queued && Stop(answers) == Ended ==> old(memory[e].fd) !in events.Model()
      ensures queued && Stop(answers) != Ended && !old(memory[e].hasWriteCb) ==>
                Kept(old(memory), e, Stop(answers) != Blocked, old(events.Model()))
      ensures queued ==> calls == old(calls) + if old(CallsBack(e, answers)) then 1 else 0
    {
      hide Valid, Sound, CSparseArray.Valid, CSparseArray.Model;
      SwitchWrite(e, false);
      SwitchWrite(e, true);
      assert old(memory)[e := old(memory[e]).(writeOn := false)][e := old(memory[e]).(writeOn := true)] ==
             old(memory)[e := old(memory[e]).(writeOn := true)];
      if !queued {
        return;
      }
      WriteData(e, answers);
    }

    /** Whether a flush of `e` runs a callback: the one for the end, or the one for writing. */
    predicate CallsBack(e: Address, answers: seq<Answer>)
      requires e in memory
      reads this
    {
      if Stop(answers) == Ended then memory[e].hasEventCb else memory[e].hasWriteCb
    }

    /** The end of one round of the read loop: the callback, and the event found again by its descriptor. */
    method ReadRound(event: Address) returns (e: Address)
      requires Valid() && event in memory
      modifies this`memory, this`calls, events, events.nodes
      ensures Valid() && (events.nodes == old(events.nodes) || fresh(events.nodes))
      ensures e == NULL <==> old(memory[event].fd) !in events.Model()
      ensures e != NULL ==> Registered(e) && memory[e].fd == old(memory[event].fd)
      ensures calls == old(calls) + if old(memory[event].hasReadCb) then 1 else 0
      ensures !old(memory[event].hasReadCb) ==>
                events.Valid() && memory == old(memory) && events.Model() == old(events.Model())
    {
      var fd := memory[event].fd;
      if memory[event].hasReadCb {
        Callback();
      }
      e := Find(fd);
    }

    /** What follows the read loop: flush, or the last read callback and the close. */
    method AfterReading(event: Address, last: Answer, answers: seq<Answer>, waiting: bool) returns (ended: bool)
      requires Valid() && event in memory
      modifies this`memory, this`calls, events, events.nodes
      ensures Valid() && (events.nodes == old(events.nodes) || fresh(events.nodes))
      ensures (ended <==> last == Ended) && calls >= old(calls)
      ensures ended || Stop(answers) == Ended ==> old(memory[event].fd) !in events.Model()
      ensures ended && waiting && old(memory[event].hasReadCb) ==> calls > old(calls)
      ensures !ended ==> calls == old(calls) + if old(CallsBack(event, answers)) then 1 else 0
      ensures !ended && Stop(answers) != Ended && !old(memory[event].hasWriteCb) ==>
                Kept(old(memory), event, Stop(answers) != Blocked, old(events.Model()))
    {
      hide CSparseArray.Valid, CSparseArray.Model;
      var fd := memory[event].fd;
      if last != Ended {
        memory := memory[event := memory[event].(writeOn := true)];
        WriteData(event, answers);
        return false;
      }
      if waiting && memory[event].hasReadCb {
        Callback();
      }
      var e := Find(fd);
      if e != NULL {
        Close(e);
      }
      return true;
    }

    /** `docket_on_event_read`, for a socket that gives these answers to the reads and then blocks; `waiting` says
        whether the in-buffer holds bytes at the end. After each callback the event is looked up by its descriptor, and
        may be gone or another one. What the loop does is determined as long as no callback runs. */
    method OnEventRead(event: Address, arrivals: seq<Answer>, answers: seq<Answer>, waiting: bool) returns (ended: bool)
      requires Valid() && Registered(event)
      modifies this`memory, this`calls, events, events.nodes
      ensures Valid() && (events.nodes == old(events.nodes) || fresh(events.nodes))
      ensures ended ==> Stop(arrivals) == Ended && old(memory[event].fd) !in events.Model()
      ensures !old(memory[event].readOn) ==> !ended && Kept(old(memory), event, false, old(events.Model()))
      ensures !old(memory[event].readOn) ==> calls == old(calls)
      ensures old(memory[event].readOn) && arrivals != [] && arrivals[0] == Moved && old(memory[event].hasReadCb) ==>
                calls > old(calls)
      ensures old(memory[event].readOn) && (Quiet(arrivals) || !old(memory[event].hasReadCb)) ==>
                && (ended <==> Stop(arrivals) == Ended)
                && (Stop(answers) == Ended ==> old(memory[event].fd) !in events.Model())
                && (!ended ==> calls == old(calls) + if old(CallsBack(event, answers)) then 1 else 0)
                && (!ended && Stop(answers) != Ended && !old(memory[event].hasWriteCb) ==>
                      Kept(old(memory), event, Stop(answers) != Blocked, old(events.Model())))
    {
      hide Valid, Sound, CSparseArray.Valid, CSparseArray.Model;
      ended := false;
      SwitchWrite(event, false);
      if !memory[event].readOn {
        return;
      }
      var e, i, last := event, 0, Blocked;
      while memory[e].readOn
        invariant Valid() && (events.nodes == old(events.nodes) || fresh(events.nodes))
        invariant i <= |arrivals| && e in memory && memory[e].fd == old(memory[event].fd)
        invariant forall k :: 0 <= k < i ==> arrivals[k] == Moved
        invariant i == 0 || !old(memory[event].hasReadCb) ==>
                    e == event && Kept(old(memory), e, false, old(events.Model())) && calls == old(calls)
        invariant i > 0 && old(memory[event].hasReadCb) ==> calls > old(calls)
        invariant last != Ended
        decreases |arrivals| - i
      {
        last := if i < |arrivals| then arrivals[i] else Blocked;
        if last != Moved {
          break;
        }
        i := i + 1;
        e := ReadRound(e);
        if e == NULL {
          return;
        }
      }
      StopBehind(arrivals, i);
      ended := AfterReading(e, last, answers, waiting);
    }

    /** The first read brings nothing. */
    predicate Quiet(arrivals: seq<Answer>)
    {
      arrivals == [] || arrivals[0] != Moved
    }

    /** `set_write_enable` and `set_write_disable`. */
    method SwitchWrite(e: Address, on: bool)
      requires Valid() && e in memory
      modifies this`memory
      ensures Valid() && Kept(old(memory), e, on, old(events.Model()))
    {
      memory := memory[e := memory[e].(writeOn := on)];
    }
  }
}
