/** One simulated process (`Processo`, main.py:14-79): its vector clock, its
    append-only log of clock snapshots and the parallel log of message links.
    The value `ProcState` and the step functions below specify the class
    `Process`, whose methods update its fields in place as the source does. */
module Processes {
  import opened VectorClocks

  datatype Option<T> = None | Some(value: T)

  /** Where a message went: the receiving process and the index of the receive
      event in that process's log. */
  datatype Link = Link(dest: nat, destEvent: nat)

  /** The observable state of a process: current clock, event log (one clock
      snapshot per event) and message-link log (a link for a send event, None
      for a local or a receive event). */
  datatype ProcState = ProcState(clock: Clock, events: seq<Clock>, links: seq<Option<Link>>)

  /** A freshly created process: zero clock of width n, empty logs. */
  function Initial(n: nat): (p: ProcState)
    ensures |p.clock| == n && p.events == [] && p.links == []
    ensures forall k :: 0 <= k < n ==> p.clock[k] == 0
  {
    ProcState(Zero(n), [], [])
  }

  /** Every operation ends the same way: the new clock becomes current, a copy of
      it is appended to the event log and one entry to the link log. Both logs
      only grow, and aligned logs stay aligned. */
  function Record(p: ProcState, c: Clock, link: Option<Link>): (r: ProcState)
    ensures r.clock == c
    ensures |r.events| == |p.events| + 1 && r.events[..|p.events|] == p.events
    ensures |r.links| == |p.links| + 1 && r.links[..|p.links|] == p.links
    ensures r.events[|p.events|] == c && r.links[|p.links|] == link
  {
    ProcState(c, p.events + [c], p.links + [link])
  }

  /** `evento_local`: tick the own component, log it with no link. */
  function LocalStep(p: ProcState, id: nat): (r: ProcState)
    requires id < |p.clock|
    ensures HappenedBefore(p.clock, r.clock)
    ensures r.clock[id] == p.clock[id] + 1
    ensures forall k :: 0 <= k < |p.clock| && k != id ==> r.clock[k] == p.clock[k]
    ensures r.events == p.events + [r.clock] && r.links == p.links + [None]
  {
    TickChangesOnlyOwn(p.clock, id);
    Record(p, Tick(p.clock, id), None)
  }

  /** `receber_mensagem`: merge with the incoming clock, tick the own component,
      log it with no link. */
  function ReceiveStep(p: ProcState, id: nat, incoming: Clock): (r: ProcState)
    requires id < |p.clock| && |incoming| == |p.clock|
    ensures HappenedBefore(p.clock, r.clock) && LessEq(incoming, r.clock)
    ensures |r.clock| == |p.clock|
    ensures forall k :: 0 <= k < |p.clock| ==>
      r.clock[k] == if k == id then Max(p.clock[k], incoming[k]) + 1 else Max(p.clock[k], incoming[k])
    ensures r.events == p.events + [r.clock] && r.links == p.links + [None]
  {
    var merged := Merge(p.clock, incoming);
    forall k | 0 <= k < |p.clock|
      ensures Tick(merged, id)[k] == if k == id then Max(p.clock[k], incoming[k]) + 1 else Max(p.clock[k], incoming[k])
    {
      MergeTickAt(p.clock, incoming, id, k);
    }
    LessEqTransitive(p.clock, merged, Tick(merged, id));
    LessEqTransitive(incoming, merged, Tick(merged, id));
    Record(p, Tick(merged, id), None)
  }

  /** `enviar_mensagem` from sender `s` (id `sid`) to target `t` (id `tid`): the
      sender ticks and logs its send event, the target receives that snapshot,
      and the sender logs a link to the target's new event. The result is the
      pair (new sender, new target). */
  function SendStep(s: ProcState, sid: nat, t: ProcState, tid: nat): (r: (ProcState, ProcState))
    requires sid < |s.clock| && tid < |t.clock| && |s.clock| == |t.clock|
    ensures HappenedBefore(s.clock, r.0.clock) && HappenedBefore(t.clock, r.1.clock)
    ensures r.0.clock[sid] == s.clock[sid] + 1
    ensures forall k :: 0 <= k < |s.clock| && k != sid ==> r.0.clock[k] == s.clock[k]
    ensures HappenedBefore(r.0.clock, r.1.clock)
    ensures r.0.events == s.events + [r.0.clock]
    ensures r.0.links == s.links + [Some(Link(tid, |t.events|))]
    ensures r.1 == ReceiveStep(t, tid, r.0.clock)
  {
    var sent := Tick(s.clock, sid);
    TickChangesOnlyOwn(s.clock, sid);
    var received := ReceiveStep(t, tid, sent);
    var merged := Merge(t.clock, sent);
    assert received.clock == Tick(merged, tid);
    assert HappenedBefore(sent, received.clock) by {
      assert sent[tid] <= merged[tid] < received.clock[tid];
    }
    (Record(s, sent, Some(Link(tid, |received.events| - 1))), received)
  }

  /** What holds of every process `id` of an n-process simulation at all times:
      aligned logs, own component equal to the number of events, the e-th event
      carrying e+1 in the own component, and snapshots that never decrease and
      end in the current clock. */
  predicate WellFormed(p: ProcState, id: nat, n: nat) {
    id < n && |p.clock| == n && |p.links| == |p.events| && p.clock[id] == |p.events|
    && (forall e :: 0 <= e < |p.events| ==> LessEq(p.events[e], p.clock) && p.events[e][id] == e + 1)
    && (forall e1, e2 :: 0 <= e1 <= e2 < |p.events| ==> LessEq(p.events[e1], p.events[e2]))
    && (|p.events| > 0 ==> p.events[|p.events| - 1] == p.clock)
  }

  lemma InitialWellFormed(id: nat, n: nat)
    requires id < n
    ensures WellFormed(Initial(n), id, n)
  {
  }

  /** Recording a clock that dominates the current one and has exactly one more
      in the own component keeps a process well formed. */
  lemma RecordKeepsWellFormed(p: ProcState, id: nat, n: nat, c: Clock, link: Option<Link>)
    requires WellFormed(p, id, n)
    requires LessEq(p.clock, c) && c[id] == p.clock[id] + 1
    ensures WellFormed(Record(p, c, link), id, n)
  {
    var r := Record(p, c, link);
    forall e | 0 <= e < |r.events|
      ensures LessEq(r.events[e], r.clock) && r.events[e][id] == e + 1
    {
      if e < |p.events| {
        assert r.events[e] == p.events[e];
        LessEqTransitive(p.events[e], p.clock, c);
      }
    }
    forall e1, e2 | 0 <= e1 <= e2 < |r.events|
      ensures LessEq(r.events[e1], r.events[e2])
    {
      if e2 < |p.events| {
        assert r.events[e1] == p.events[e1] && r.events[e2] == p.events[e2];
      } else if e1 < |p.events| {
        assert r.events[e1] == p.events[e1];
        LessEqTransitive(p.events[e1], p.clock, c);
      }
    }
  }

  lemma LocalStepKeepsWellFormed(p: ProcState, id: nat, n: nat)
    requires WellFormed(p, id, n)
    ensures WellFormed(LocalStep(p, id), id, n)
  {
    TickChangesOnlyOwn(p.clock, id);
    RecordKeepsWellFormed(p, id, n, Tick(p.clock, id), None);
  }

  /** A receive keeps a process well formed provided the incoming clock does not
      exceed the receiver's own component: only the owner advances its index. */
  lemma ReceiveStepKeepsWellFormed(p: ProcState, id: nat, n: nat, incoming: Clock)
    requires WellFormed(p, id, n) && |incoming| == n
    requires incoming[id] <= p.clock[id]
    ensures WellFormed(ReceiveStep(p, id, incoming), id, n)
  {
    var r := ReceiveStep(p, id, incoming);
    RecordKeepsWellFormed(p, id, n, r.clock, None);
  }

  /** The events of one process are totally ordered by causal precedence, in
      log order. */
  lemma EventsInLogOrder(p: ProcState, id: nat, n: nat, e1: nat, e2: nat)
    requires WellFormed(p, id, n)
    requires e1 < e2 < |p.events|
    ensures HappenedBefore(p.events[e1], p.events[e2])
  {
    assert p.events[e1][id] < p.events[e2][id];
  }

  /** Two processes: P0 has a local event, then sends to P1. */
  lemma ScenarioTwoProcesses()
    ensures var p0 := LocalStep(Initial(2), 0);
      var sent := SendStep(p0, 0, Initial(2), 1);
      p0.clock == [1, 0] && sent.0.clock == [2, 0] && sent.1.clock == [2, 1]
      && sent.0.links == [None, Some(Link(1, 0))]
  {
    assert Initial(2).clock == [0, 0];
    assert Tick([0, 0], 0) == [1, 0];
    assert Tick([1, 0], 0) == [2, 0];
    assert Merge([0, 0], [2, 0]) == [2, 0];
    assert Tick([2, 0], 1) == [2, 1];
  }

  /** Three processes: P1 and P2 each have a local event, then P1 sends to P2. */
  lemma ScenarioThreeProcesses()
    ensures var p1 := LocalStep(Initial(3), 1);
      var p2 := LocalStep(Initial(3), 2);
      var sent := SendStep(p1, 1, p2, 2);
      sent.0.clock == [0, 2, 0] && sent.1.clock == [0, 2, 2]
  {
    assert Initial(3).clock == [0, 0, 0];
    assert Tick([0, 0, 0], 1) == [0, 1, 0];
    assert Tick([0, 0, 0], 2) == [0, 0, 1];
    assert Tick([0, 1, 0], 1) == [0, 2, 0];
    assert Merge([0, 0, 1], [0, 2, 0]) == [0, 2, 1];
    assert Tick([0, 2, 1], 2) == [0, 2, 2];
  }

  /** A process of the simulation (`Processo`). */
  class Process {
    const id: nat
    var clock: Clock
    var events: seq<Clock>
    var links: seq<Option<Link>>

    function State(): ProcState
      reads this
    {
      ProcState(clock, events, links)
    }

    /** `Processo.__init__` */
    constructor (id: nat, n: nat)
      ensures this.id == id && State() == Initial(n)
    {
      this.id := id;
      clock := Zero(n);
      events := [];
      links := [];
    }

    /** `evento_local` */
    method LocalEvent()
      requires id < |clock|
      modifies this
      ensures State() == LocalStep(old(State()), id)
    {
      clock := clock[id := clock[id] + 1];
      events := events + [clock];
      links := links + [None];
    }

    /** `receber_mensagem`: returns the index of the receive event just logged. */
    method Receive(incoming: Clock) returns (index: nat)
      requires id < |clock| && |incoming| == |clock|
      modifies this
      ensures State() == ReceiveStep(old(State()), id, incoming)
      ensures index == |events| - 1 && events[index] == clock
    {
      clock := Merge(clock, incoming);
      clock := clock[id := clock[id] + 1];
      events := events + [clock];
      links := links + [None];
      index := |events| - 1;
    }

    /** `enviar_mensagem`: the target's receive runs inline, between logging the
        send event and logging its link. */
    method Send(target: Process)
      requires target != this
      requires id < |clock| && target.id < |target.clock| && |target.clock| == |clock|
      modifies this, target
      ensures (State(), target.State()) == SendStep(old(State()), id, old(target.State()), target.id)
    {
      clock := clock[id := clock[id] + 1];
      events := events + [clock];
      var index := target.Receive(clock);
      links := links + [Some(Link(target.id, index))];
    }
  }
}
