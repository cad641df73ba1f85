/** The whole simulation: a fixed list of n processes whose ids are their
    positions (`App.criar_simulacao`, main.py:137-139), driven one operation at a
    time by process id (`App.evento_local`, `App.enviar_mensagem`). The value
    level states the system invariant and proves that every operation keeps it;
    the class `Simulation` dispatches to the `Process` objects. */
module Simulations {
  import opened VectorClocks
  import opened Processes

  /** Process k of the simulation sits at index k. */
  type System = seq<ProcState>

  /** Every process is well formed for its own index. */
  predicate Shaped(ps: System) {
    forall k :: 0 <= k < |ps| ==> WellFormed(ps[k], k, |ps|)
  }

  /** No process knows more about process q than q itself: only q ever
      increments component q, and a merge never exceeds the owner's value. */
  predicate OwnerDominates(ps: System) {
    Widths(ps)
    && forall p, q :: 0 <= p < |ps| && 0 <= q < |ps| ==> ps[p].clock[q] <= ps[q].clock[q]
  }

  /** The link logged at event e of process a points at an existing event of
      another process that has no link of its own, and the send event causally
      precedes it. Event kinds are not recorded, so this does not distinguish a
      receive event from a local one. */
  predicate LinkCausal(ps: System, a: nat, e: nat)
    requires a < |ps| && e < |ps[a].links| && ps[a].links[e].Some?
  {
    var l := ps[a].links[e].value;
    l.dest < |ps| && l.dest != a && e < |ps[a].events|
    && l.destEvent < |ps[l.dest].events| && l.destEvent < |ps[l.dest].links|
    && ps[l.dest].links[l.destEvent] == None
    && HappenedBefore(ps[a].events[e], ps[l.dest].events[l.destEvent])
  }

  predicate LinksCausal(ps: System) {
    forall a, e :: 0 <= a < |ps| && 0 <= e < |ps[a].links| && ps[a].links[e].Some? ==> LinkCausal(ps, a, e)
  }

  /** The system invariant, kept by every operation. */
  predicate Invariant(ps: System) {
    Shaped(ps) && OwnerDominates(ps) && LinksCausal(ps)
  }

  /** The logs of `p` are prefixes of those of `q`: nothing logged is ever
      changed or removed. */
  predicate Grows(p: ProcState, q: ProcState) {
    |p.events| <= |q.events| && q.events[..|p.events|] == p.events
    && |p.links| <= |q.links| && q.links[..|p.links|] == p.links
    && LessEq(p.clock, q.clock)
  }

  predicate SystemGrows(ps: System, r: System) {
    |ps| == |r| && forall k :: 0 <= k < |ps| ==> Grows(ps[k], r[k])
  }

  /** `criar_simulacao`: n fresh processes, process k with id k. */
  function InitialSystem(n: nat): (ps: System)
    ensures |ps| == n && Widths(ps)
    ensures forall k :: 0 <= k < n ==> ps[k].events == [] && ps[k].links == [] && ps[k].clock == Zero(n)
  {
    seq(n, _ => Initial(n))
  }

  /** The system invariant holds at creation. */
  lemma InitialSystemInvariant(n: nat)
    ensures Invariant(InitialSystem(n))
  {
    var ps := InitialSystem(n);
    forall k | 0 <= k < n ensures WellFormed(ps[k], k, n) {
      InitialWellFormed(k, n);
    }
  }

  /** `App.evento_local(i)`: only process i changes. */
  function LocalAt(ps: System, i: nat): (r: System)
    requires i < |ps| && i < |ps[i].clock|
    ensures |r| == |ps| && r[i] == LocalStep(ps[i], i)
    ensures forall k :: 0 <= k < |ps| && k != i ==> r[k] == ps[k]
  {
    ps[i := LocalStep(ps[i], i)]
  }

  /** `App.enviar_mensagem(i, j)`: only processes i and j change. */
  function SendAt(ps: System, i: nat, j: nat): (r: System)
    requires i < |ps| && j < |ps| && i != j
    requires i < |ps[i].clock| && j < |ps[j].clock| && |ps[i].clock| == |ps[j].clock|
    ensures |r| == |ps| && (r[i], r[j]) == SendStep(ps[i], i, ps[j], j)
    ensures forall k :: 0 <= k < |ps| && k != i && k != j ==> r[k] == ps[k]
  {
    var st := SendStep(ps[i], i, ps[j], j);
    ps[i := st.0][j := st.1]
  }

  /** Links already logged stay causal while the logs grow. */
  lemma LinksSurvive(ps: System, r: System)
    requires LinksCausal(ps) && SystemGrows(ps, r)
    ensures forall a, e :: 0 <= a < |ps| && 0 <= e < |ps[a].links| && ps[a].links[e].Some? ==> LinkCausal(r, a, e)
  {
    forall a, e | 0 <= a < |ps| && 0 <= e < |ps[a].links| && ps[a].links[e].Some?
      ensures LinkCausal(r, a, e)
    {
      assert LinkCausal(ps, a, e);
      assert r[a].links[e] == ps[a].links[e] by {
        assert r[a].links[..|ps[a].links|][e] == ps[a].links[e];
      }
      assert r[a].events[e] == ps[a].events[e] by {
        assert r[a].events[..|ps[a].events|][e] == ps[a].events[e];
      }
      var l := ps[a].links[e].value;
      var d, x := l.dest, l.destEvent;
      assert r[d].events[x] == ps[d].events[x] by {
        assert r[d].events[..|ps[d].events|][x] == ps[d].events[x];
      }
      assert r[d].links[x] == ps[d].links[x] by {
        assert r[d].links[..|ps[d].links|][x] == ps[d].links[x];
      }
    }
  }

  lemma LocalAtShaped(ps: System, i: nat)
    requires Shaped(ps) && i < |ps|
    ensures Shaped(LocalAt(ps, i))
  {
    var r := LocalAt(ps, i);
    LocalStepKeepsWellFormed(ps[i], i, |ps|);
    forall k | 0 <= k < |ps| ensures WellFormed(r[k], k, |ps|) {
      if k != i { assert r[k] == ps[k]; }
    }
  }

  /** A local event at i raises only component i, and only at its owner. */
  lemma LocalAtOwnerDominates(ps: System, i: nat)
    requires OwnerDominates(ps) && i < |ps|
    ensures OwnerDominates(LocalAt(ps, i))
  {
    var r := LocalAt(ps, i);
    forall p, q | 0 <= p < |ps| && 0 <= q < |ps|
      ensures r[p].clock[q] <= r[q].clock[q]
    {
      assert ps[p].clock[q] <= ps[q].clock[q];
    }
  }

  lemma LocalAtGrows(ps: System, i: nat)
    requires i < |ps| && i < |ps[i].clock|
    ensures SystemGrows(ps, LocalAt(ps, i))
  {
    var r := LocalAt(ps, i);
    forall k | 0 <= k < |ps| ensures Grows(ps[k], r[k]) {
      if k == i {
        assert r[k].events[..|ps[k].events|] == ps[k].events;
        assert r[k].links[..|ps[k].links|] == ps[k].links;
      } else {
        assert r[k] == ps[k];
      }
    }
  }

  /** A local event logs no link, so the links stay causal. */
  lemma LocalAtLinksCausal(ps: System, i: nat)
    requires LinksCausal(ps) && i < |ps| && i < |ps[i].clock|
    ensures LinksCausal(LocalAt(ps, i))
  {
    var r := LocalAt(ps, i);
    LocalAtGrows(ps, i);
    LinksSurvive(ps, r);
    assert r[i].links[|ps[i].links|] == None;
    forall a, e | 0 <= a < |ps| && 0 <= e < |r[a].links| && r[a].links[e].Some?
      ensures LinkCausal(r, a, e)
    {
      if a != i {
        assert r[a] == ps[a];
      }
    }
  }

  lemma LocalAtKeepsInvariant(ps: System, i: nat)
    requires Invariant(ps) && i < |ps|
    ensures Invariant(LocalAt(ps, i)) && SystemGrows(ps, LocalAt(ps, i))
  {
    LocalAtShaped(ps, i);
    LocalAtLinksCausal(ps, i);
    LocalAtOwnerDominates(ps, i);
    LocalAtGrows(ps, i);
  }

  lemma SendAtShaped(ps: System, i: nat, j: nat)
    requires Shaped(ps) && OwnerDominates(ps) && i < |ps| && j < |ps| && i != j
    ensures Shaped(SendAt(ps, i, j))
  {
    var n := |ps|;
    var r := SendAt(ps, i, j);
    var s, t := ps[i], ps[j];
    var sent := Tick(s.clock, i);
    TickChangesOnlyOwn(s.clock, i);
    assert r[i] == Record(s, sent, Some(Link(j, |t.events|)));
    assert sent[j] <= t.clock[j] by {
      assert ps[i].clock[j] <= ps[j].clock[j];
    }
    RecordKeepsWellFormed(s, i, n, sent, Some(Link(j, |t.events|)));
    ReceiveStepKeepsWellFormed(t, j, n, sent);
    forall k | 0 <= k < n ensures WellFormed(r[k], k, n) {
      if k != i && k != j { assert r[k] == ps[k]; }
    }
  }

  /** A message from i to j keeps every component within its owner's: the
      sender's own component is the largest anywhere, and the receiver's own
      component was already at least the sender's view of it. */
  lemma SendAtOwnerDominates(ps: System, i: nat, j: nat)
    requires OwnerDominates(ps) && i < |ps| && j < |ps| && i != j
    ensures OwnerDominates(SendAt(ps, i, j))
  {
    var r := SendAt(ps, i, j);
    forall p, q | 0 <= p < |ps| && 0 <= q < |ps|
      ensures r[p].clock[q] <= r[q].clock[q]
    {
      assert ps[p].clock[q] <= ps[q].clock[q];
      assert ps[i].clock[q] <= ps[q].clock[q] && ps[j].clock[q] <= ps[q].clock[q];
    }
  }

  lemma SendAtGrows(ps: System, i: nat, j: nat)
    requires i < |ps| && j < |ps| && i != j
    requires i < |ps[i].clock| && j < |ps[j].clock| && |ps[i].clock| == |ps[j].clock|
    ensures SystemGrows(ps, SendAt(ps, i, j))
  {
    var r := SendAt(ps, i, j);
    forall k | 0 <= k < |ps| ensures Grows(ps[k], r[k]) {
      if k == i || k == j {
        assert r[k].events[..|ps[k].events|] == ps[k].events;
        assert r[k].links[..|ps[k].links|] == ps[k].links;
      } else {
        assert r[k] == ps[k];
      }
    }
  }

  /** The one new link points from the send event to the receive event just
      logged by the target, which the send snapshot causally precedes. */
  lemma SendAtLinksCausal(ps: System, i: nat, j: nat)
    requires LinksCausal(ps) && i < |ps| && j < |ps| && i != j
    requires i < |ps[i].clock| && j < |ps[j].clock| && |ps[i].clock| == |ps[j].clock|
    requires |ps[i].events| == |ps[i].links| && |ps[j].events| == |ps[j].links|
    ensures LinksCausal(SendAt(ps, i, j))
  {
    var r := SendAt(ps, i, j);
    var s, t := ps[i], ps[j];
    SendAtGrows(ps, i, j);
    LinksSurvive(ps, r);
    assert r[j].links[|t.links|] == None;
    assert r[i].links[|s.links|] == Some(Link(j, |t.events|));
    assert r[i].events[|s.events|] == r[i].clock;
    assert r[j].events[|t.events|] == r[j].clock;
    forall a, e | 0 <= a < |ps| && 0 <= e < |r[a].links| && r[a].links[e].Some?
      ensures LinkCausal(r, a, e)
    {
      if a != i && a != j {
        assert r[a] == ps[a];
      }
    }
  }

  lemma SendAtKeepsInvariant(ps: System, i: nat, j: nat)
    requires Invariant(ps) && i < |ps| && j < |ps| && i != j
    ensures Invariant(SendAt(ps, i, j)) && SystemGrows(ps, SendAt(ps, i, j))
  {
    SendAtShaped(ps, i, j);
    SendAtLinksCausal(ps, i, j);
    SendAtOwnerDominates(ps, i, j);
    SendAtGrows(ps, i, j);
  }

  /** One operation requested through the interface: a local event on a
      process, or a message between two distinct processes. */
  datatype Op = LocalOp(proc: nat) | SendOp(from: nat, to: nat)

  predicate Allowed(op: Op, n: nat) {
    match op
    case LocalOp(i) => i < n
    case SendOp(i, j) => i < n && j < n && i != j
  }

  /** Process k logs an event in `op`: it is the process of a local event, or
      the sender or the receiver of a message. */
  predicate Involves(op: Op, k: nat) {
    match op
    case LocalOp(i) => i == k
    case SendOp(i, j) => i == k || j == k
  }

  /** Every clock has one component per process. */
  predicate Widths(ps: System) {
    forall k :: 0 <= k < |ps| ==> |ps[k].clock| == |ps|
  }

  /** One operation, dispatched by id: every process it involves appends
      exactly one event and exactly one link entry, and no other process logs
      anything. */
  function Apply(ps: System, op: Op): (r: System)
    requires Widths(ps) && Allowed(op, |ps|)
    ensures |r| == |ps| && Widths(r)
    ensures forall k :: 0 <= k < |ps| ==>
      |r[k].events| == |ps[k].events| + (if Involves(op, k) then 1 else 0)
      && |r[k].links| == |ps[k].links| + (if Involves(op, k) then 1 else 0)
  {
    match op
    case LocalOp(i) => LocalAt(ps, i)
    case SendOp(i, j) => SendAt(ps, i, j)
  }

  /** The state after a whole sequence of operations. */
  function Run(ps: System, ops: seq<Op>): (r: System)
    requires Widths(ps) && forall op :: op in ops ==> Allowed(op, |ps|)
    ensures Widths(r) && |r| == |ps|
    decreases |ops|
  {
    if ops == [] then ps else Run(Apply(ps, ops[0]), ops[1..])
  }

  /** The number of operations in `ops` that involve process k. */
  function InvolvedIn(ops: seq<Op>, k: nat): nat {
    if ops == [] then 0 else (if Involves(ops[0], k) then 1 else 0) + InvolvedIn(ops[1..], k)
  }

  lemma ApplyKeepsInvariant(ps: System, op: Op)
    requires Invariant(ps) && Allowed(op, |ps|)
    ensures Invariant(Apply(ps, op)) && SystemGrows(ps, Apply(ps, op))
  {
    match op
    case LocalOp(i) => LocalAtKeepsInvariant(ps, i);
    case SendOp(i, j) => SendAtKeepsInvariant(ps, i, j);
  }

  /** After any sequence of operations the system invariant still holds. */
  lemma {:induction false} RunKeepsInvariant(ps: System, ops: seq<Op>)
    requires Invariant(ps) && forall op :: op in ops ==> Allowed(op, |ps|)
    ensures Invariant(Run(ps, ops))
    decreases |ops|
  {
    if ops != [] {
      ApplyKeepsInvariant(ps, ops[0]);
      RunKeepsInvariant(Apply(ps, ops[0]), ops[1..]);
    }
  }

  lemma GrowsTransitive(a: System, b: System, c: System)
    requires SystemGrows(a, b) && SystemGrows(b, c)
    ensures SystemGrows(a, c)
  {
    forall k | 0 <= k < |a| ensures Grows(a[k], c[k]) {
      var x, y, z := a[k], b[k], c[k];
      assert c[k].events[..|x.events|] == z.events[..|y.events|][..|x.events|];
      assert c[k].links[..|x.links|] == z.links[..|y.links|][..|x.links|];
      LessEqTransitive(x.clock, y.clock, z.clock);
    }
  }

  /** Over any number of operations, logged events and links are never changed
      or removed, and every clock is non-decreasing. */
  lemma {:induction false} RunGrows(ps: System, ops: seq<Op>)
    requires Invariant(ps) && forall op :: op in ops ==> Allowed(op, |ps|)
    ensures SystemGrows(ps, Run(ps, ops))
    decreases |ops|
  {
    if ops == [] {
      forall k | 0 <= k < |ps| ensures Grows(ps[k], ps[k]) {
        assert ps[k].events[..|ps[k].events|] == ps[k].events;
        assert ps[k].links[..|ps[k].links|] == ps[k].links;
      }
    } else {
      var mid := Apply(ps, ops[0]);
      ApplyKeepsInvariant(ps, ops[0]);
      RunGrows(mid, ops[1..]);
      GrowsTransitive(ps, mid, Run(ps, ops));
    }
  }

  /** Each process logs exactly one event and one link entry per operation
      that involves it. */
  lemma {:induction false} RunCountsEvents(ps: System, ops: seq<Op>, k: nat)
    requires Widths(ps) && forall op :: op in ops ==> Allowed(op, |ps|)
    requires k < |ps|
    ensures |Run(ps, ops)[k].events| == |ps[k].events| + InvolvedIn(ops, k)
    ensures |Run(ps, ops)[k].links| == |ps[k].links| + InvolvedIn(ops, k)
    decreases |ops|
  {
    if ops != [] {
      RunCountsEvents(Apply(ps, ops[0]), ops[1..], k);
    }
  }

  /** Every state reachable from creation satisfies the system invariant. */
  lemma ReachableInvariant(n: nat, ops: seq<Op>)
    requires forall op :: op in ops ==> Allowed(op, n)
    ensures Invariant(Run(InitialSystem(n), ops))
  {
    InitialSystemInvariant(n);
    RunKeepsInvariant(InitialSystem(n), ops);
  }

  /** After any sequence of operations from the start, process i's own
      component equals the number of events it logged, which is the number of
      operations that involved it, and no process has a larger value for i. */
  lemma OwnComponentCountsEvents(n: nat, ops: seq<Op>, i: nat)
    requires forall op :: op in ops ==> Allowed(op, n)
    requires i < n
    ensures var r := Run(InitialSystem(n), ops);
      r[i].clock[i] == |r[i].events| == |r[i].links| == InvolvedIn(ops, i)
      && forall q :: 0 <= q < n ==> r[q].clock[i] <= r[i].clock[i]
  {
    var r := Run(InitialSystem(n), ops);
    ReachableInvariant(n, ops);
    RunCountsEvents(InitialSystem(n), ops, i);
    assert WellFormed(r[i], i, n);
  }

  /** The simulation (`App.processos` with its dispatch by id). */
  class Simulation {
    const n: nat
    const procs: seq<Process>

    /** The state of every process, in id order. */
    ghost function System(): System
      reads procs
    {
      seq(|procs|, k requires 0 <= k < |procs| reads procs => procs[k].State())
    }

    ghost predicate Valid()
      reads procs
    {
      |procs| == n
      && (forall k :: 0 <= k < n ==> procs[k].id == k)
      && (forall a, b :: 0 <= a < b < n ==> procs[a] != procs[b])
      && Invariant(System())
    }

    /** `criar_simulacao`: processes 0..n-1, each created with its index as id. */
    constructor (n: nat)
      ensures Valid() && this.n == n && System() == InitialSystem(n)
      ensures forall k :: 0 <= k < n ==> procs[k].id == k && fresh(procs[k])
    {
      var ps: seq<Process> := [];
      var k := 0;
      while k < n
        invariant k <= n && |ps| == k
        invariant forall m :: 0 <= m < k ==> ps[m].id == m && ps[m].State() == Initial(n)
        invariant forall a, b :: 0 <= a < b < k ==> ps[a] != ps[b]
        invariant forall m :: 0 <= m < k ==> fresh(ps[m])
      {
        var p := new Process(k, n);
        ps := ps + [p];
        k := k + 1;
      }
      this.n := n;
      procs := ps;
      new;
      assert System() == InitialSystem(n);
      InitialSystemInvariant(n);
    }

    /** `App.evento_local(id_processo)` */
    method LocalEvent(i: nat)
      requires Valid() && i < n
      modifies procs[i]
      ensures Valid() && System() == LocalAt(old(System()), i)
    {
      assert WellFormed(System()[i], i, n);
      procs[i].LocalEvent();
      assert System() == LocalAt(old(System()), i);
      LocalAtKeepsInvariant(old(System()), i);
    }

    /** `App.enviar_mensagem(id_origem, id_destino)` */
    method Send(i: nat, j: nat)
      requires Valid() && i < n && j < n && i != j
      modifies procs[i], procs[j]
      ensures Valid() && System() == SendAt(old(System()), i, j)
    {
      assert WellFormed(System()[i], i, n) && WellFormed(System()[j], j, n);
      procs[i].Send(procs[j]);
      assert System() == SendAt(old(System()), i, j);
      SendAtKeepsInvariant(old(System()), i, j);
    }
  }
}
