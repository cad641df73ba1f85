# Vector-clock simulator: verified model of the clock engine

The program simulates a small distributed system. Each process keeps a
vector clock (Fidge/Mattern), an append-only log of clock snapshots (one per
event) and a parallel log of message links. The model covers three operations:

- A local event ticks the process's own component.
- A send ticks the sender's own component and logs the send event. It then
  delivers the sender's clock inline to the target. Last, it logs a link to
  the receive event the target just created.
- A receive takes the element-wise maximum with the incoming clock, ticks the
  own component and logs the receive event. It returns that event's index.

A simulation is a fixed list of `n` such processes created together. Process
`k` has id `k`, and operations are dispatched by id.

The model has three modules, one per layer:

- `vector_clock.dfy` (`VectorClocks`): clocks as `seq<nat>`, the component-wise
  order, causal precedence, concurrency, the zero clock, the merge (element-wise
  max) and the tick. It also proves lemmas that these form the usual partial
  order.
- `process.dfy` (`Processes`): the class `Process` (the source's `Processo`).
  Its fields `clock`, `events` and `links` are updated in place by `LocalEvent`,
  `Send` and `Receive`, as in the source. The methods are specified by the pure
  step functions `LocalStep`, `ReceiveStep` and `SendStep` on the value
  `ProcState`. The per-process invariant `WellFormed` says that the logs are
  aligned, that `clock[id]` equals the number of events, that event `e` carries
  `e + 1` in the own component, and that snapshots never decrease.
- `simulation.dfy` (`Simulations`): the system of `n` processes. It defines the
  system invariant `Invariant`, made of three parts:
  - every process is well formed;
  - `OwnerDominates`: no process holds a larger value for component `q` than
    process `q` itself;
  - every logged link points at an existing event of another process that
    has no link of its own, and the send event causally precedes that event.
    Event kinds are not recorded, so the invariant does not tell a receive
    event from a local one.

  Every operation keeps `Invariant`, and logs and clocks only grow over any
  sequence of operations (`Run`). Each process logs exactly one event per
  operation that involves it, so from creation its own component counts those
  operations. The class `Simulation` holds the process
  objects and dispatches `LocalEvent(i)` and `Send(i, j)` to them.

## Model

| member | source | states |
|---|---|---|
| `VectorClocks.Zero` | main.py:39 | the initial clock has width n and is below every clock of width n |
| `VectorClocks.Merge` | main.py:74-75 | the merged clock dominates both inputs and each component comes from one of them |
| `VectorClocks.MergeIsLeastUpperBound` | main.py:74-75 | any clock dominating both inputs dominates the merge, so the merge is their least upper bound |
| `VectorClocks.Tick` | main.py:47 | the ticked clock causally follows the old one |
| `VectorClocks.TickChangesOnlyOwn` | main.py:47 | a tick adds exactly 1 at the owner's index and changes no other component |
| `VectorClocks.TickAt` | main.py:47 | component q after a tick at i is one more than before when q is i, and unchanged otherwise |
| `VectorClocks.MergeTickAt` | main.py:74-76 | component q after a receive is max(own[q], incoming[q]), plus 1 at the receiver's own index |
| `Processes.Initial` | main.py:38-41 | a new process has an all-zero clock of width n and empty event and link logs |
| `Processes.Record` | main.py:48-49 | the new clock becomes current; one snapshot and one link entry are appended; earlier entries are unchanged |
| `Processes.LocalStep` | main.py:43-49 | a local event adds exactly 1 to the own component, changes no other component, and logs the new clock with no link |
| `Processes.ReceiveStep` | main.py:64-78 | the new clock causally follows the old clock and dominates the incoming clock; every component k is max(old[k], incoming[k]), plus 1 at the own index; the new clock is logged with no link |
| `Processes.SendStep` | main.py:51-62 | only the sender's own component is ticked; the send snapshot is logged; the target's new clock causally follows the snapshot; the link (target id, index of the target's new event) sits at the send event's index |
| `Processes.InitialWellFormed` | main.py:38-41 | a freshly created process is well formed: empty aligned logs and a zero own component |
| `Processes.RecordKeepsWellFormed` | main.py:47-49 | logging a clock that dominates the current one, with exactly one more in the own component, keeps the logs aligned and keeps clock[id] equal to the number of events |
| `Processes.LocalStepKeepsWellFormed` | main.py:43-49 | a local event keeps a process well formed |
| `Processes.ReceiveStepKeepsWellFormed` | main.py:74-78 | a receive keeps a process well formed when the incoming own component does not exceed the receiver's |
| `Processes.EventsInLogOrder` | main.py:47-48 | each earlier event of a process causally precedes every later one |
| `Processes.ScenarioTwoProcesses` | main.py:43-79 | n=2: P0 local gives [1,0]; P0 sends to P1, giving P0=[2,0], P1=[2,1] and P0's links [None, (1, 0)] |
| `Processes.ScenarioThreeProcesses` | main.py:43-79 | n=3: P1 local, P2 local, then P1 sends to P2, giving P1=[0,2,0] and P2=[0,2,2] |
| `Processes.Process.constructor` | main.py:30-41 | the process gets its id, a zero clock of width n and empty logs |
| `Processes.Process.LocalEvent` | main.py:43-49 | the new state is LocalStep of the old state |
| `Processes.Process.Receive` | main.py:64-79 | the new state is ReceiveStep of the old state; the result is the index of the event just logged, and that event equals the current clock |
| `Processes.Process.Send` | main.py:51-62 | the new states of sender and target are SendStep of their old states |
| `Simulations.InitialSystem` | main.py:137-139 | n processes, all with zero clocks of width n and empty logs |
| `Simulations.InitialSystemInvariant` | main.py:137-139 | the system invariant holds for a freshly created simulation |
| `Simulations.LocalAt` | main.py:187-195 | only process i changes, by LocalStep |
| `Simulations.SendAt` | main.py:197-206 | only processes i and j change, by SendStep |
| `Simulations.LinksSurvive` | main.py:59-62 | links already logged stay valid and causal while the logs only grow |
| `Simulations.SendAtLinksCausal` | main.py:58-62 | after a send every logged link is causal, the new one included: the event it points at (the target's newest event) has no link of its own, and the send event causally precedes it |
| `Simulations.LocalAtShaped` | main.py:194 | a local event dispatched by id keeps every process well formed |
| `Simulations.LocalAtOwnerDominates` | main.py:47 | after a local event no process holds more for component q than process q |
| `Simulations.LocalAtGrows` | main.py:194 | a local event changes no logged entry and decreases no clock |
| `Simulations.LocalAtLinksCausal` | main.py:194 | a local event logs no link, and the links already logged stay causal |
| `Simulations.SendAtShaped` | main.py:205 | a send keeps every process well formed, because the receiver's own component is never below the sender's view of it |
| `Simulations.SendAtOwnerDominates` | main.py:58-76 | after a send no process holds more for component q than process q, because the sender's own component is the largest anywhere and the receiver's own component was already at least the sender's view of it |
| `Simulations.SendAtGrows` | main.py:205 | a send changes no logged entry and decreases no clock |
| `Simulations.LocalAtKeepsInvariant` | main.py:194 | a local event dispatched by id keeps the system invariant; no logged entry changes and no clock decreases |
| `Simulations.SendAtKeepsInvariant` | main.py:205 | a send dispatched by id pair keeps the system invariant; no logged entry changes and no clock decreases |
| `Simulations.Apply` | main.py:187-206 | one operation dispatched by id appends exactly one event and one link entry to each process it involves and logs nothing anywhere else; clock widths are kept |
| `Simulations.Run` | main.py:187-206 | a sequence of allowed operations keeps the number of processes and every clock's width |
| `Simulations.ApplyKeepsInvariant` | main.py:187-206 | one allowed operation keeps the system invariant; logs only grow and no clock decreases |
| `Simulations.RunKeepsInvariant` | main.py:187-206 | any sequence of allowed operations keeps the system invariant |
| `Simulations.RunGrows` | main.py:187-206 | over any sequence of operations, logged events and links are never changed or removed and every clock is non-decreasing |
| `Simulations.RunCountsEvents` | main.py:43-79 | each process logs exactly as many events and link entries as there are operations involving it |
| `Simulations.ReachableInvariant` | main.py:137-206 | every state reachable from creation by allowed operations satisfies the system invariant |
| `Simulations.OwnComponentCountsEvents` | main.py:43-79 | after any sequence of operations from the start, clock[i] of process i equals its number of events and links, which is the number of operations involving i, and no process holds more for component i |
| `Simulations.Simulation.constructor` | main.py:137-139 | process k gets id k; all states are initial; the system invariant holds |
| `Simulations.Simulation.LocalEvent` | main.py:194 | the system state becomes LocalAt(old state, i), and the invariant is kept |
| `Simulations.Simulation.Send` | main.py:205 | the system state becomes SendAt(old state, i, j), and the invariant is kept |

## Left out

- The GUI is left out because it is rendering, not logic. This covers the `App` widgets, the process-count combobox, the buttons, the scroll bars, `encerrar_simulacao` and `atualizar_labels` (main.py:103-185, 208-230).
- `atualizar_grafico` (main.py:232-261) is left out because it is matplotlib rendering with floating-point text offsets. It only reads the event and link logs.
- Start-up of the GUI event loop (main.py:264-268) is left out.
- Query operations are not separate members. The source reads `relogio`, `historico_eventos` and `historico_mensagens` directly; here they are the public fields of `Process`.
- Self-send is excluded by precondition (`target != this`, `i != j`). The source does not guard it, but its UI only offers pairs with `i != j` (main.py:224-225). On a self-send the source would log two events, and the link would land at the receive event's index instead of the send event's.
- Out-of-range ids and clock vectors of the wrong width are excluded by precondition. The source has no check for either. Python would raise an error or index from the end for bad ids, and `zip` would silently truncate a clock of the wrong width.
- Error reporting for a bad id, a self-send or a clock-width mismatch is not modelled, because the code has no such checks.
- Process count: the UI offers 1 to 5. The model accepts any `n`, including 0, as the code's list comprehension does.
- Python integers are unbounded, so `nat` needs no wrap-around.
