# Emergency triage engine

A Dafny model of the triage core of a small emergency-room program. The core is
the `Paciente` record and the `SistemaTriageUrgencias` engine in
`src/main/java/com/tarea/Main.java`.

A patient has an id, a name, a priority (1 red, 2 yellow, 3 green), an arrival
time and symptoms. Construction is validated, and ids come from a sequence
counter.

The engine state is modelled as the immutable record `Engine.Triage`:

- the waiting queue, served by priority and then by arrival;
- the undo stack of attended patients;
- the served list;
- three per-priority counters;
- the next id.

The engine's operations are pure functions from state to state:

- register (`registrarPaciente`);
- peek (`verSiguiente`);
- serve (`atender`);
- undo (`deshacerUltimaAtencion`);
- the sorted listing that `generarReporte` and `listarPacientesEnEspera` build from a copy of the queue.

Modules:

- `Wrappers` (`wrappers.dfy`): `Option` and `Result`. `null` arguments are `None`.
- `Patients` (`patient.dfy`):
  - the patient record;
  - Java's `String.trim` (it strips every character up to U+0020 from both ends);
  - validated construction;
  - the priority label.
- `Ordering` (`ordering.dfy`):
  - the two-key comparator;
  - the "first minimum" that `peek` and `poll` select;
  - removal and insertion;
  - the sorted copy;
  - the order in which repeated polls hand patients out.
- `Engine` (`engine.dfy`): the state, the invariant `Valid`, and the operations.
- `EngineProofs` (`engine_proofs.dfy`):
  - the invariant is kept by every operation;
  - serve and undo are inverses, at any depth of the undo stack;
  - peek, serve and the listing agree on one order.
- `Scenario` (`scenario.dfy`): a worked trace with three patients, whose listing and counters are proved.

The queue is a sequence whose order stands for the heap's internal layout.
Some contracts fix an abstract arrangement: an `offer` appends at the end,
and `EngineProofs.ServeNExact` and `EngineProofs.UndoNExact` state the queue
as an exact sequence. Only two kinds of claim are meant to match a real
`PriorityQueue`: facts about the queue's multiset of patients, and the choice
of a minimal patient by `peek` and `poll`. `EngineProofs.ServeIgnoresLayout`
shows that when arrivals are distinct, the arrangement cannot change that choice.

Arrival time is a logical clock equal to the patient's id. Arrivals therefore
increase strictly in registration order, so no two patients tie under the
comparator. Wall time in the source need not behave this way (see "## Left out").

Behaviour of the code that the model keeps:

- **Undo depth.** Undo pops a `Stack<Paciente>` (Main.java:80, 202), so
  consecutive undos reverse earlier serves in LIFO order.
- **Failed constructions.** Validation runs before `contadorId++`
  (Main.java:20-27), so a failed construction does not consume an id.
- **Labels.** The labels are the code's strings (Main.java:56-60):
  "ROJO (Emergencia)", "AMARILLO (Urgente)", "VERDE (No urgente)", and
  "Desconocido" for any other priority.
- **Check order.** The priority is checked before the name (Main.java:20-25).
  When both are invalid, the error is the priority error.
- **Stored name.** The name is checked after `trim`, but the untrimmed name is stored (Main.java:23, 28).

## Model

| member | source | states |
|---|---|---|
| Patients.Trim | src/main/java/com/tarea/Main.java:23 | The trimmed name is the input minus a blank prefix and a blank suffix, where blank means at most U+0020. It is empty exactly when the whole input is blank. Otherwise its first and last characters are above U+0020, so nothing more could be trimmed. |
| Patients.Create | src/main/java/com/tarea/Main.java:19-32 | A priority outside 1..3 fails with the priority error, and priority is checked first. A valid priority with a missing or blank name fails with the name error. Otherwise the patient keeps the untrimmed name and takes id and arrival from the sequence. The sequence advances by exactly one, and only on success. Missing symptoms become "No especificado". |
| Patients.Label | src/main/java/com/tarea/Main.java:54-61 | The label is "Desconocido" exactly when the priority is outside 1..3. `Patients.LabelDistinguishesPriorities` adds that the three valid priorities get different labels. |
| Patients.LabelDistinguishesPriorities | src/main/java/com/tarea/Main.java:54-61 | A label is "Desconocido" exactly when the priority is outside 1..3. The three valid priorities get pairwise different labels. |
| Ordering.Compare | src/main/java/com/tarea/Main.java:93-100 | The comparator's sign is the lexicographic order on (priority, arrival). It is negative exactly when the first patient has the lower priority number, or the same priority and an earlier arrival. It is zero exactly when both keys are equal. |
| Ordering.CompareIsTotalPreorder | src/main/java/com/tarea/Main.java:93-100 | The comparator is antisymmetric in sign, total and transitive. It returns 0 exactly when priority and arrival are both equal. |
| Ordering.RemoveAt | src/main/java/com/tarea/Main.java:152 | The result is one element shorter. Its multiset is the input's multiset minus the removed patient. |
| Ordering.MinIndex | src/main/java/com/tarea/Main.java:137 | The selected position holds a patient that precedes every patient in the queue under the comparator. |
| Ordering.SortByTriage | src/main/java/com/tarea/Main.java:246-251 | The sorted copy is a permutation of the queue, ordered by the comparator. |
| Ordering.SortedUnique | src/main/java/com/tarea/Main.java:248-251 | When arrivals are distinct, two sorted permutations of the same patients are equal. The listing is therefore fully determined. |
| Ordering.PollNSplitsQueue | src/main/java/com/tarea/Main.java:152 | After `n` polls, the polled patients and the remaining queue together are exactly the original queue. |
| Ordering.PollOrderIsSorted | src/main/java/com/tarea/Main.java:276-280 | When arrivals are distinct, polling the whole queue yields exactly the sorted listing. |
| Ordering.MinIgnoresArrangement | src/main/java/com/tarea/Main.java:102 | When arrivals are distinct, two arrangements of the same patients give the same minimum. The heap layout cannot change who is next. |
| Engine.Bump | src/main/java/com/tarea/Main.java:119-123 | Only the counter of a valid priority moves, and it moves by delta. The queue, the stack, the served list and the id sequence are untouched. Any other priority changes nothing. The same switch appears at lines 161-165 and 207-211. |
| Engine.Init | src/main/java/com/tarea/Main.java:90-108 | A new engine satisfies the invariant, has no patients anywhere, and all counters are zero. The id sequence starts at 1, as `contadorId` does (line 11). |
| Engine.Register | src/main/java/com/tarea/Main.java:113-130 | Registration fails exactly when the priority is invalid or the name is missing or blank. On failure the state, including the id sequence, is unchanged. On success the new patient keeps the given name and gets the next id as its id and arrival. Its symptoms are the given text, or "No especificado" when none is given. It is appended to the queue. The stack and the served list are unchanged, and only the counter of its priority rises by one. |
| Engine.Peek | src/main/java/com/tarea/Main.java:136-146 | Peek returns nothing exactly when the queue is empty. Otherwise it returns a queued patient that precedes every queued patient. |
| Engine.Serve | src/main/java/com/tarea/Main.java:151-174 | On an empty queue, serve changes nothing and returns nothing. Otherwise it removes one minimal patient from the queue's multiset and pushes it on the stack. It also appends it to the served list and lowers only its priority's counter. The id sequence is unchanged. |
| Engine.Undo | src/main/java/com/tarea/Main.java:195-216 | On an empty stack, undo changes nothing. Otherwise it pops the top patient and offers it to the queue with its original arrival. It drops the last served entry and raises only that patient's counter. |
| Engine.Snapshot | src/main/java/com/tarea/Main.java:276-280 | The listing is a permutation of the queue, sorted by the triage order. |
| Engine.TotalWaiting | src/main/java/com/tarea/Main.java:187 | When the counters agree with the queue, the total is the number of queued patients of priorities 1, 2 and 3. `EngineProofs.CountersMatchQueue` shows that under the invariant this is the queue's length. |
| EngineProofs.CountersMatchQueue | src/main/java/com/tarea/Main.java:183-187 | Under the invariant, each counter equals the number of queued patients of its priority. No counter is negative, and their sum is the queue length. |
| EngineProofs.RegisterPreservesValid | src/main/java/com/tarea/Main.java:113-130 | Registering keeps the invariant: counters agree, the stack and the served list are in lockstep, ids are well formed, and arrivals are distinct. |
| EngineProofs.ServePreservesValid | src/main/java/com/tarea/Main.java:151-174 | Serving keeps the invariant. |
| EngineProofs.UndoPreservesValid | src/main/java/com/tarea/Main.java:195-216 | Undoing keeps the invariant. |
| EngineProofs.UndoAfterServe | src/main/java/com/tarea/Main.java:202-211 | Serve then undo returns the served patient. It restores the queue's multiset, the counters, the stack, the served list and the id sequence. |
| EngineProofs.ServeNExact | src/main/java/com/tarea/Main.java:152-169 | `n` serves take the first `n` patients of the poll order. They are pushed on the stack and appended to the served list in that order. The queue keeps the rest. Each counter drops by the number of served patients of its priority. |
| EngineProofs.UndoNExact | src/main/java/com/tarea/Main.java:202-204 | `n` undos pop the last `n` stack entries and offer them back to the queue, newest first. The stack and the served list lose exactly those entries. |
| EngineProofs.UndoNCounters | src/main/java/com/tarea/Main.java:207-211 | `n` undos raise each counter by the number of popped patients of that priority. |
| EngineProofs.UndoNAfterServeN | src/main/java/com/tarea/Main.java:151-216 | At any depth, `n` serves followed by `n` undos restore everything up to the arrangement of the queue. |
| EngineProofs.TwoUndosReverseTwoServes | src/main/java/com/tarea/Main.java:168-204 | After two serves, two undos return the second patient and then the first. They restore the state up to the queue's arrangement. |
| EngineProofs.ServeTakesPeek | src/main/java/com/tarea/Main.java:136-152 | Serve hands out exactly the patient that peek shows. |
| EngineProofs.SnapshotHeadIsPeek | src/main/java/com/tarea/Main.java:265-280 | Under the invariant, the first patient in the listing is the one peek shows. |
| EngineProofs.SnapshotAfterServe | src/main/java/com/tarea/Main.java:151-169 | Under the invariant, after a serve the listing is the old listing without its head. |
| EngineProofs.DrainFollowsSnapshot | src/main/java/com/tarea/Main.java:246-251 | Under the invariant, serving until the queue is empty appends exactly the listing to the served list. |
| EngineProofs.ServeIgnoresLayout | src/main/java/com/tarea/Main.java:77 | Two valid states with the same patients in different queue arrangements show the same next patient. They serve the same patient and end in states that again differ only in arrangement. |
| EngineProofs.FreshEngineIsIdle | src/main/java/com/tarea/Main.java:90-108 | On a new engine, peek shows nobody, and serve and undo return nothing and change nothing. |
| EngineProofs.ReinsertedKeepsArrivalOrder | src/main/java/com/tarea/Main.java:202-203 | A patient put back by undo keeps its arrival key. In the listing it comes before every waiting patient of its priority who arrived later. |
| Scenario.ThreePatients | src/main/java/com/tarea/Main.java:113-216 | Ana (red), Luis (green) and Pedro (yellow) register in that order. The listing is Ana, Pedro, Luis. Serve returns Ana and leaves the counters at 0/1/1. Undo returns Ana, restores the listing and sets the counters back to 1/1/1. |

## Left out

- Console output is not modelled: every `System.out`/`System.err` message, `toString`, and the `HH:mm:ss` formatting. This is presentation only.
- The printing parts of `mostrarContadores` and `generarReporte` are not modelled. The counters and the sorted copy they show are modelled.
- The `Main` class is not modelled: the menu loop, `Scanner` input, the default-priority fallback, `esperarEnter` and the example data. This is interactive shell code.
- `LocalDateTime.now()` (Main.java:31) is replaced by a logical clock equal to the id, so the model's arrival order is registration order. Two behaviours of the source are lost:
  - Wall-clock ties never occur in the model. In the source, tied patients compare as 0 and their order is left to the heap.
  - Local wall time can step back, at a DST fall-back or a clock correction. In the source, a later registration can then carry an earlier `horaLlegada`, and Main.java:99 sorts it ahead of an earlier patient of the same priority. The model never does this.
- The internals of `PriorityQueue`, `Stack` and `ArrayList.sort` are not modelled. The queue is a sequence with first-minimum selection. The sort is a functional insertion sort, and only its result is specified.
- The exception message texts are not modelled. The two `IllegalArgumentException`s become the two `ValidationError` values.
- Patients.Create: `contadorId` is a process-wide static field. Here it is the engine's `nextId` field, starting at 1, so separate engines do not share one sequence.
- Patients.Create: ids and counters are unbounded integers. Java's 32-bit wrap-around after 2^31 - 1 constructions is not modelled.
- Engine.Undo: requires the served list to be non-empty whenever the stack is. Java's `remove(size() - 1)` would throw on such a state, and the lockstep invariant rules that state out.
- The truncated import on line 5 is a source artefact with no behaviour.
