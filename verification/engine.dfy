/**
 * The triage engine (`SistemaTriageUrgencias`) as an immutable state and
 * pure transitions: register, peek, serve (`atender`), undo
 * (`deshacerUltimaAtencion`) and the sorted listing of the waiting room.
 */
module Engine {
  import opened Wrappers
  import opened Patients
  import opened Ordering

  /**
   * `queue` is the priority queue's contents (its order stands for the heap
   * layout and carries no meaning), `history` the undo stack with its top
   * last, `served` the list of attended patients in service order, `red`,
   * `yellow` and `green` the per-priority counters, and `nextId` the
   * patient id sequence.
   */
  datatype Triage = Triage(
    queue: seq<Patient>,
    history: seq<Patient>,
    served: seq<Patient>,
    red: int,
    yellow: int,
    green: int,
    nextId: nat)

  /** Number of patients of the given priority in `s`. */
  function Count(s: seq<Patient>, priority: int): (n: nat)
    ensures n <= |s|
  {
    if s == [] then 0
    else (if s[|s| - 1].priority == priority then 1 else 0) + Count(s[..|s| - 1], priority)
  }

  /** The counter kept for a priority; priorities outside 1..3 have none. */
  function Counter(t: Triage, priority: int): int {
    match priority
    case 1 => t.red
    case 2 => t.yellow
    case 3 => t.green
    case _ => 0
  }

  /** Every patient the engine holds, waiting or on the undo stack. */
  function Tracked(t: Triage): multiset<Patient> {
    multiset(t.queue + t.history)
  }

  /**
   * What holds of every patient the engine holds: a valid priority and an
   * arrival equal to an id already handed out.
   */
  ghost predicate HeldWellFormed(m: multiset<Patient>, nextId: nat) {
    forall p :: p in m ==> ValidPriority(p.priority) && p.arrival == p.id && 1 <= p.id < nextId
  }

  /** Each counter equals its tally of the queue. */
  ghost predicate CountersAgree(t: Triage) {
    && t.red == Count(t.queue, 1)
    && t.yellow == Count(t.queue, 2)
    && t.green == Count(t.queue, 3)
  }

  /**
   * The engine invariant: held patients are well formed and no two share
   * an arrival (hence an id), the undo stack
   * and the served list hold the same patients in the same order, and the
   * counters agree with the queue.
   */
  ghost predicate Valid(t: Triage) {
    && 1 <= t.nextId
    && HeldWellFormed(Tracked(t), t.nextId)
    && DistinctArrivals(t.queue + t.history)
    && t.history == t.served
    && CountersAgree(t)
  }

  /** The constructor: everything empty, counters zero, ids starting at 1 (`contadorId = 1`). */
  function Init(): (t: Triage)
    ensures Valid(t)
    ensures t.nextId == 1
    ensures t.queue == [] && t.history == [] && t.served == []
    ensures forall c :: Counter(t, c) == 0
  {
    Triage([], [], [], 0, 0, 0, 1)
  }

  /** The `switch` on a priority that adds `delta` to its counter; other values change nothing. */
  function Bump(t: Triage, priority: int, delta: int): (r: Triage)
    ensures r.queue == t.queue && r.history == t.history && r.served == t.served && r.nextId == t.nextId
    ensures forall c :: Counter(r, c) == Counter(t, c) + (if c == priority && ValidPriority(c) then delta else 0)
  {
    match priority
    case 1 => t.(red := t.red + delta)
    case 2 => t.(yellow := t.yellow + delta)
    case 3 => t.(green := t.green + delta)
    case _ => t
  }

  /**
   * `registrarPaciente`: build the patient and offer it to the queue. A
   * refused construction leaves the whole state, the id sequence included,
   * as it was and reports why.
   */
  function Register(t: Triage, name: Option<string>, priority: int, symptoms: Option<string>)
    : (r: (Triage, Result<Patient, ValidationError>))
    ensures r.1.Failure? ==> r.0 == t
    ensures r.1.Failure? <==> !ValidPriority(priority) || name.None? || IsBlank(name.value)
    ensures r.1.Failure? ==> (r.1.error == InvalidPriority <==> !ValidPriority(priority))
    ensures r.1.Success? ==>
              var p := r.1.value;
              && p.id == t.nextId && p.arrival == t.nextId && p.priority == priority
              && Some(p.name) == name
              && p.symptoms == (if symptoms.Some? then symptoms.value else DefaultSymptoms)
              && r.0.queue == t.queue + [p]
              && r.0.history == t.history && r.0.served == t.served
              && r.0.nextId == t.nextId + 1
              && forall c :: Counter(r.0, c) == Counter(t, c) + (if c == priority then 1 else 0)
  {
    var created := Create(name, priority, symptoms, t.nextId);
    if created.Failure? then (t, Failure(created.error))
    else
      var p := created.value.0;
      var offered := t.(queue := t.queue + [p], nextId := created.value.1);
      (Bump(offered, priority, 1), Success(p))
  }

  /** `verSiguiente`: the patient `poll` would hand out, without removing it. */
  function Peek(t: Triage): (r: Option<Patient>)
    ensures r.None? <==> t.queue == []
    ensures r.Some? ==> r.value in t.queue
    ensures r.Some? ==> forall q {:trigger Precedes(r.value, q)} :: q in t.queue ==> Precedes(r.value, q)
  {
    if t.queue == [] then None else Some(t.queue[MinIndex(t.queue)])
  }

  /**
   * `atender`: take the first patient in triage order out of the queue,
   * decrement its counter, push it on the undo stack and append it to the
   * served list. An empty queue changes nothing.
   */
  function Serve(t: Triage): (r: (Triage, Option<Patient>))
    ensures r.1.None? <==> t.queue == []
    ensures r.1.None? ==> r.0 == t
    ensures r.1.Some? ==> r.1.value in t.queue
    ensures r.1.Some? ==> forall q {:trigger Precedes(r.1.value, q)} :: q in t.queue ==> Precedes(r.1.value, q)
    ensures r.1.Some? ==>
              var p := r.1.value;
              && multiset(t.queue) == multiset(r.0.queue) + multiset{p}
              && |r.0.queue| == |t.queue| - 1
              && r.0.history == t.history + [p]
              && r.0.served == t.served + [p]
              && r.0.nextId == t.nextId
              && forall c :: Counter(r.0, c) == Counter(t, c) - (if c == p.priority && ValidPriority(c) then 1 else 0)
  {
    if t.queue == [] then (t, None)
    else
      var k := MinIndex(t.queue);
      var p := t.queue[k];
      var polled := Bump(t.(queue := RemoveAt(t.queue, k)), p.priority, -1);
      (polled.(history := polled.history + [p], served := polled.served + [p]), Some(p))
  }

  /**
   * `deshacerUltimaAtencion`: pop the undo stack, offer that patient to the
   * queue again with its original arrival, drop the last served entry and
   * increment its counter. An empty stack changes nothing. The served list
   * must not be empty when the stack is not (it always holds the same
   * patients), or `remove(size() - 1)` would throw.
   */
  function Undo(t: Triage): (r: (Triage, Option<Patient>))
    requires t.history != [] ==> t.served != []
    ensures r.1.None? <==> t.history == []
    ensures r.1.None? ==> r.0 == t
    ensures r.1.Some? ==>
              var p := r.1.value;
              && p == t.history[|t.history| - 1]
              && r.0.queue == t.queue + [p]
              && r.0.history == t.history[..|t.history| - 1]
              && r.0.served == t.served[..|t.served| - 1]
              && r.0.nextId == t.nextId
              && forall c :: Counter(r.0, c) == Counter(t, c) + (if c == p.priority && ValidPriority(c) then 1 else 0)
  {
    if t.history == [] then (t, None)
    else
      var p := t.history[|t.history| - 1];
      var popped := t.(history := t.history[..|t.history| - 1],
                       queue := t.queue + [p],
                       served := t.served[..|t.served| - 1]);
      (Bump(popped, p.priority, 1), Some(p))
  }

  /** The sorted copy listed by `listarPacientesEnEspera` and `generarReporte`. */
  function Snapshot(t: Triage): (r: seq<Patient>)
    ensures multiset(r) == multiset(t.queue)
    ensures Sorted(r)
  {
    SortByTriage(t.queue)
  }

  /**
   * The "total waiting" figure of `mostrarContadores`: the sum of the three
   * counters, which is the number of queued patients with a valid priority
   * whenever the counters agree with the queue (`CountersMatchQueue` goes on
   * to the queue's length).
   */
  function TotalWaiting(t: Triage): (n: int)
    ensures CountersAgree(t) ==> n == Count(t.queue, 1) + Count(t.queue, 2) + Count(t.queue, 3)
  {
    t.red + t.yellow + t.green
  }
}
