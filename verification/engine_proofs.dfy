/**
 * Properties of the triage engine: the invariant is kept by every
 * operation, serve and undo are inverse, undo is last-in-first-out, and
 * peek, serve and the sorted listing follow one order.
 */
module EngineProofs {
  import opened Wrappers
  import opened Patients
  import opened Ordering
  import opened Engine

  /** Two states that differ at most in the arrangement of the queue. */
  ghost predicate SameState(a: Triage, b: Triage) {
    multiset(a.queue) == multiset(b.queue) && a.(queue := b.queue) == b
  }

  // ---------------------------------------------------------------- counting

  lemma {:induction false} CountAppend(a: seq<Patient>, b: seq<Patient>, c: int)
    ensures Count(a + b, c) == Count(a, c) + Count(b, c)
    decreases |b|
  {
    if b != [] {
      assert (a + b)[..|a + b| - 1] == a + b[..|b| - 1];
      CountAppend(a, b[..|b| - 1], c);
    } else {
      assert a + b == a;
    }
  }

  /** Taking one patient out lowers exactly the tally of its priority, by one. */
  lemma CountRemoveAt(s: seq<Patient>, k: nat, c: int)
    requires k < |s|
    ensures Count(s, c) == Count(RemoveAt(s, k), c) + (if s[k].priority == c then 1 else 0)
  {
    assert s == s[..k] + [s[k]] + s[k + 1..];
    CountAppend(s[..k] + [s[k]], s[k + 1..], c);
    CountAppend(s[..k], [s[k]], c);
    CountAppend(s[..k], s[k + 1..], c);
    assert [s[k]][..0] == [];
  }

  /** Appending one patient raises exactly the tally of its priority, by one. */
  lemma CountAppendOne(s: seq<Patient>, p: Patient, c: int)
    ensures Count(s + [p], c) == Count(s, c) + (if p.priority == c then 1 else 0)
  {
    assert (s + [p])[..|s|] == s;
  }

  /** When every priority is valid, the three tallies add up to the length. */
  lemma {:induction false} CountsCoverAll(s: seq<Patient>)
    requires forall p :: p in s ==> ValidPriority(p.priority)
    ensures Count(s, 1) + Count(s, 2) + Count(s, 3) == |s|
    decreases |s|
  {
    if s != [] {
      var front := s[..|s| - 1];
      assert forall p :: p in front ==> p in s;
      CountsCoverAll(front);
    }
  }

  // ------------------------------------------------------ invariant preservation

  /** The counters never go negative and add up to the number of waiting patients. */
  lemma CountersMatchQueue(t: Triage)
    requires Valid(t)
    ensures forall c :: Counter(t, c) >= 0
    ensures forall c :: ValidPriority(c) ==> Counter(t, c) == Count(t.queue, c)
    ensures TotalWaiting(t) == |t.queue|
  {
    forall p | p in t.queue ensures ValidPriority(p.priority) {
      assert p in Tracked(t);
    }
    CountsCoverAll(t.queue);
  }

  /** Serve and undo only move patients between the queue and the undo stack. */
  lemma ServeKeepsTracked(t: Triage)
    ensures Tracked(Serve(t).0) == Tracked(t)
  {
    if t.queue != [] {
      var k := MinIndex(t.queue);
      var t' := Serve(t).0;
      assert t'.queue == RemoveAt(t.queue, k) && t'.history == t.history + [t.queue[k]];
      assert multiset(t'.queue + t'.history) == multiset(t'.queue) + multiset(t.history) + multiset{t.queue[k]};
    }
  }

  lemma UndoKeepsTracked(t: Triage)
    requires t.history != [] ==> t.served != []
    ensures Tracked(Undo(t).0) == Tracked(t)
  {
    if t.history != [] {
      var t' := Undo(t).0;
      var p := t.history[|t.history| - 1];
      assert t.history == t'.history + [p];
      assert multiset(t'.queue + t'.history) == multiset(t.queue) + multiset{p} + multiset(t'.history);
    }
  }

  lemma ServeKeepsCountersAgree(t: Triage)
    requires CountersAgree(t)
    ensures CountersAgree(Serve(t).0)
  {
    if t.queue != [] {
      var k := MinIndex(t.queue);
      var t' := Serve(t).0;
      assert t'.queue == RemoveAt(t.queue, k);
      CountRemoveAt(t.queue, k, 1);
      CountRemoveAt(t.queue, k, 2);
      CountRemoveAt(t.queue, k, 3);
      assert Counter(t', 1) == t'.red && Counter(t', 2) == t'.yellow && Counter(t', 3) == t'.green;
      assert Counter(t, 1) == t.red && Counter(t, 2) == t.yellow && Counter(t, 3) == t.green;
    }
  }

  lemma UndoKeepsCountersAgree(t: Triage)
    requires CountersAgree(t) && (t.history != [] ==> t.served != [])
    ensures CountersAgree(Undo(t).0)
  {
    if t.history != [] {
      var p := t.history[|t.history| - 1];
      var t' := Undo(t).0;
      CountAppendOne(t.queue, p, 1);
      CountAppendOne(t.queue, p, 2);
      CountAppendOne(t.queue, p, 3);
      assert Counter(t', 1) == t'.red && Counter(t', 2) == t'.yellow && Counter(t', 3) == t'.green;
      assert Counter(t, 1) == t.red && Counter(t, 2) == t.yellow && Counter(t, 3) == t.green;
    }
  }

  lemma RegisterKeepsCountersAgree(t: Triage, name: Option<string>, priority: int, symptoms: Option<string>)
    requires CountersAgree(t)
    ensures CountersAgree(Register(t, name, priority, symptoms).0)
  {
    var (t', r) := Register(t, name, priority, symptoms);
    if r.Success? {
      CountAppendOne(t.queue, r.value, 1);
      CountAppendOne(t.queue, r.value, 2);
      CountAppendOne(t.queue, r.value, 3);
      assert Counter(t', 1) == t'.red && Counter(t', 2) == t'.yellow && Counter(t', 3) == t'.green;
      assert Counter(t, 1) == t.red && Counter(t, 2) == t.yellow && Counter(t, 3) == t.green;
    }
  }

  lemma RegisterKeepsHeldWellFormed(t: Triage, name: Option<string>, priority: int, symptoms: Option<string>)
    requires 1 <= t.nextId && HeldWellFormed(Tracked(t), t.nextId)
    ensures HeldWellFormed(Tracked(Register(t, name, priority, symptoms).0), Register(t, name, priority, symptoms).0.nextId)
  {
    var (t', r) := Register(t, name, priority, symptoms);
    if r.Success? {
      var p := r.value;
      assert ValidPriority(p.priority) && p.arrival == p.id == t.nextId;
      assert multiset(t'.queue + t'.history) == multiset(t.queue) + multiset{p} + multiset(t.history);
      forall x | x in Tracked(t') ensures ValidPriority(x.priority) && x.arrival == x.id && 1 <= x.id < t'.nextId {
        if x != p {
          assert x in Tracked(t);
        }
      }
    }
  }

  /** A registered patient arrives after everyone held, so arrivals stay distinct. */
  lemma RegisterKeepsDistinctArrivals(t: Triage, name: Option<string>, priority: int, symptoms: Option<string>)
    requires HeldWellFormed(Tracked(t), t.nextId) && DistinctArrivals(t.queue + t.history)
    ensures DistinctArrivals(Register(t, name, priority, symptoms).0.queue + Register(t, name, priority, symptoms).0.history)
  {
    var (t', r) := Register(t, name, priority, symptoms);
    if r.Success? {
      var p := r.value;
      var all := t.queue + t.history;
      var grown := all + [p];
      forall i, j | 0 <= i < j < |grown| ensures grown[i].arrival != grown[j].arrival {
        if j == |all| {
          assert grown[i] == all[i] && all[i] in Tracked(t);
        } else {
          assert grown[i] == all[i] && grown[j] == all[j];
        }
      }
      assert multiset(grown) == multiset(t'.queue + t'.history);
      DistinctArrivalsPermutation(grown, t'.queue + t'.history);
    }
  }

  lemma RegisterPreservesValid(t: Triage, name: Option<string>, priority: int, symptoms: Option<string>)
    requires Valid(t)
    ensures Valid(Register(t, name, priority, symptoms).0)
  {
    RegisterKeepsHeldWellFormed(t, name, priority, symptoms);
    RegisterKeepsDistinctArrivals(t, name, priority, symptoms);
    RegisterKeepsCountersAgree(t, name, priority, symptoms);
  }

  lemma ServePreservesValid(t: Triage)
    requires Valid(t)
    ensures Valid(Serve(t).0)
  {
    ServeKeepsTracked(t);
    var t' := Serve(t).0;
    DistinctArrivalsPermutation(t.queue + t.history, t'.queue + t'.history);
    ServeKeepsCountersAgree(t);
  }

  lemma UndoPreservesValid(t: Triage)
    requires Valid(t)
    ensures Valid(Undo(t).0)
  {
    UndoKeepsTracked(t);
    var t' := Undo(t).0;
    DistinctArrivalsPermutation(t.queue + t.history, t'.queue + t'.history);
    UndoKeepsCountersAgree(t);
  }

  // ------------------------------------------------------------ serve and undo

  /** Serving a patient and undoing it at once restores queue contents, counters, stack, list and ids. */
  lemma UndoAfterServe(t: Triage)
    requires t.queue != []
    ensures Serve(t).0.history != []
    ensures Undo(Serve(t).0).1 == Serve(t).1
    ensures SameState(Undo(Serve(t).0).0, t)
  {
    var (s, r) := Serve(t);
    var p := r.value;
    assert s.history[..|s.history| - 1] == t.history;
    assert s.served[..|s.served| - 1] == t.served;
    var (u, r') := Undo(s);
    assert multiset(u.queue) == multiset(s.queue) + multiset{p};
    assert p in multiset(t.queue);
    assert multiset(u.queue) == multiset(t.queue);
    assert Counter(u, 1) == Counter(t, 1) && Counter(u, 2) == Counter(t, 2) && Counter(u, 3) == Counter(t, 3);
  }

  /** Undo looks at the queue only through its contents. */
  lemma UndoRespectsSameState(a: Triage, b: Triage)
    requires SameState(a, b) && a.history == a.served
    ensures Undo(a).1 == Undo(b).1
    ensures SameState(Undo(a).0, Undo(b).0)
  {
  }

  /** `n` consecutive serves. */
  function ServeN(t: Triage, n: nat): Triage
    decreases n
  {
    if n == 0 then t else ServeN(Serve(t).0, n - 1)
  }

  /** `n` consecutive undos. */
  function UndoN(t: Triage, n: nat): (r: Triage)
    requires t.history == t.served
    ensures r.history == r.served
    decreases n
  {
    if n == 0 then t else UndoN(Undo(t).0, n - 1)
  }

  lemma SameStateTransitive(a: Triage, b: Triage, c: Triage)
    requires SameState(a, b) && SameState(b, c)
    ensures SameState(a, c)
  {
  }

  /** The last `n` entries of a stack in the order `pop` returns them: newest first. */
  function PopOrder(h: seq<Patient>, n: nat): (r: seq<Patient>)
    requires n <= |h|
    ensures |r| == n
    decreases n
  {
    if n == 0 then [] else [h[|h| - 1]] + PopOrder(h[..|h| - 1], n - 1)
  }

  lemma {:induction false} PopOrderContents(h: seq<Patient>, n: nat)
    requires n <= |h|
    ensures multiset(PopOrder(h, n)) == multiset(h[|h| - n..])
    decreases n
  {
    if n > 0 {
      var h' := h[..|h| - 1];
      PopOrderContents(h', n - 1);
      assert h[|h| - n..] == h'[|h'| - (n - 1)..] + [h[|h| - 1]];
    }
  }

  /**
   * Concatenation is associative. A plain sequence law, stated once so that
   * callers do not pay for the extensional equality in a large context.
   */
  lemma AppendAssociates(a: seq<Patient>, b: seq<Patient>, c: seq<Patient>)
    ensures a + b + c == a + (b + c)
  {
  }

  /**
   * `n` serves poll the first `n` patients of the `poll` order: they leave
   * the queue, are pushed on the stack and appended to the served list in
   * that order, and their counters go down by one each.
   */
  lemma {:induction false} ServeNExact(t: Triage, n: nat)
    requires n <= |t.queue|
    ensures ServeN(t, n).queue == RestN(t.queue, n)
    ensures ServeN(t, n).history == t.history + PollN(t.queue, n)
    ensures ServeN(t, n).served == t.served + PollN(t.queue, n)
    ensures ServeN(t, n).nextId == t.nextId
    ensures forall c :: ValidPriority(c) ==> Counter(ServeN(t, n), c) == Counter(t, c) - Count(PollN(t.queue, n), c)
    decreases n
  {
    if n > 0 {
      var k := MinIndex(t.queue);
      var p := t.queue[k];
      var t1 := Serve(t).0;
      assert t1.queue == RemoveAt(t.queue, k) && t1.history == t.history + [p] && t1.served == t.served + [p];
      ServeNExact(t1, n - 1);
      assert ServeN(t, n) == ServeN(t1, n - 1);
      var rest := PollN(t1.queue, n - 1);
      assert PollN(t.queue, n) == [p] + rest;
      AppendAssociates(t.history, [p], rest);
      AppendAssociates(t.served, [p], rest);
      forall c | ValidPriority(c)
        ensures Counter(ServeN(t, n), c) == Counter(t, c) - Count(PollN(t.queue, n), c)
      {
        CountAppend([p], rest, c);
        CountAppendOne([], p, c);
        assert [] + [p] == [p];
      }
    }
  }

  /**
   * `n` undos pop the last `n` served patients and put them back on the
   * queue newest first.
   */
  lemma {:induction false} UndoNExact(s: Triage, n: nat)
    requires s.history == s.served && n <= |s.history|
    ensures UndoN(s, n).queue == s.queue + PopOrder(s.history, n)
    ensures UndoN(s, n).history == s.history[..|s.history| - n]
    ensures UndoN(s, n).nextId == s.nextId
    decreases n
  {
    if n > 0 {
      var h := s.history;
      var p := h[|h| - 1];
      var h' := h[..|h| - 1];
      var u1 := Undo(s).0;
      assert u1.queue == s.queue + [p] && u1.history == h';
      UndoNExact(u1, n - 1);
      assert UndoN(s, n) == UndoN(u1, n - 1);
      assert PopOrder(h, n) == [p] + PopOrder(h', n - 1);
      AppendAssociates(s.queue, [p], PopOrder(h', n - 1));
      assert h'[..|h'| - (n - 1)] == h[..|h| - n];
    }
  }

  /** Each of the `n` undos raises the counter of the patient it puts back. */
  lemma {:induction false} UndoNCounters(s: Triage, n: nat)
    requires s.history == s.served && n <= |s.history|
    ensures forall c :: ValidPriority(c) ==> Counter(UndoN(s, n), c) == Counter(s, c) + Count(s.history[|s.history| - n..], c)
    decreases n
  {
    if n > 0 {
      var h := s.history;
      var p := h[|h| - 1];
      var h' := h[..|h| - 1];
      var u1 := Undo(s).0;
      assert u1.history == h';
      UndoNCounters(u1, n - 1);
      assert UndoN(s, n) == UndoN(u1, n - 1);
      var back := h'[|h'| - (n - 1)..];
      assert h[|h| - n..] == back + [p];
      forall c | ValidPriority(c)
        ensures Counter(UndoN(s, n), c) == Counter(s, c) + Count(h[|h| - n..], c)
      {
        CountAppendOne(back, p, c);
      }
    }
  }

  /** `s` is what serving `polled`, in that order, made of `t` (queue layout aside). */
  ghost predicate PolledFrom(t: Triage, s: Triage, polled: seq<Patient>) {
    && s.history == t.history + polled
    && s.served == t.served + polled
    && s.nextId == t.nextId
    && multiset(s.queue) + multiset(polled) == multiset(t.queue)
    && forall c :: ValidPriority(c) ==> Counter(s, c) == Counter(t, c) - Count(polled, c)
  }

  lemma UndoNRestoresRecords(t: Triage, s: Triage, polled: seq<Patient>)
    requires t.history == t.served && PolledFrom(t, s, polled)
    ensures UndoN(s, |polled|).(queue := t.queue) == t
  {
    var n := |polled|;
    var u := UndoN(s, n);
    assert s.history[|s.history| - n..] == polled && s.history[..|s.history| - n] == t.history;
    UndoNExact(s, n);
    UndoNCounters(s, n);
    assert Counter(u, 1) == Counter(t, 1) && Counter(u, 2) == Counter(t, 2) && Counter(u, 3) == Counter(t, 3);
  }

  lemma UndoNRestoresContents(t: Triage, s: Triage, polled: seq<Patient>)
    requires t.history == t.served && PolledFrom(t, s, polled)
    ensures multiset(UndoN(s, |polled|).queue) == multiset(t.queue)
  {
    var n := |polled|;
    assert s.history[|s.history| - n..] == polled;
    UndoNExact(s, n);
    PopOrderContents(s.history, n);
  }

  /**
   * Undo is last-in-first-out over any depth: `n` serves followed by `n`
   * undos bring back the starting state up to the queue's arrangement.
   */
  lemma UndoNAfterServeN(t: Triage, n: nat)
    requires t.history == t.served && n <= |t.queue|
    ensures ServeN(t, n).history == ServeN(t, n).served
    ensures SameState(UndoN(ServeN(t, n), n), t)
  {
    ServeNExact(t, n);
    PollNSplitsQueue(t.queue, n);
    assert PolledFrom(t, ServeN(t, n), PollN(t.queue, n));
    UndoNRestoresRecords(t, ServeN(t, n), PollN(t.queue, n));
    UndoNRestoresContents(t, ServeN(t, n), PollN(t.queue, n));
  }

  // ------------------------------------------------------------- the one order

  lemma ValidQueueDistinct(t: Triage)
    requires Valid(t)
    ensures DistinctArrivals(t.queue)
  {
    var all := t.queue + t.history;
    forall i, j | 0 <= i < j < |t.queue| ensures t.queue[i].arrival != t.queue[j].arrival {
      assert all[i] == t.queue[i] && all[j] == t.queue[j];
    }
  }

  /** `atender` takes exactly the patient `verSiguiente` shows. */
  lemma ServeTakesPeek(t: Triage)
    ensures Serve(t).1 == Peek(t)
  {
  }

  /** The sorted listing starts with the patient `peek` shows and `atender` takes. */
  lemma SnapshotHeadIsPeek(t: Triage)
    requires Valid(t) && t.queue != []
    ensures Snapshot(t) != [] && Peek(t) == Some(Snapshot(t)[0])
  {
    ValidQueueDistinct(t);
    SortedHeadIsMin(t.queue);
  }

  /** After one serve, the listing is the old listing without its head. */
  lemma SnapshotAfterServe(t: Triage)
    requires Valid(t) && t.queue != []
    ensures Snapshot(Serve(t).0) == Snapshot(t)[1..]
  {
    ValidQueueDistinct(t);
    SortedAfterRemovingMin(t.queue);
    assert Serve(t).0.queue == RemoveAt(t.queue, MinIndex(t.queue));
  }

  /** Serving until the queue is empty appends exactly the sorted listing to the served list. */
  lemma DrainFollowsSnapshot(t: Triage)
    requires Valid(t)
    ensures ServeN(t, |t.queue|).queue == []
    ensures ServeN(t, |t.queue|).served == t.served + Snapshot(t)
  {
    ServeNExact(t, |t.queue|);
    ValidQueueDistinct(t);
    PollOrderIsSorted(t.queue);
  }

  /**
   * The heap's internal arrangement is unobservable: two states holding
   * the same patients show the same next patient and serve it alike.
   */
  lemma ServeIgnoresLayout(a: Triage, b: Triage)
    requires Valid(a) && SameState(a, b)
    ensures Peek(a) == Peek(b)
    ensures Serve(a).1 == Serve(b).1
    ensures SameState(Serve(a).0, Serve(b).0)
  {
    assert Peek(a) == Peek(b) by {
      if a.queue != [] {
        ValidQueueDistinct(a);
        MinIgnoresArrangement(a.queue, b.queue);
      } else {
        assert |b.queue| == |multiset(b.queue)| == 0;
      }
    }
    var (a', r) := Serve(a);
    var (b', r') := Serve(b);
    if r.Some? {
      MultisetCancel(multiset(a'.queue), multiset(b'.queue), r.value);
      assert Counter(a', 1) == Counter(b', 1) && Counter(a', 2) == Counter(b', 2) && Counter(a', 3) == Counter(b', 3);
      assert a'.(queue := b'.queue) == b';
    }
  }

  /** A new engine has nobody to show, serve or put back. */
  lemma FreshEngineIsIdle()
    ensures Peek(Init()) == None
    ensures Serve(Init()) == (Init(), None)
    ensures Undo(Init()) == (Init(), None)
  {
  }

  /**
   * Undo reaches past the latest serve: after two serves, two undos hand
   * back the second and then the first patient and restore the state.
   */
  lemma TwoUndosReverseTwoServes(t: Triage)
    requires t.history == t.served && |t.queue| >= 2
    ensures
      var (t1, first) := Serve(t);
      var (t2, second) := Serve(t1);
      var (t3, undone1) := Undo(t2);
      var (t4, undone2) := Undo(t3);
      && first.Some? && second.Some?
      && undone1 == second && undone2 == first
      && SameState(t4, t)
  {
    var (t1, first) := Serve(t);
    var (t2, second) := Serve(t1);
    var (t3, undone1) := Undo(t2);
    assert SameState(t3, t1) by {
      UndoAfterServe(t1);
    }
    UndoRespectsSameState(t3, t1);
    UndoAfterServe(t);
    SameStateTransitive(Undo(t3).0, Undo(t1).0, t);
  }

  /**
   * A patient put back by undo keeps its arrival key, so in the listing it
   * comes ahead of every waiting patient of its priority who arrived later.
   */
  lemma ReinsertedKeepsArrivalOrder(t: Triage, q: Patient)
    requires Valid(t) && t.history != []
    requires q in Undo(t).0.queue
    requires q.priority == Undo(t).1.value.priority && Undo(t).1.value.arrival < q.arrival
    ensures Undo(t).1.value in Snapshot(Undo(t).0)
    ensures forall i, j ::
              (0 <= i < |Snapshot(Undo(t).0)| && 0 <= j < |Snapshot(Undo(t).0)| &&
               Snapshot(Undo(t).0)[i] == Undo(t).1.value && Snapshot(Undo(t).0)[j] == q) ==> i < j
  {
    var (u, r) := Undo(t);
    var p := r.value;
    var s := Snapshot(u);
    assert p in multiset(s);
    forall i, j | 0 <= i < |s| && 0 <= j < |s| && s[i] == p && s[j] == q ensures i < j {
      if j < i {
        assert false;
      }
    }
  }
}
