/**
 * A worked trace of the engine: three registrations of different
 * priorities, a serve and an undo, whose listing and counters are proved.
 */
module Scenario {
  import opened Wrappers
  import opened Patients
  import opened Ordering
  import opened Engine

  /** The listing reads Ana, Pedro, Luis. */
  ghost predicate ListsAnaPedroLuis(s: seq<Patient>) {
    |s| == 3 && s[0].name == "Ana" && s[1].name == "Pedro" && s[2].name == "Luis"
  }

  /** A three-patient queue whose listing is fixed by the triage order alone. */
  lemma ListingOfThree(q: seq<Patient>, a: Patient, b: Patient, c: Patient)
    requires multiset(q) == multiset{a, b, c}
    requires Compare(a, b) < 0 && Compare(b, c) < 0
    requires a.arrival != b.arrival && b.arrival != c.arrival && a.arrival != c.arrival
    ensures SortByTriage(q) == [a, b, c]
  {
    var s := [a, b, c];
    assert multiset(s) == multiset{a, b, c};
    assert Sorted(s);
    assert DistinctArrivals(s);
    SortedUnique(s, SortByTriage(q));
  }

  /** A well-formed registration without symptoms, spelled out. */
  lemma RegisterWithoutSymptoms(t: Triage, name: string, priority: int, p: Patient)
    requires ValidPriority(priority) && !IsBlank(name)
    requires p == Patient(t.nextId, name, priority, t.nextId, DefaultSymptoms)
    ensures Register(t, Some(name), priority, None)
            == (Bump(t.(queue := t.queue + [p], nextId := t.nextId + 1), priority, 1), Success(p))
  {
  }

  lemma NamesAreNotBlank()
    ensures !IsBlank("Ana") && !IsBlank("Luis") && !IsBlank("Pedro")
  {
    assert !IsTrimmed("Ana"[0]) && !IsTrimmed("Luis"[0]) && !IsTrimmed("Pedro"[0]);
  }

  const ana := Patient(1, "Ana", 1, 1, DefaultSymptoms)
  const luis := Patient(2, "Luis", 3, 2, DefaultSymptoms)
  const pedro := Patient(3, "Pedro", 2, 3, DefaultSymptoms)

  /** The states along the trace: after each registration, after the serve, after the undo. */
  const afterAna := Triage([ana], [], [], 1, 0, 0, 2)
  const afterLuis := Triage([ana, luis], [], [], 1, 0, 1, 3)
  const afterPedro := Triage([ana, luis, pedro], [], [], 1, 1, 1, 4)
  const afterServe := Triage([luis, pedro], [ana], [ana], 0, 1, 1, 4)
  const afterUndo := Triage([luis, pedro, ana], [], [], 1, 1, 1, 4)

  lemma AnaRegisters()
    ensures Register(Init(), Some("Ana"), 1, None) == (afterAna, Success(ana))
  {
    NamesAreNotBlank();
    RegisterWithoutSymptoms(Init(), "Ana", 1, ana);
    assert Init().queue + [ana] == [ana];
  }

  lemma LuisRegisters()
    ensures Register(afterAna, Some("Luis"), 3, None) == (afterLuis, Success(luis))
  {
    NamesAreNotBlank();
    RegisterWithoutSymptoms(afterAna, "Luis", 3, luis);
    assert afterAna.queue + [luis] == [ana, luis];
    assert Bump(afterAna.(queue := [ana, luis], nextId := 3), 3, 1) == afterLuis;
  }

  lemma PedroRegisters()
    ensures Register(afterLuis, Some("Pedro"), 2, None) == (afterPedro, Success(pedro))
  {
    NamesAreNotBlank();
    RegisterWithoutSymptoms(afterLuis, "Pedro", 2, pedro);
    assert afterLuis.queue + [pedro] == [ana, luis, pedro];
    assert Bump(afterLuis.(queue := [ana, luis, pedro], nextId := 4), 2, 1) == afterPedro;
  }

  lemma ServeTakesAna()
    ensures Serve(afterPedro) == (afterServe, Some(ana))
  {
    assert MinIndex(afterPedro.queue) == 0;
    assert RemoveAt(afterPedro.queue, 0) == [luis, pedro];
    var polled := Bump(afterPedro.(queue := [luis, pedro]), 1, -1);
    assert polled == Triage([luis, pedro], [], [], 0, 1, 1, 4);
    assert polled.history + [ana] == [ana];
  }

  lemma UndoReturnsAna()
    ensures Undo(afterServe) == (afterUndo, Some(ana))
  {
    assert afterServe.history[..0] == [] && afterServe.served[..0] == [];
    assert afterServe.queue + [ana] == [luis, pedro, ana];
  }

  lemma ListingAfterRegistrations()
    ensures Snapshot(afterPedro) == [ana, pedro, luis]
  {
    ListingOfThree(afterPedro.queue, ana, pedro, luis);
  }

  lemma ListingAfterUndo()
    ensures Snapshot(afterUndo) == [ana, pedro, luis]
  {
    ListingOfThree(afterUndo.queue, ana, pedro, luis);
  }

  /**
   * Ana (red), Luis (green) and Pedro (yellow) register in that order: the
   * listing is Ana, Pedro, Luis; serving takes Ana and empties the red
   * counter; undoing puts her back at the head of the listing.
   */
  lemma ThreePatients()
    ensures
      var (t1, r1) := Register(Init(), Some("Ana"), 1, None);
      var (t2, r2) := Register(t1, Some("Luis"), 3, None);
      var (t3, r3) := Register(t2, Some("Pedro"), 2, None);
      var (t4, served) := Serve(t3);
      var (t5, undone) := Undo(t4);
      && r1.Success? && r2.Success? && r3.Success?
      && ListsAnaPedroLuis(Snapshot(t3))
      && served.Some? && served.value.name == "Ana"
      && t4.red == 0 && t4.yellow == 1 && t4.green == 1
      && undone == served
      && ListsAnaPedroLuis(Snapshot(t5))
      && t5.red == 1 && t5.yellow == 1 && t5.green == 1
  {
    AnaRegisters();
    LuisRegisters();
    PedroRegisters();
    ServeTakesAna();
    UndoReturnsAna();
    ListingAfterRegistrations();
    ListingAfterUndo();
  }
}
