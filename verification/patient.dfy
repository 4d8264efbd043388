/**
 * The patient record (`Paciente`): an immutable value with an id, a name,
 * a priority 1..3 (1 = red, most urgent), a logical arrival time and symptoms.
 */
module Patients {
  import opened Wrappers

  /** Why a construction was refused; the priority is checked before the name. */
  datatype ValidationError = InvalidPriority | BlankName

  /**
   * One patient. `arrival` stands for the wall-clock arrival time: it is a
   * logical clock, equal to the id, so it increases strictly with every
   * successful construction.
   */
  datatype Patient = Patient(id: nat, name: string, priority: int, arrival: nat, symptoms: string)

  /** Text stored when no symptoms are given. */
  const DefaultSymptoms: string := "No especificado"

  /** The test `String.trim` applies to each end: a character at most U+0020 is stripped. */
  predicate IsTrimmed(c: char) {
    c <= ' '
  }

  predicate IsBlank(s: string) {
    forall i :: 0 <= i < |s| ==> IsTrimmed(s[i])
  }

  /**
   * Java's `String.trim`: drops leading and trailing characters up to U+0020
   * and nothing else, so the result is the middle of `s` between two blank ends.
   */
  function Trim(s: string): (r: string)
    ensures exists i, j :: 0 <= i <= j <= |s| && r == s[i..j] && IsBlank(s[..i]) && IsBlank(s[j..])
    ensures r == [] <==> IsBlank(s)
    ensures r != [] ==> !IsTrimmed(r[0]) && !IsTrimmed(r[|r| - 1])
  {
    var front := TrimStart(s);
    var r := TrimEnd(front);
    var i := |s| - |front|;
    var j := i + |r|;
    assert front == s[i..] && IsBlank(s[..i]);
    assert r == s[i..j] && IsBlank(s[j..]) by {
      assert r == front[..|r|];
      assert s[j..] == front[|r|..];
    }
    assert r == [] <==> IsBlank(s) by {
      assert IsBlank(front) <==> IsBlank(s);
    }
    r
  }

  /** Drops the leading characters up to U+0020; what it drops is blank. */
  function TrimStart(s: string): (r: string)
    ensures |r| <= |s| && r == s[|s| - |r|..]
    ensures IsBlank(s[..|s| - |r|])
    ensures r == [] <==> IsBlank(s)
    ensures r != [] ==> !IsTrimmed(r[0])
  {
    if s != [] && IsTrimmed(s[0]) then
      var r := TrimStart(s[1..]);
      assert s[..|s| - |r|] == [s[0]] + s[1..][..|s[1..]| - |r|];
      r
    else s
  }

  /** Drops the trailing characters up to U+0020; what it drops is blank. */
  function TrimEnd(s: string): (r: string)
    ensures |r| <= |s| && r == s[..|r|]
    ensures IsBlank(s[|r|..])
    ensures r == [] <==> IsBlank(s)
    ensures r != [] ==> !IsTrimmed(r[|r| - 1])
  {
    if s != [] && IsTrimmed(s[|s| - 1]) then
      var r := TrimEnd(s[..|s| - 1]);
      assert s[|r|..] == s[..|s| - 1][|r|..] + [s[|s| - 1]];
      r
    else s
  }

  predicate ValidPriority(priority: int) {
    1 <= priority <= 3
  }

  /**
   * The constructor `Paciente(nombre, prioridad, sintomas)` with the id
   * counter passed in and handed back advanced. `None` stands for `null`.
   * On success the new patient carries `nextId` and the counter moves on by
   * one; on failure the counter is not touched, because the checks run
   * before `contadorId++`.
   */
  function Create(name: Option<string>, priority: int, symptoms: Option<string>, nextId: nat)
    : (r: Result<(Patient, nat), ValidationError>)
    ensures !ValidPriority(priority) <==> r == Failure(InvalidPriority)
    ensures r == Failure(BlankName) <==>
              ValidPriority(priority) && (name.None? || IsBlank(name.value))
    ensures r.Success? ==>
              var (p, next) := r.value;
              && name == Some(p.name) && !IsBlank(p.name)
              && p.id == nextId && p.arrival == nextId && next == nextId + 1
              && p.priority == priority && ValidPriority(p.priority)
              && p.symptoms == (if symptoms.Some? then symptoms.value else DefaultSymptoms)
  {
    if priority < 1 || priority > 3 then Failure(InvalidPriority)
    else if name.None? || Trim(name.value) == [] then Failure(BlankName)
    else
      var symptomsText := if symptoms.Some? then symptoms.value else DefaultSymptoms;
      Success((Patient(nextId, name.value, priority, nextId, symptomsText), nextId + 1))
  }

  /** `getNivelPrioridadTexto`: the display label of a priority. */
  function Label(priority: int): (r: string)
    ensures r == "Desconocido" <==> !ValidPriority(priority)
  {
    match priority
    case 1 => "ROJO (Emergencia)"
    case 2 => "AMARILLO (Urgente)"
    case 3 => "VERDE (No urgente)"
    case _ => "Desconocido"
  }

  /** The three valid priorities get three distinct labels, and only invalid ones fall back to "Desconocido". */
  lemma LabelDistinguishesPriorities(p: int, q: int)
    ensures Label(p) == "Desconocido" <==> !ValidPriority(p)
    ensures ValidPriority(p) && ValidPriority(q) && Label(p) == Label(q) ==> p == q
  {
  }
}
