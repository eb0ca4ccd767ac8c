/** The local patient registry (src/store/patientStore.ts): an in-memory
    table of patients and of per-patient session summaries, written through
    to one persisted snapshot after every change. */
module PatientStore {
  import opened Types
  import JsStrings

  // ---------------------------------------------------------------------
  // Anonymous patient codes
  // ---------------------------------------------------------------------

  /** The code alphabet: upper-case letters and digits without the look-alikes
      0, 1, I and O. */
  const Alphabet: string := "ABCDEFGHJKLMNPQRSTUVWXYZ23456789"

  /** A character of the alphabet, described by ranges. */
  predicate IsCodeChar(c: char) {
    ('A' <= c <= 'Z' && c != 'I' && c != 'O') || ('2' <= c <= '9')
  }

  /** Position of a code character in `Alphabet`. */
  function AlphabetIndex(c: char): nat
    requires IsCodeChar(c)
  {
    if 'A' <= c <= 'H' then c as int - 'A' as int
    else if 'J' <= c <= 'N' then c as int - 'J' as int + 8
    else if 'P' <= c <= 'Z' then c as int - 'P' as int + 13
    else c as int - '2' as int + 24
  }

  /** `Alphabet` has 32 characters, all code characters and all different:
      `AlphabetIndex` inverts indexing into it. */
  lemma AlphabetFacts()
    ensures |Alphabet| == 32
    ensures forall k :: 0 <= k < 32 ==> IsCodeChar(Alphabet[k]) && AlphabetIndex(Alphabet[k]) == k
    ensures forall c :: IsCodeChar(c) ==> AlphabetIndex(c) < 32 && Alphabet[AlphabetIndex(c)] == c
  {
    forall k | 0 <= k < 32 ensures IsCodeChar(Alphabet[k]) && AlphabetIndex(Alphabet[k]) == k {
      if k < 8 { assert Alphabet[k] as int == 'A' as int + k; }
      else if k < 13 { assert Alphabet[k] as int == 'J' as int + k - 8; }
      else if k < 24 { assert Alphabet[k] as int == 'P' as int + k - 13; }
      else { assert Alphabet[k] as int == '2' as int + k - 24; }
    }
  }

  /** The shape of every generated code: "P-" and four alphabet characters. */
  predicate IsPatientCode(s: string) {
    |s| == 6 && s[..2] == "P-" && forall i :: 2 <= i < 6 ==> IsCodeChar(s[i])
  }

  /** Four random picks, each `Math.floor(Math.random() * 32)`. */
  predicate ValidDraws(draws: seq<nat>) {
    |draws| == 4 && forall k :: 0 <= k < 4 ==> draws[k] < 32
  }

  /** The code a given choice of picks produces. */
  function CodeFor(draws: seq<nat>): string
    requires ValidDraws(draws)
  {
    AlphabetFacts();
    "P-" + [Alphabet[draws[0]], Alphabet[draws[1]], Alphabet[draws[2]], Alphabet[draws[3]]]
  }

  /** `newPatientCode`: appends one alphabet character per pick to "P-".
      The random source is the parameter `draws`. */
  method NewPatientCode(draws: seq<nat>) returns (code: string)
    requires ValidDraws(draws)
    ensures code == CodeFor(draws)
    ensures IsPatientCode(code)
    ensures forall i :: 2 <= i < |code| ==> code[i] != '0' && code[i] != '1' && code[i] != 'I' && code[i] != 'O'
  {
    AlphabetFacts();
    code := "P-";
    for i := 0 to 4
      invariant |code| == 2 + i && code[..2] == "P-"
      invariant forall k :: 0 <= k < i ==> code[2 + k] == Alphabet[draws[k]]
    {
      code := code + [Alphabet[draws[i]]];
    }
  }

  /** The picks that yield a given code. */
  function DrawsOf(code: string): (draws: seq<nat>)
    requires IsPatientCode(code)
    ensures ValidDraws(draws)
  {
    AlphabetFacts();
    [AlphabetIndex(code[2]), AlphabetIndex(code[3]), AlphabetIndex(code[4]), AlphabetIndex(code[5])]
  }

  /** Every string of the code shape is generated, by the picks `DrawsOf`
      reads off it. */
  lemma CodeForDrawsOf(code: string)
    requires IsPatientCode(code)
    ensures CodeFor(DrawsOf(code)) == code
  {
    AlphabetFacts();
    var d := DrawsOf(code);
    var c := CodeFor(d);
    assert c[..2] == code[..2];
    forall i | 2 <= i < 6 ensures c[i] == code[i] {
      assert c[i] == Alphabet[d[i - 2]];
    }
  }

  /** Different picks give different codes: `DrawsOf` recovers the picks. */
  lemma DrawsOfCodeFor(draws: seq<nat>)
    requires ValidDraws(draws)
    ensures IsPatientCode(CodeFor(draws))
    ensures DrawsOf(CodeFor(draws)) == draws
  {
    AlphabetFacts();
    var c := CodeFor(draws);
    forall k | 0 <= k < 4 ensures IsCodeChar(c[2 + k]) && AlphabetIndex(c[2 + k]) == draws[k] {
      assert c[2 + k] == Alphabet[draws[k]];
    }
    assert c[..2] == "P-";
  }

  // ---------------------------------------------------------------------
  // The persisted snapshot
  // ---------------------------------------------------------------------

  type PatientMap = map<string, Patient>
  type SessionMap = map<string, seq<SessionSummary>>

  /** What the registry persists: both tables. */
  datatype Snapshot = Snapshot(patients: PatientMap, sessionsByPatient: SessionMap)

  const EmptySnapshot := Snapshot(map[], map[])

  /** A document read back from storage; either field may be missing. */
  datatype StoredDoc = StoredDoc(patients: Option<PatientMap>, sessionsByPatient: Option<SessionMap>)

  /** The storage entry under the key "eyeapp.patientStore.v1": absent (or
      the empty string), text that does not parse, or a parsed document. */
  datatype Slot = Empty | Unparseable | Parsed(doc: StoredDoc)

  /** `save`: the whole snapshot, both fields present. */
  function Save(s: Snapshot): (slot: Slot)
    ensures slot.Parsed? && slot.doc.patients == Some(s.patients)
    ensures slot.doc.sessionsByPatient == Some(s.sessionsByPatient)
  {
    Parsed(StoredDoc(Some(s.patients), Some(s.sessionsByPatient)))
  }

  /** `load` and the `?? {}` defaults: whatever is missing or unreadable
      becomes an empty table. */
  function Load(slot: Slot): (s: Snapshot)
    ensures !slot.Parsed? ==> s == EmptySnapshot
    ensures slot.Parsed? ==> s.patients == slot.doc.patients.GetOr(map[])
                             && s.sessionsByPatient == slot.doc.sessionsByPatient.GetOr(map[])
  {
    match slot
    case Parsed(doc) => Snapshot(doc.patients.GetOr(map[]), doc.sessionsByPatient.GetOr(map[]))
    case _ => EmptySnapshot
  }

  /** Loading what was saved gives back the same tables. */
  lemma LoadSave(s: Snapshot)
    ensures Load(Save(s)) == s
  {
  }

  /** A missing or unparseable entry loads as two empty tables, and so does
      a document without either field. */
  lemma LoadDefaultsToEmpty(slot: Slot)
    requires slot.Empty? || slot.Unparseable? || slot == Parsed(StoredDoc(None, None))
    ensures Load(slot).patients == map[] && Load(slot).sessionsByPatient == map[]
  {
  }

  // ---------------------------------------------------------------------
  // Ordering by creation time
  // ---------------------------------------------------------------------

  predicate SortedByCreatedAt(ps: seq<Patient>) {
    forall i, j :: 0 <= i < j < |ps| ==> JsStrings.StrLe(ps[i].createdAt, ps[j].createdAt)
  }

  /** Inserts `p` before the first entry that is not earlier than it. */
  function InsertByCreatedAt(p: Patient, ps: seq<Patient>): (r: seq<Patient>)
    requires SortedByCreatedAt(ps)
    ensures SortedByCreatedAt(r)
    ensures multiset(r) == multiset(ps) + multiset{p}
    ensures forall i :: 0 <= i < |r| ==> r[i] == p || r[i] in ps
  {
    if ps == [] then [p]
    else if JsStrings.StrLe(p.createdAt, ps[0].createdAt) then
      assert forall j :: 0 < j < |ps| ==> JsStrings.StrLe(p.createdAt, ps[j].createdAt) by {
        forall j | 0 < j < |ps| ensures JsStrings.StrLe(p.createdAt, ps[j].createdAt) {
          JsStrings.StrLeTransitive(p.createdAt, ps[0].createdAt, ps[j].createdAt);
        }
      }
      [p] + ps
    else
      JsStrings.StrLeTotal(p.createdAt, ps[0].createdAt);
      var rest := InsertByCreatedAt(p, ps[1..]);
      assert ps == [ps[0]] + ps[1..];
      assert forall i :: 0 <= i < |rest| ==> JsStrings.StrLe(ps[0].createdAt, rest[i].createdAt);
      [ps[0]] + rest
  }

  /** The comparator sort of `listPatients`: a permutation of `ps` in
      non-decreasing `createdAt` order. */
  function SortByCreatedAt(ps: seq<Patient>): (r: seq<Patient>)
    ensures SortedByCreatedAt(r)
    ensures multiset(r) == multiset(ps)
  {
    if ps == [] then []
    else
      assert ps == [ps[0]] + ps[1..];
      InsertByCreatedAt(ps[0], SortByCreatedAt(ps[1..]))
  }

  /** `order` lists every key of `keys` exactly once. */
  ghost predicate Enumerates(order: seq<string>, keys: set<string>) {
    && (forall k :: k in order <==> k in keys)
    && (forall i, j :: 0 <= i < j < |order| ==> order[i] != order[j])
  }

  /** The values of `m` read off along `order`. */
  function ValuesAlong(order: seq<string>, m: PatientMap): (r: seq<Patient>)
    requires forall k :: k in order ==> k in m
    ensures |r| == |order|
    ensures forall i :: 0 <= i < |order| ==> r[i] == m[order[i]]
  {
    if order == [] then [] else [m[order[0]]] + ValuesAlong(order[1..], m)
  }

  // ---------------------------------------------------------------------
  // The registry
  // ---------------------------------------------------------------------

  class Store {
    var patients: PatientMap
    var sessionsByPatient: SessionMap
    /** The storage entry the registry writes through to. */
    var slot: Slot

    function Current(): Snapshot
      reads this
    {
      Snapshot(patients, sessionsByPatient)
    }

    /** `listSessions`: a patient's summaries, or none. */
    function ListSessions(patientId: string): (r: seq<SessionSummary>)
      reads this
      ensures patientId in sessionsByPatient ==> r == sessionsByPatient[patientId]
      ensures patientId !in sessionsByPatient ==> r == []
    {
      if patientId in sessionsByPatient then sessionsByPatient[patientId] else []
    }

    /** Store creation: the tables start from whatever the entry holds. */
    constructor (stored: Slot)
      ensures Current() == Load(stored) && slot == stored
    {
      var s := Load(stored);
      patients := s.patients;
      sessionsByPatient := s.sessionsByPatient;
      slot := stored;
    }

    /** `persist`: the entry becomes the current snapshot. */
    method Persist()
      modifies this`slot
      ensures slot == Save(Current()) && Load(slot) == Current()
    {
      slot := Save(Current());
      LoadSave(Current());
    }

    /** `addPatient`: one record under the fresh id `id` (from `newId`), with
        the generated code and creation stamp `now`; nothing else changes. */
    method AddPatient(id: string, draws: seq<nat>, now: string,
                      initials: Option<string>, birthYear: Option<int>, notes: Option<string>)
      returns (p: Patient)
      requires ValidDraws(draws)
      modifies this
      ensures p == Patient(id, CodeFor(draws), initials, birthYear, notes, now)
      ensures IsPatientCode(p.code)
      ensures patients == old(patients)[id := p]
      ensures forall k :: k in old(patients) && k != id ==> k in patients && patients[k] == old(patients)[k]
      ensures id !in old(patients) ==> patients.Keys == old(patients).Keys + {id}
                                       && |patients| == |old(patients)| + 1
      ensures sessionsByPatient == old(sessionsByPatient)
      ensures slot == Save(Current()) && Load(slot) == Current()
    {
      var code := NewPatientCode(draws);
      p := Patient(id, code, initials, birthYear, notes, now);
      patients := patients[id := p];
      Persist();
    }

    /** `deletePatient`: the patient and all its summaries go; every other
        entry stays. An unknown id changes neither table. */
    method DeletePatient(id: string)
      modifies this
      ensures patients == old(patients) - {id}
      ensures sessionsByPatient == old(sessionsByPatient) - {id}
      ensures forall k :: k in old(patients) && k != id ==> k in patients && patients[k] == old(patients)[k]
      ensures forall k :: k in old(sessionsByPatient) && k != id ==>
                k in sessionsByPatient && sessionsByPatient[k] == old(sessionsByPatient)[k]
      ensures id !in old(patients) ==> patients == old(patients)
      ensures id !in old(sessionsByPatient) ==> sessionsByPatient == old(sessionsByPatient)
      ensures id !in patients && ListSessions(id) == []
      ensures slot == Save(Current()) && Load(slot) == Current()
    {
      patients := patients - {id};
      sessionsByPatient := sessionsByPatient - {id};
      Persist();
    }

    /** `listPatients`: the table's values, taken in some enumeration order of
        its keys, then sorted by `createdAt`. */
    method ListPatients() returns (r: seq<Patient>, ghost order: seq<string>)
      ensures Enumerates(order, patients.Keys)
      ensures forall k :: k in order ==> k in patients
      ensures multiset(r) == multiset(ValuesAlong(order, patients))
      ensures SortedByCreatedAt(r)
      ensures |r| == |patients|
    {
      var rest := patients.Keys;
      var values: seq<Patient> := [];
      order := [];
      while rest != {}
        invariant rest <= patients.Keys
        invariant forall k :: k in order <==> k in patients.Keys - rest
        invariant forall i :: 0 <= i < |order| ==> order[i] in patients
        invariant forall i, j :: 0 <= i < j < |order| ==> order[i] != order[j]
        invariant |values| == |order|
        invariant forall i :: 0 <= i < |order| ==> values[i] == patients[order[i]]
        invariant |order| + |rest| == |patients.Keys|
        decreases rest
      {
        var k :| k in rest;
        assert k !in order;
        values := values + [patients[k]];
        order := order + [k];
        rest := rest - {k};
      }
      assert values == ValuesAlong(order, patients);
      r := SortByCreatedAt(values);
      assert |r| == |multiset(r)| == |multiset(values)| == |values|;
    }

    /** `addSessionSummary`: `s` goes at the end of its patient's list (a new
        one-element list if there was none), whether or not that patient is
        known; every other list and the patient table stay. */
    method AddSessionSummary(s: SessionSummary)
      modifies this
      ensures ListSessions(s.patientId) == old(ListSessions(s.patientId)) + [s]
      ensures sessionsByPatient == old(sessionsByPatient)[s.patientId := old(ListSessions(s.patientId)) + [s]]
      ensures forall k :: k != s.patientId ==> ListSessions(k) == old(ListSessions(k))
      ensures patients == old(patients)
      ensures slot == Save(Current()) && Load(slot) == Current()
    {
      var list := ListSessions(s.patientId);
      sessionsByPatient := sessionsByPatient[s.patientId := list + [s]];
      Persist();
    }
  }
}
