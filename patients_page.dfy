/** The "Patients" page (src/pages/Patients.tsx): the create form, which
    cleans its optional fields before handing them to the registry, and the
    registry's records listed by creation time. */
module PatientsPage {
  import opened Types
  import JsStrings
  import PatientStore

  /** `s.trim() || undefined`: the trimmed text, or absent when nothing but
      whitespace was typed. */
  function NormaliseOptional(s: string): (r: Option<string>)
    ensures r.None? <==> JsStrings.AllWhitespace(s)
    ensures r.Some? ==> r.value == JsStrings.Trim(s) && r.value != ""
  {
    JsStrings.TrimEmptyIffBlank(s);
    var t := JsStrings.Trim(s);
    if t == "" then None else Some(t)
  }

  /** Normalising an already normalised value keeps it. */
  lemma {:induction false} NormaliseStable(s: string)
    ensures var r := NormaliseOptional(s);
            r.Some? ==> NormaliseOptional(r.value) == r
  {
    var r := NormaliseOptional(s);
    if r.Some? {
      JsStrings.TrimIdempotent(s);
    }
  }

  /** The birth-year field: empty, or the number typed. */
  datatype YearField = Blank | Num(n: int)

  /** `typeof birthYear === "string" || birthYear === 0 ? undefined :
      Number(birthYear)` */
  function BirthYearOf(f: YearField): (r: Option<int>)
    ensures r.None? <==> f.Blank? || f.n == 0
    ensures r.Some? ==> f.Num? && r.value == f.n && r.value != 0
  {
    if f.Blank? || f.n == 0 then None else Some(f.n)
  }

  /** The path the page navigates to after creating patient `id`. */
  function RunPath(id: string): (path: string)
    ensures |path| == |"/run?patient="| + |id|
    ensures path[..|"/run?patient="|] == "/run?patient=" && path[|"/run?patient="|..] == id
  {
    "/run?patient=" + id
  }

  /** The page's form state over the shared registry. */
  class PatientForm {
    const store: PatientStore.Store
    var initials: string
    var birthYear: YearField
    var notes: string

    /** The form as first shown: every field empty. */
    constructor (store: PatientStore.Store)
      ensures this.store == store
      ensures initials == "" && birthYear == Blank && notes == ""
    {
      this.store := store;
      initials, birthYear, notes := "", Blank, "";
    }

    /** `createPatient`: adds a patient with the cleaned fields (fresh id
        `id`, code draws `draws`, stamp `now`), empties the form and returns
        the path of the run page for the new patient. */
    method CreatePatient(id: string, draws: seq<nat>, now: string) returns (path: string)
      requires PatientStore.ValidDraws(draws)
      modifies this, store
      ensures initials == "" && birthYear == Blank && notes == ""
      ensures id in store.patients
      ensures store.patients[id] == Patient(id, PatientStore.CodeFor(draws), NormaliseOptional(old(initials)),
                                            BirthYearOf(old(birthYear)), NormaliseOptional(old(notes)), now)
      ensures store.patients == old(store.patients)[id := store.patients[id]]
      ensures store.sessionsByPatient == old(store.sessionsByPatient)
      ensures store.slot == PatientStore.Save(store.Current())
      ensures path == RunPath(id)
    {
      var p := store.AddPatient(id, draws, now, NormaliseOptional(initials), BirthYearOf(birthYear),
                                NormaliseOptional(notes));
      initials, birthYear, notes := "", Blank, "";
      path := RunPath(p.id);
    }

    /** The `patients` list the page shows: the registry's records, taken
        along some enumeration `order` of its keys, in non-decreasing
        `createdAt` order; every record shown is one of the registry's. */
    method ShownPatients() returns (r: seq<Patient>, ghost order: seq<string>)
      ensures PatientStore.Enumerates(order, store.patients.Keys)
      ensures forall k :: k in order ==> k in store.patients
      ensures multiset(r) == multiset(PatientStore.ValuesAlong(order, store.patients))
      ensures PatientStore.SortedByCreatedAt(r)
      ensures |r| == |store.patients|
      ensures forall p :: p in r ==> p in store.patients.Values
    {
      r, order := store.ListPatients();
      forall p | p in r
        ensures p in store.patients.Values
      {
        assert p in multiset(PatientStore.ValuesAlong(order, store.patients));
        var i :| 0 <= i < |order| && PatientStore.ValuesAlong(order, store.patients)[i] == p;
        assert store.patients[order[i]] == p;
      }
    }
  }
}
