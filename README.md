# Eye-tracking desktop app: patient registry and timed slide sessions

A Dafny model of the core of the eye-tracking desktop application. It
covers three parts.

- **The local patient registry** (`PatientStore`, file `patient_store.dfy`).
  It keeps a table of patients and a table of per-patient session
  summaries. Every change is written through to one persisted snapshot.
  Each patient gets an anonymous code `P-XXXX` drawn from a 32-character
  alphabet without `0`, `1`, `I` and `O`.
- **The timed slide session of the Run Test page** (`RunTest`, file
  `run_test.dfy`). A state machine moves Idle → Running → Ended over the
  slide index, the session id and time stamps, and the list of slide
  marks. Ending a session derives one duration per mark and builds an
  export that carries only the patient's code, and it appends one summary
  to the registry. The page state is described twice:
  - pure transition functions on a `PageState` value (`Started`, `Moved`,
    `Committed`, `Cleared`, `Ended`), with lemmas proving that each one
    keeps the page invariant `Consistent`;
  - the `Session` class, whose methods update the fields in place and are
    proved equal to those transitions.
- **The Patients page** (`PatientsPage`, file `patients_page.dfy`). It trims
  the form's optional fields and maps blank ones to absent, maps an empty
  or zero birth year to absent, resets the form, and lists the patients by
  creation time.

Two supporting modules:
- `Types` (`types.dfy`) holds the record types of `src/types.ts`.
- `JsStrings` (`js_strings.dfy`) models the JavaScript string operations
  the code relies on: `trim`, the ordering used for `localeCompare`, and
  the `replace` calls.

Clocks, random numbers and fresh ids are parameters of the operations:
- `now` is a monotonic clock reading in whole milliseconds;
- `idIso`, `startIso`, `endIso` and `now: string` are wall-clock ISO
  stamps;
- `draws` are the four random picks of a patient code;
- `id` is the fresh patient id.

Two facts about the code that are easy to get wrong:
- The code alphabet at `src/store/patientStore.ts:23` has 32 characters,
  as `AlphabetFacts` proves.
- Starting a session, then three times `next` and once `prev` on five
  slides, ends at slide 2 with 5 marks, for slides `[0,1,2,3,2]`: the
  starting mark and one mark per move. `NavigationExample` proves it.

## Model

| member | source | states |
|---|---|---|
| JsStrings.Trim | src/pages/Patients.tsx:28 | `trim` gives an infix of the input that starts and ends with a non-whitespace character (or is empty), with only whitespace cut off on either side |
| JsStrings.TrimEmptyIffBlank | src/pages/Patients.tsx:28 | trimming gives "" exactly when the input is all whitespace |
| JsStrings.TrimIdempotent | src/pages/Patients.tsx:28-30 | trimming twice equals trimming once |
| JsStrings.StrLeTotal | src/store/patientStore.ts:80 | any two `createdAt` stamps are comparable under the sort's order |
| JsStrings.StrLeTransitive | src/store/patientStore.ts:80 | the sort's order is transitive |
| JsStrings.StrLeAntisymmetric | src/store/patientStore.ts:80 | two stamps that are each ordered before the other are equal |
| JsStrings.RemoveAll | src/pages/RunTest.tsx:26 | a global regex replace by "" never makes the string longer |
| JsStrings.RemoveAllMembers | src/pages/RunTest.tsx:26 | after the replace, a character occurs exactly when it occurred before and is not one of those removed |
| JsStrings.ReplaceFirst | src/pages/RunTest.tsx:26 | `replace("T", "_")` changes only the first `T` and leaves a string without `T` unchanged |
| PatientStore.AlphabetFacts | src/store/patientStore.ts:23 | the alphabet has 32 characters, all distinct, none of them `0`, `1`, `I` or `O` |
| PatientStore.NewPatientCode | src/store/patientStore.ts:22-27 | the loop yields "P-" followed by four alphabet characters, the ones picked by the draws, and never `0/1/I/O` after the prefix |
| PatientStore.CodeForDrawsOf | src/store/patientStore.ts:22-27 | every string of the form "P-" plus four alphabet characters can be generated |
| PatientStore.DrawsOfCodeFor | src/store/patientStore.ts:22-27 | different draws give different codes, because the draws can be read back from the code |
| PatientStore.Save | src/store/patientStore.ts:39-41 | the written document holds both tables, neither field missing |
| PatientStore.Load | src/store/patientStore.ts:31-38 | an absent or unparseable entry reads as the empty snapshot; a parsed document gives each table it holds and an empty table for each one it lacks (the `?? {}` defaults of lines 44-46) |
| PatientStore.LoadSave | src/store/patientStore.ts:31-54 | loading a persisted snapshot gives back exactly both tables |
| PatientStore.LoadDefaultsToEmpty | src/store/patientStore.ts:44-46 | a missing or unparseable entry, or a document without the fields, loads as two empty tables |
| PatientStore.InsertByCreatedAt | src/store/patientStore.ts:80 | inserting into a sorted list keeps it sorted by `createdAt` and adds exactly the one record |
| PatientStore.SortByCreatedAt | src/store/patientStore.ts:80 | the comparator sort returns a permutation sorted non-decreasingly by `createdAt` |
| PatientStore.Store.constructor | src/store/patientStore.ts:43-46 | the tables start as the persisted snapshot, or empty when there is none |
| PatientStore.Store.ListSessions | src/store/patientStore.ts:95 | a patient's summary list, or the empty list when the table has no entry for that id |
| PatientStore.Store.Persist | src/store/patientStore.ts:48-54 | the storage entry becomes the current tables, and loading it gives them back |
| PatientStore.Store.AddPatient | src/store/patientStore.ts:60-68 | exactly one entry is added or replaced, under the fresh id; it holds the id, the generated code, the given fields and `createdAt = now`; the returned record is the stored one; other entries and the session table are unchanged; the snapshot is persisted |
| PatientStore.Store.DeletePatient | src/store/patientStore.ts:70-77 | the id leaves both tables and every other key keeps its value; an absent id changes nothing; `listSessions(id)` is then empty; the snapshot is persisted |
| PatientStore.Store.ListPatients | src/store/patientStore.ts:79-80 | the result is a permutation of the table's values, taken along an enumeration of its keys, sorted non-decreasingly by `createdAt` |
| PatientStore.Store.AddSessionSummary | src/store/patientStore.ts:82-93 | the summary is appended to its patient's list (a new one-element list if there was none), whether or not the patient exists; other lists and the patient table are unchanged; the snapshot is persisted |
| RunTest.NewSessionId | src/pages/RunTest.tsx:24-28 | a session id starts with "sess-" |
| RunTest.SessionIdShape | src/pages/RunTest.tsx:26-27 | after "sess-" the id holds no `:`, `.` or `-`, and every character except `_` comes from the ISO stamp |
| RunTest.SessionIdOfIsoStamp | src/pages/RunTest.tsx:24-28 | for a stamp `Y-M-DTh:m:s.msZ` with digit fields, the id is `sess-YMD_hmsmsZ` |
| RunTest.NextIndex | src/pages/RunTest.tsx:165 | `min(i+1, len-1)`: with `len ≥ 1` and `i` in range, the result stays in range, moves by at most one, and equals `i` only at the last slide; with `len == 0` it is -1 |
| RunTest.PrevIndex | src/pages/RunTest.tsx:174 | `max(i-1, 0)`: never below 0, moves by at most one, and equals `i` only at slide 0 |
| RunTest.Durations | src/pages/RunTest.tsx:113-118 | one duration per mark, each ≥ 0; a non-last one is `max(0, next.t - t)` and the last one `max(0, elapsed - t)` |
| RunTest.ComputeDurations | src/pages/RunTest.tsx:113-118 | the loop gives one duration per mark, each ≥ 0; a non-last one is `max(0, next.t - t)` and the last one is `max(0, elapsed - t)` |
| RunTest.DurationsSum | src/pages/RunTest.tsx:113-118 | for marks in time order ending by `elapsed`, the durations add up to `elapsed - marks[0].t` (exact for whole-millisecond readings; see "Left out" for fractional ones) |
| RunTest.DurationsExample | src/pages/RunTest.tsx:113-118 | marks at 0, 1000 and 2500 ended at 3000 ms give durations 1000, 1500 and 500 |
| RunTest.BuildExport | src/pages/RunTest.tsx:120-131 | the export copies the id, both stamps, key, label, slide count, marks and durations, sets the app build, and carries a patient code exactly when there is a patient, namely that patient's code |
| RunTest.ExportSeesOnlyCode | src/pages/RunTest.tsx:120-131 | two patients with the same code give the same export, so no id, initials, birth year or notes reach it |
| RunTest.ExportFileName | src/pages/RunTest.tsx:149-150 | the name is `code_` (only for a non-empty code) followed by `id_key.json` |
| RunTest.FileNameCarriesCode | src/pages/RunTest.tsx:149-150 | the export file name ends in ".json" and starts with the patient code and "_" exactly when the export has a code |
| RunTest.IsRunning | src/pages/RunTest.tsx:72-73 | `running` needs a non-empty session id and excludes `ended` |
| RunTest.CanEnd | src/pages/RunTest.tsx:105 | `endSession` proceeds exactly when a session is running and has a non-empty start stamp |
| RunTest.Started | src/pages/RunTest.tsx:93-102 | after `startSession` with a patient, a session is running |
| RunTest.StartedConsistent | src/pages/RunTest.tsx:93-102 | a freshly started session satisfies the page invariant, whatever state came before |
| RunTest.Moved | src/pages/RunTest.tsx:163-180 | a move sets the index and appends at most one mark, and appends one exactly when running and the index changed |
| RunTest.MovedConsistent | src/pages/RunTest.tsx:166-167 | moves keep the page invariant: neighbouring marks never repeat a slide, times stay ordered, and while running the last mark shows the current slide |
| RunTest.NavigationExample | src/pages/RunTest.tsx:163-180 | on 5 slides, start then next, next, next, prev ends at index 2 with marks for slides 0, 1, 2, 3, 2 |
| RunTest.Committed | src/pages/RunTest.tsx:86-91 | the reset effect, when the protocol or the running flag changed and no session is running, sets the index to 0, empties the marks and restarts `t0`; otherwise it only records its dependencies |
| RunTest.CommittedConsistent | src/pages/RunTest.tsx:86-91 | the reset effect keeps the page invariant |
| RunTest.Cleared | src/pages/RunTest.tsx:154-161 | after `clearSession` nothing is running or endable, there is no export, and there are no marks |
| RunTest.Ended | src/pages/RunTest.tsx:107-108 | ending keeps the marks, index and `t0`, records the end stamp and export, and leaves the session neither running nor endable |
| RunTest.EndedConsistent | src/pages/RunTest.tsx:104-132 | ending keeps the page invariant |
| RunTest.EndDurationsSum | src/pages/RunTest.tsx:113-118 | in any state where a session can be ended, the durations add up to the time since its start (exact for whole-millisecond readings) |
| RunTest.Session.constructor | src/pages/RunTest.tsx:49-59 | the page starts on protocol "saccades" at slide 0, with no session and no marks |
| RunTest.Session.Slides | src/pages/RunTest.tsx:69 | the current protocol's slides, or none when the manifest lacks the key |
| RunTest.Session.Label | src/pages/RunTest.tsx:110 | the current protocol's label, or the key itself when the manifest lacks it |
| RunTest.Session.CurrentPatient | src/pages/RunTest.tsx:43 | the patient stored under the `patient` parameter, present exactly when the registry has that id |
| RunTest.Session.SelectProtocol | src/pages/RunTest.tsx:235 | picking a protocol changes only the key |
| RunTest.Session.Commit | src/pages/RunTest.tsx:86-91 | the effect run changes the page exactly as `Committed` says and keeps the invariant |
| RunTest.Session.StartSession | src/pages/RunTest.tsx:93-102 | without a patient nothing changes; otherwise the page becomes `Started` (marks `[{0,0}]`, index 0, no end, no export, a new id and start stamp), even if a session was running |
| RunTest.Session.Next | src/pages/RunTest.tsx:163-171 | the page becomes `Moved` to `NextIndex`, keeping the invariant |
| RunTest.Session.Prev | src/pages/RunTest.tsx:172-180 | the page becomes `Moved` to `PrevIndex`, keeping the invariant |
| RunTest.Session.EndExport | src/pages/RunTest.tsx:110-131 | the export copies the id, start, key, label, slide count and marks, adds the per-mark durations and the patient's code; the durations are ≥ 0, one per mark, and sum to `now - t0` (exact for whole-millisecond readings) |
| RunTest.Session.EndSession | src/pages/RunTest.tsx:104-145 | a no-op unless a started session has not ended; otherwise the page becomes `Ended` and the stored export is exactly `BuildExport` of the session id, stamps, key, label, slide count, marks, durations up to `now` and the patient; with a patient exactly one summary is appended to that patient's list, the session table changes at that key only, the patient table is unchanged and the snapshot is persisted |
| RunTest.Session.ExportJSON | src/pages/RunTest.tsx:147-152 | nothing without an ended session; otherwise the ended export under `ExportFileName` |
| RunTest.Session.ClearSession | src/pages/RunTest.tsx:154-161 | the page becomes `Cleared` and keeps the invariant |
| PatientsPage.NormaliseOptional | src/pages/Patients.tsx:28-30 | the field becomes absent exactly when it is all whitespace; otherwise it is the trimmed, non-empty text |
| PatientsPage.NormaliseStable | src/pages/Patients.tsx:28-30 | normalising a normalised value gives it back |
| PatientsPage.BirthYearOf | src/pages/Patients.tsx:24-25 | the birth year is absent exactly when the field is empty or 0; otherwise it is the number typed |
| PatientsPage.RunPath | src/pages/Patients.tsx:39 | the path is "/run?patient=" followed by exactly the id |
| PatientsPage.PatientForm.constructor | src/pages/Patients.tsx:19-21 | the form starts with every field empty |
| PatientsPage.PatientForm.CreatePatient | src/pages/Patients.tsx:23-40 | the registry gains the patient with normalised fields and nothing else changes; the form fields are reset; the result is the run page path for the new id |
| PatientsPage.PatientForm.ShownPatients | src/pages/Patients.tsx:12-15 | the list shown is a permutation of the registry's records, sorted non-decreasingly by `createdAt` |

## Left out

- JSX rendering, routing, layout and the Electron shell are not modelled. The keyboard listener (`src/pages/RunTest.tsx:76-83`) only calls `next` and `prev`, which are modelled.
- React's batching and functional updaters are not modelled. Each handler is one atomic step. The reset effect is the separate step `Session.Commit`, run after each change. Its remembered dependencies are the fields `effectKey` and `effectRunning`.
- Loading the protocol manifest over `fetch` is not modelled. The manifest is a constructor parameter.
- `saveJSON` is not part of this model. `ExportJSON` returns the file name and document it would be given.
- `localStorage` and `JSON.parse`/`JSON.stringify` are abstracted. The storage entry is a `Slot` that is empty, unparseable or a parsed document.
- `Math.random`, `newId`, `performance.now()` and `Date.toISOString()` are parameters.
  - Patient ids may collide. On a collision `AddPatient` overwrites, as the source does.
  - Clock readings are whole milliseconds, so `Math.round` in the durations loop is the identity. The program reads fractional `performance.now()` values and rounds each duration separately, so there the durations can add up to something off from the elapsed time by up to about half a millisecond per mark (marks at 0, 0.5 and 1.0 ended at 1.5 give `[1, 1, 1]`).
  - Monotonic readings must not go backwards (`now >= clock`).
- RunTest.Session.EndSession: requires a non-empty end stamp. `toISOString` never returns "".
- Lookups in the tables are modelled as map lookups. In the program the tables are plain objects, so a key such as `toString` also finds an inherited `Object.prototype` member. With `?patient=toString`, `patientsMap[patientIdParam]` (`src/pages/RunTest.tsx:43`) is then a function and counts as a patient. `startSession` proceeds, the export carries no code, and `addSessionSummary` files the summary under the key `"undefined"`. In the model `CurrentPatient` is absent for such a key and `StartSession` does nothing.
- A failing `localStorage.setItem` is not modelled; `Persist` always succeeds. In the program `save` (`src/store/patientStore.ts:39-41`) is not guarded, so the exception leaves `addPatient`, `deletePatient` or `addSessionSummary` after the tables have already changed, and `createPatient` then skips the form reset and the navigation (`src/pages/Patients.tsx:34-39`).
- `localeCompare` is modelled as lexicographic order on character codes, not locale collation.
- The order in which `Object.values` enumerates a table is abstracted as an arbitrary enumeration of its keys (the ghost `order`).
- The upper-casing of the initials input and the parsing of the birth-year input (`src/pages/Patients.tsx:56,66`) are not modelled. The birth-year field is either blank or an integer, and non-integer numbers are not represented.
- The patient picker and its URL hand-off (`attachPickedPatient`) are not modelled. The `patient` query parameter is the field `patientParam`.
- RunTest.NewSessionId: its contract states only the "sess-" prefix. What happens to the stamp is stated by `SessionIdShape` and, for stamps in ISO format, by `SessionIdOfIsoStamp`.
