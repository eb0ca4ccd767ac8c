/** Record types shared by the patient registry and the session engine
    (src/types.ts). Optional TypeScript fields become `Option`. */
module Types {

  datatype Option<+T> = None | Some(value: T) {
    function GetOr(default: T): T {
      match this
      case Some(v) => v
      case None => default
    }
  }

  /** A locally stored patient. `id` is internal only; `code` is the
      anonymous identifier that may appear in exports. */
  datatype Patient = Patient(
    id: string,
    code: string,
    initials: Option<string>,
    birthYear: Option<int>,
    notes: Option<string>,
    createdAt: string)

  /** One completed session, kept per patient. */
  datatype SessionSummary = SessionSummary(
    id: string,
    patientId: string,
    protocolKey: string,
    startedAt: string,
    endedAt: Option<string>)

  /** JavaScript truthiness of an optional string: absent and "" are false. */
  predicate Truthy(s: Option<string>) {
    s.Some? && s.value != ""
  }
}
