/** The entities of the athletics results engine: athletes, track lanes,
    field attempts and entries, and the configured sport event. */
module Types {

  /** A value that may be missing (`null` or `undefined` in the application). */
  datatype Option<+T> = None | Some(value: T)

  /** The result status of a lane or a field entry. */
  datatype Status = OK | DNS | DNF | DQ

  /** An athlete: an opaque identity, a display name and optional metadata. */
  datatype Athlete = Athlete(id: string, name: string, bib: Option<string>, country: Option<string>)

  /** One lane of a track race: its 1-based number, who runs in it and the
      recorded time in milliseconds, if any. */
  datatype LaneAssignment = LaneAssignment(
    lane: int,
    athlete: Option<Athlete>,
    timeMs: Option<int>,
    status: Status)

  /** One trial of a field event: a measured distance or a foul. */
  datatype Attempt = Attempt(
    id: string,
    attemptNumber: int,
    valueMeters: Option<real>,
    foul: bool)

  /** One athlete's row in a field event, with the cached best mark. */
  datatype FieldEntry = FieldEntry(
    athlete: Athlete,
    attempts: seq<Attempt>,
    best: Option<real>,
    status: Status)

  datatype EventKind = Track | Field | Combined | Walk | Marathon

  datatype Phase = Heats | Semifinal | Final | Qualification | Finals | Single

  /** A numeric field of a created event: left unset (`undefined` or `null`,
      whichever the field uses), the IEEE value NaN that a failed parse
      produces, or a number. */
  datatype NumField<+T> = Absent | NaN | Num(value: T)

  datatype QualificationRule = QualificationRule(byPlace: NumField<int>, byTime: Option<real>)

  /** A configured event, built once by the setup form. */
  datatype SportEvent = SportEvent(
    id: string,
    name: string,
    kind: EventKind,
    discipline: string,
    phase: Option<Phase>,
    lanes: NumField<int>,
    attemptsPerAthlete: NumField<int>,
    distanceMeters: Option<real>,
    windLegalLimit: NumField<real>,
    qualification: Option<QualificationRule>,
    participants: seq<Athlete>,
    notes: Option<string>)
}
