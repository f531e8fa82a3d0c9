/**
 * The "Solicitud de Cupo" page: the submitted form, its validation, and the
 * 28-cell row appended to the sheet when validation finds nothing.
 */
module Requests {
  import opened Wrappers
  import opened Dates
  import opened Layout
  import Text
  import Email

  /** The values of the request form, in the order the form asks for them. */
  datatype Form = Form(
    requesterName: string,      // responsable_nombre
    requesterEmail: string,     // responsable_correo
    requestDate: CalendarDate,  // fecha_solicitud
    passengerName: string,      // nombre
    idNumber: string,           // dni
    birthDate: CalendarDate,    // fecha_nacimiento
    gender: string,             // genero
    nationality: string,        // nacionalidad
    origin: string,             // procedencia
    position: string,           // cargo
    company: string,            // empresa
    entryDate: CalendarDate,    // fecha_ingreso
    boardingPlace: string,      // lugar_embarque
    stayDays: string,           // tiempo_permanencia
    notes: string)              // observaciones

  datatype TextField = TextField(name: string, value: string)

  const REQUIRED_LABELS := [
    "Responsable de la solicitud",
    "Correo electrónico del responsable",
    "Nombre completo del pasajero",
    "DNI / CE",
    "Nacionalidad",
    "Procedencia (Ciudad de origen)",
    "Puesto / Cargo",
    "Empresa contratista",
    "Tiempo estimado de permanencia (en días)"]

  /** `campos_texto`: the nine required text fields, in their declared order. */
  function TextFields(f: Form): (fs: seq<TextField>)
    ensures |fs| == |REQUIRED_LABELS|
    ensures forall i :: 0 <= i < |fs| ==> fs[i].name == REQUIRED_LABELS[i]
  {
    [ TextField(REQUIRED_LABELS[0], f.requesterName),
      TextField(REQUIRED_LABELS[1], f.requesterEmail),
      TextField(REQUIRED_LABELS[2], f.passengerName),
      TextField(REQUIRED_LABELS[3], f.idNumber),
      TextField(REQUIRED_LABELS[4], f.nationality),
      TextField(REQUIRED_LABELS[5], f.origin),
      TextField(REQUIRED_LABELS[6], f.position),
      TextField(REQUIRED_LABELS[7], f.company),
      TextField(REQUIRED_LABELS[8], f.stayDays) ]
  }

  /** `not v.strip()`. */
  predicate IsBlank(v: string) {
    Text.Strip(v) == []
  }

  /** `campos_vacios`: the labels of the blank fields, scanning from field `i` on. */
  function MissingFrom(fields: seq<TextField>, i: nat): (r: seq<string>)
    requires i <= |fields|
    ensures |r| <= |fields| - i
    decreases |fields| - i
  {
    if i == |fields| then []
    else if IsBlank(fields[i].value) then [fields[i].name] + MissingFrom(fields, i + 1)
    else MissingFrom(fields, i + 1)
  }

  function MissingLabels(fields: seq<TextField>): seq<string> {
    MissingFrom(fields, 0)
  }

  /**
   * The missing labels are exactly the labels of the blank fields from `i` on,
   * listed in the order the fields are declared: `pos` gives, for each
   * reported label, the position of its field.
   */
  lemma {:induction false} MissingFromInOrder(fields: seq<TextField>, i: nat) returns (pos: seq<nat>)
    requires i <= |fields|
    ensures |pos| == |MissingFrom(fields, i)|
    ensures forall k :: 0 <= k < |pos| ==> i <= pos[k] < |fields| && IsBlank(fields[pos[k]].value)
    ensures forall k :: 0 <= k < |pos| ==> MissingFrom(fields, i)[k] == fields[pos[k]].name
    ensures forall k, m :: 0 <= k < m < |pos| ==> pos[k] < pos[m]
    ensures forall j :: i <= j < |fields| && IsBlank(fields[j].value) ==> j in pos
    decreases |fields| - i
  {
    if i == |fields| {
      pos := [];
    } else {
      var rest := MissingFromInOrder(fields, i + 1);
      var later := MissingFrom(fields, i + 1);
      var here := MissingFrom(fields, i);
      if IsBlank(fields[i].value) {
        pos := [i] + rest;
        assert here == [fields[i].name] + later;
        forall k | 0 <= k < |pos| ensures here[k] == fields[pos[k]].name {
          if k > 0 {
            assert here[k] == later[k - 1] && pos[k] == rest[k - 1];
          }
        }
        forall j | i <= j < |fields| && IsBlank(fields[j].value) ensures j in pos {
          if j > i {
            assert j in rest;
          }
        }
      } else {
        pos := rest;
        assert here == later;
        forall j | i <= j < |fields| && IsBlank(fields[j].value) ensures j in pos {
          assert j != i;
        }
      }
    }
  }

  /** The labels reported missing are those of the blank fields, in declared order. */
  lemma MissingLabelsInOrder(fields: seq<TextField>) returns (pos: seq<nat>)
    ensures |pos| == |MissingLabels(fields)|
    ensures forall k :: 0 <= k < |pos| ==> pos[k] < |fields| && IsBlank(fields[pos[k]].value)
    ensures forall k :: 0 <= k < |pos| ==> MissingLabels(fields)[k] == fields[pos[k]].name
    ensures forall k, m :: 0 <= k < m < |pos| ==> pos[k] < pos[m]
    ensures forall j :: 0 <= j < |fields| && IsBlank(fields[j].value) ==> j in pos
  {
    pos := MissingFromInOrder(fields, 0);
  }

  /** One entry of `errores`. */
  datatype ValidationError =
    | MissingFields(labels: seq<string>)
    | InvalidEmail
    | RequestDateNotToday
    | BirthDateOutOfRange

  /** The position of each kind of error in the list the page shows. */
  function Order(e: ValidationError): nat {
    match e
    case MissingFields(_) => 0
    case InvalidEmail => 1
    case RequestDateNotToday => 2
    case BirthDateOutOfRange => 3
  }

  predicate BirthDateInRange(birth: Date, maxBirth: Date) {
    NotAfter(MIN_BIRTHDATE, birth) && NotAfter(birth, maxBirth)
  }

  /**
   * `errores` from the outcomes of the four checks, each failing check
   * appending its error in the order the checks are made.
   */
  function Collect(missing: seq<string>, emailOk: bool, dateOk: bool, birthOk: bool): seq<ValidationError> {
    (if missing != [] then [MissingFields(missing)] else [])
    + (if !emailOk then [InvalidEmail] else [])
    + (if !dateOk then [RequestDateNotToday] else [])
    + (if !birthOk then [BirthDateOutOfRange] else [])
  }

  /** Each check's error is reported exactly when that check fails. */
  lemma CollectReportsEachFailure(missing: seq<string>, emailOk: bool, dateOk: bool, birthOk: bool)
    ensures var errs := Collect(missing, emailOk, dateOk, birthOk);
      && (MissingFields(missing) in errs <==> missing != [])
      && (InvalidEmail in errs <==> !emailOk)
      && (RequestDateNotToday in errs <==> !dateOk)
      && (BirthDateOutOfRange in errs <==> !birthOk)
  {
  }

  /**
   * The errors come in the order the checks are made, so at most one of each
   * kind, and the missing-fields error carries the labels it was given.
   */
  lemma CollectInCheckOrder(missing: seq<string>, emailOk: bool, dateOk: bool, birthOk: bool)
    ensures var errs := Collect(missing, emailOk, dateOk, birthOk);
      && (forall k, m :: 0 <= k < m < |errs| ==> Order(errs[k]) < Order(errs[m]))
      && (forall k :: 0 <= k < |errs| && errs[k].MissingFields? ==> errs[k] == MissingFields(missing))
  {
  }

  /** `errores`, given today's date and the latest accepted birth date. */
  function Errors(f: Form, today: Date, maxBirth: Date): seq<ValidationError> {
    Collect(MissingLabels(TextFields(f)), Email.IsValid(f.requesterEmail),
            f.requestDate == today, BirthDateInRange(f.birthDate, maxBirth))
  }

  /**
   * The text `st.error` shows for each error. Each message is written as two
   * shorter literals, whose concatenation is the message, because the
   * verifier reads the characters of short literals only.
   */
  function Message(e: ValidationError): string {
    match e
    case MissingFields(labels) =>
      "Completa los siguientes campos " + "obligatorios: " + Text.Join(", ", labels)
    case InvalidEmail =>
      "El correo electrónico no es válido. " + "Ejemplo: nombre@dominio.com"
    case RequestDateNotToday =>
      "La fecha de solicitud " + "debe ser la del día de hoy."
    case BirthDateOutOfRange =>
      "La fecha de nacimiento " + "debe ser entre 1950 y una edad mínima de 18 años."
  }

  /** How each message starts: the first character, and the 13th for the two date messages. */
  lemma MessageStart(e: ValidationError)
    ensures |Message(e)| > 12
    ensures Message(e)[0] == (if e.MissingFields? then 'C' else if e.InvalidEmail? then 'E' else 'L')
    ensures e.RequestDateNotToday? ==> Message(e)[12] == 's'
    ensures e.BirthDateOutOfRange? ==> Message(e)[12] == 'n'
  {
    match e
    case MissingFields(labels) =>
      var prefix := "Completa los siguientes campos " + "obligatorios: ";
      assert Message(e) == prefix + Text.Join(", ", labels);
      assert prefix[0] == 'C';
    case _ =>
  }

  /** Different kinds of error are shown with different messages. */
  lemma MessagesTellKindsApart(e1: ValidationError, e2: ValidationError)
    requires Order(e1) != Order(e2)
    ensures Message(e1) != Message(e2)
  {
    MessageStart(e1);
    MessageStart(e2);
  }

  /** The four approval blocks' initial contents: `["Pendiente", "", "", ""]`. */
  const INITIAL_BLOCK := [PENDIENTE, "", "", ""]

  /** `row`: the submission values, then `extra_cols`. */
  function BuildRow(timestamp: string, f: Form): (row: Row)
  {
    [ timestamp, Format(f.requestDate),
      f.requesterName, f.requesterEmail,
      f.passengerName, f.idNumber, Format(f.birthDate), f.gender, f.nationality,
      f.origin, f.position, f.company, Format(f.entryDate),
      f.boardingPlace, f.stayDays, f.notes ]
    + INITIAL_BLOCK + INITIAL_BLOCK + INITIAL_BLOCK
  }

  /** Every area's block of a new row starts out as `["Pendiente", "", "", ""]`. */
  lemma NewRowBlocksPending(timestamp: string, f: Form, a: Area)
    ensures BuildRow(timestamp, f)[StateIndex(a)..StateIndex(a) + BLOCK_WIDTH] == INITIAL_BLOCK
  {
    var row := BuildRow(timestamp, f);
    assert row[SUBMISSION_WIDTH..] == INITIAL_BLOCK + INITIAL_BLOCK + INITIAL_BLOCK;
  }

  /**
   * The submission columns read back by position, as the panels read them by
   * header: the creation timestamp and the form.
   */
  function ReadSubmission(row: Row): Option<(string, Form)> {
    match (Parse(row[1]), Parse(row[6]), Parse(row[12]))
    case (Some(requested), Some(born), Some(entry)) =>
      assert IsValidDate(requested) && IsValidDate(born) && IsValidDate(entry);
      Some((row[0], Form(row[2], row[3], requested, row[4], row[5], born, row[7], row[8],
                         row[9], row[10], row[11], entry, row[13], row[14], row[15])))
    case _ => None
  }

  /** The first 16 cells of a new row hold the timestamp and every form value, in order. */
  lemma ReadSubmissionBuildRow(timestamp: string, f: Form)
    ensures ReadSubmission(BuildRow(timestamp, f)) == Some((timestamp, f))
  {
    ParseFormat(f.requestDate);
    ParseFormat(f.birthDate);
    ParseFormat(f.entryDate);
  }

  /** What pressing "Enviar Solicitud" results in. */
  datatype Outcome =
    | PageError                                // `date(today.year - 18, ...)` raised
    | Refused(errors: seq<ValidationError>)    // the errors are shown, nothing is saved
    | Accepted(row: Row)                       // the row is appended to the sheet

  function Submit(f: Form, today: CalendarDate, timestamp: string): Outcome
  {
    match EighteenYearsBefore(today)
    case None => PageError
    case Some(maxBirth) =>
      var errs := Errors(f, today, maxBirth);
      if errs == [] then Accepted(BuildRow(timestamp, f)) else Refused(errs)
  }

  /** Nothing is reported missing exactly when no field is blank. */
  lemma NothingMissingIffNoneBlank(fields: seq<TextField>)
    ensures MissingLabels(fields) == [] <==> forall i :: 0 <= i < |fields| ==> !IsBlank(fields[i].value)
  {
    var pos := MissingLabelsInOrder(fields);
    if MissingLabels(fields) != [] {
      assert IsBlank(fields[pos[0]].value);
    }
  }

  /**
   * A request is saved exactly when every check passes: no required field is
   * blank, the address is well formed, the request is dated today and the
   * birth date lies between 1950-01-01 and today eighteen years ago. The row
   * saved is then the one built from the form.
   */
  lemma SubmitAcceptsIffChecksPass(f: Form, today: CalendarDate, timestamp: string)
    ensures Submit(f, today, timestamp).Accepted? <==>
      && EighteenYearsBefore(today).Some?
      && (forall i :: 0 <= i < |TextFields(f)| ==> !IsBlank(TextFields(f)[i].value))
      && Email.IsValid(f.requesterEmail)
      && f.requestDate == today
      && BirthDateInRange(f.birthDate, EighteenYearsBefore(today).value)
    ensures Submit(f, today, timestamp).Accepted? ==> Submit(f, today, timestamp).row == BuildRow(timestamp, f)
    ensures Submit(f, today, timestamp).Refused? ==> Submit(f, today, timestamp).errors != []
  {
    NothingMissingIffNoneBlank(TextFields(f));
    if EighteenYearsBefore(today).Some? {
      var missing := MissingLabels(TextFields(f));
      var errs := Errors(f, today, EighteenYearsBefore(today).value);
      assert errs == [] <==> (missing == [] && Email.IsValid(f.requesterEmail)
        && f.requestDate == today && BirthDateInRange(f.birthDate, EighteenYearsBefore(today).value)) by {
        if missing != [] {
          assert MissingFields(missing) in errs;
        }
      }
    }
  }
}
