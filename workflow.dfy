/**
 * The approval panels: which rows each area lists as pending, what one
 * recorded decision writes, and the table as a transition system whose steps
 * are submissions and decisions.
 */
module Workflow {
  import opened Layout
  import opened Dates
  import Requests

  /** The "Acción" choice: "Aprobada" or "Rechazada". */
  datatype Decision = Approve | Reject

  function StateText(d: Decision): (s: string)
    ensures s == APROBADA || s == RECHAZADA
    ensures s != PENDIENTE
  {
    match d
    case Approve => APROBADA
    case Reject => RECHAZADA
  }

  function State(row: Row, a: Area): string { row[StateIndex(a)] }
  function Comment(row: Row, a: Area): string { row[StateIndex(a) + 1] }
  function Approver(row: Row, a: Area): string { row[StateIndex(a) + 2] }
  function ReviewDate(row: Row, a: Area): string { row[StateIndex(a) + 3] }

  /** The row masks of `panel_aprobacion`. */
  predicate Eligible(row: Row, a: Area) {
    match a
    case Security => State(row, Security) == PENDIENTE
    case QHS => State(row, Security) == APROBADA && State(row, QHS) == PENDIENTE
    case Logistica =>
      State(row, Security) == APROBADA && State(row, QHS) == APROBADA && State(row, Logistica) == PENDIENTE
  }

  /**
   * The masks are sequential gates: an area lists a row exactly when the row
   * is pending at that area and every earlier area has approved it.
   */
  lemma EligibleIsSequentialGate(row: Row, a: Area)
    ensures Eligible(row, a) <==>
      State(row, a) == PENDIENTE && forall b :: Precedes(b, a) ==> State(row, b) == APROBADA
  {
    if State(row, a) == PENDIENTE && forall b :: Precedes(b, a) ==> State(row, b) == APROBADA {
      if a == Logistica {
        assert Precedes(Security, a) && Precedes(QHS, a);
      } else if a == QHS {
        assert Precedes(Security, a);
      }
    }
  }

  /** A row is actionable by at most one area. */
  lemma EligibleForOneArea(row: Row, a: Area, b: Area)
    requires Eligible(row, a) && Eligible(row, b)
    ensures a == b
  {
  }

  /** A rejection stops the row at that gate: neither it nor any later area lists the row. */
  lemma RejectionBlocksLaterStages(row: Row, a: Area, b: Area)
    requires State(row, a) == RECHAZADA && !Precedes(b, a)
    ensures !Eligible(row, b)
  {
    EligibleIsSequentialGate(row, b);
    if b != a {
      assert Precedes(a, b);
    }
  }

  /** `pendientes`: the indexes of the rows from `i` on that area `a` lists, in table order. */
  function PendingFrom(rows: seq<Row>, a: Area, i: nat): (r: seq<nat>)
    requires i <= |rows|
    ensures forall k :: 0 <= k < |r| ==> i <= r[k] < |rows| && Eligible(rows[r[k]], a)
    ensures forall j :: i <= j < |rows| && Eligible(rows[j], a) ==> j in r
    ensures forall k, m :: 0 <= k < m < |r| ==> r[k] < r[m]
    decreases |rows| - i
  {
    if i == |rows| then []
    else
      var rest := PendingFrom(rows, a, i + 1);
      assert forall j :: i < j < |rows| && Eligible(rows[j], a) ==> j in rest;
      if Eligible(rows[i], a) then [i] + rest else rest
  }

  function Pending(rows: seq<Row>, a: Area): seq<nat> {
    PendingFrom(rows, a, 0)
  }

  /** The panel for an area given by name; a name that is no area lists nothing. */
  function PendingByName(rows: seq<Row>, name: string): (r: seq<nat>)
    ensures forall j: int :: j in r <==> 0 <= j < |rows| && exists a :: Name(a) == name && Eligible(rows[j], a)
  {
    match ParseArea(name)
    case None => []
    case Some(a) => Pending(rows, a)
  }

  /** No row is pending for two areas at once. */
  lemma PendingListsDisjoint(rows: seq<Row>, a: Area, b: Area)
    requires a != b
    ensures forall j :: j in Pending(rows, a) ==> j !in Pending(rows, b)
  {
  }

  /** `update_request` on one row: the area's four cells get the given values. */
  function WriteReview(row: Row, a: Area, estado: string, comentario: string, aprobador: string, fecha: string): Row {
    var s := StateIndex(a);
    row[s := estado][s + 1 := comentario][s + 2 := aprobador][s + 3 := fecha]
  }

  /**
   * A write sets the area's state, comment, approver and review date cells
   * and leaves every other cell of the row, in particular the other areas'
   * blocks, as it was.
   */
  lemma WriteReviewTouchesOnlyItsBlock(row: Row, a: Area, estado: string, comentario: string, aprobador: string, fecha: string)
    ensures var w := WriteReview(row, a, estado, comentario, aprobador, fecha);
      && State(w, a) == estado && Comment(w, a) == comentario
      && Approver(w, a) == aprobador && ReviewDate(w, a) == fecha
      && (forall c :: 0 <= c < WIDTH && !InBlock(c, a) ==> w[c] == row[c])
      && (forall b :: b != a ==>
            State(w, b) == State(row, b) && Comment(w, b) == Comment(row, b)
            && Approver(w, b) == Approver(row, b) && ReviewDate(w, b) == ReviewDate(row, b))
  {
    forall b | b != a {
      BlocksTileTheRow(a, b);
    }
  }

  /** The whole table after `update_request(idx, ...)`. */
  function ApplyReview(rows: seq<Row>, idx: nat, a: Area, estado: string, comentario: string, aprobador: string, fecha: string): seq<Row>
    requires idx < |rows|
  {
    rows[idx := WriteReview(rows[idx], a, estado, comentario, aprobador, fecha)]
  }

  /**
   * The shape every row built by the form keeps: states are one of the three
   * texts, a stage is decided only once every earlier stage approved, an
   * undecided stage has no comment, approver or date, and a decided one names
   * its approver.
   */
  predicate Consistent(row: Row) {
    && (forall a :: State(row, a) == PENDIENTE || State(row, a) == APROBADA || State(row, a) == RECHAZADA)
    && (forall a, b :: Precedes(b, a) && State(row, a) != PENDIENTE ==> State(row, b) == APROBADA)
    && (forall a :: State(row, a) == PENDIENTE ==> Comment(row, a) == "" && Approver(row, a) == "" && ReviewDate(row, a) == "")
    && (forall a :: State(row, a) != PENDIENTE ==> Approver(row, a) != "")
  }

  predicate AllConsistent(rows: seq<Row>) {
    forall i :: 0 <= i < |rows| ==> Consistent(rows[i])
  }

  lemma NewRowConsistent(timestamp: string, f: Requests.Form)
    ensures Consistent(Requests.BuildRow(timestamp, f))
  {
    var row := Requests.BuildRow(timestamp, f);
    forall a ensures State(row, a) == PENDIENTE && Comment(row, a) == "" && Approver(row, a) == "" && ReviewDate(row, a) == "" {
      Requests.NewRowBlocksPending(timestamp, f, a);
      assert row[StateIndex(a)..StateIndex(a) + BLOCK_WIDTH][1] == "";
      assert row[StateIndex(a)..StateIndex(a) + BLOCK_WIDTH][2] == "";
      assert row[StateIndex(a)..StateIndex(a) + BLOCK_WIDTH][3] == "";
    }
  }

  /** A decision recorded on a row its area lists keeps the row consistent. */
  lemma ReviewKeepsConsistent(row: Row, a: Area, d: Decision, aprobador: string, comentario: string, fecha: string)
    requires Consistent(row) && Eligible(row, a) && aprobador != ""
    ensures Consistent(WriteReview(row, a, StateText(d), comentario, aprobador, fecha))
  {
    var w := WriteReview(row, a, StateText(d), comentario, aprobador, fecha);
    WriteReviewTouchesOnlyItsBlock(row, a, StateText(d), comentario, aprobador, fecha);
    EligibleIsSequentialGate(row, a);
    forall c, b | Precedes(b, c) && State(w, c) != PENDIENTE ensures State(w, b) == APROBADA {
      if c == a {
        assert b != a;
      }
    }
  }

  /** One step of the system: a press of "Enviar Solicitud" or of "Registrar acción". */
  datatype Action =
    | Submit(form: Requests.Form, today: CalendarDate, timestamp: string)
    | Review(idx: int, area: Area, decision: Decision, approver: string, comment: string, timestamp: string)

  /** The panel shows a "Registrar acción" button for row `idx` of area `a`. */
  predicate Offered(rows: seq<Row>, idx: int, a: Area) {
    0 <= idx < |rows| && Eligible(rows[idx], a)
  }

  /**
   * The table after one action. A decision for a row the panel does not show
   * cannot be issued and leaves the table as it is; so does an empty
   * approver name, for which the panel only warns.
   */
  function Apply(rows: seq<Row>, act: Action): seq<Row> {
    match act
    case Submit(f, today, ts) =>
      (match Requests.Submit(f, today, ts)
       case Accepted(row) => rows + [row]
       case _ => rows)
    case Review(idx, a, d, approver, comment, ts) =>
      if Offered(rows, idx, a) && approver != ""
      then ApplyReview(rows, idx, a, StateText(d), comment, approver, ts)
      else rows
  }

  function Run(rows: seq<Row>, acts: seq<Action>): seq<Row>
    decreases |acts|
  {
    if acts == [] then rows else Run(Apply(rows, acts[0]), acts[1..])
  }

  lemma ApplyKeepsConsistent(rows: seq<Row>, act: Action)
    requires AllConsistent(rows)
    ensures AllConsistent(Apply(rows, act))
  {
    match act
    case Submit(f, today, ts) =>
      if Requests.Submit(f, today, ts).Accepted? {
        Requests.SubmitAcceptsIffChecksPass(f, today, ts);
        NewRowConsistent(ts, f);
      }
    case Review(idx, a, d, approver, comment, ts) =>
      if Offered(rows, idx, a) && approver != "" {
        ReviewKeepsConsistent(rows[idx], a, d, approver, comment, ts);
      }
  }

  /**
   * Starting from consistent rows, in particular from an empty table, every
   * sequence of submissions and decisions keeps every row consistent: no
   * stage is decided before all earlier stages approved.
   */
  lemma {:induction false} RunKeepsConsistent(rows: seq<Row>, acts: seq<Action>)
    requires AllConsistent(rows)
    ensures AllConsistent(Run(rows, acts))
    decreases |acts|
  {
    if acts != [] {
      ApplyKeepsConsistent(rows, acts[0]);
      RunKeepsConsistent(Apply(rows, acts[0]), acts[1..]);
    }
  }

  /**
   * One action keeps the rows there were, and alters an area's block of a row
   * only while that row is pending at that area: a decided stage keeps its
   * state, comment, approver and date, so no stage returns to "Pendiente".
   */
  lemma ApplyKeepsDecisions(rows: seq<Row>, act: Action, i: nat, a: Area)
    requires i < |rows| && State(rows[i], a) != PENDIENTE
    ensures i < |Apply(rows, act)|
    ensures State(Apply(rows, act)[i], a) == State(rows[i], a)
    ensures Comment(Apply(rows, act)[i], a) == Comment(rows[i], a)
    ensures Approver(Apply(rows, act)[i], a) == Approver(rows[i], a)
    ensures ReviewDate(Apply(rows, act)[i], a) == ReviewDate(rows[i], a)
  {
    match act
    case Submit(f, today, ts) =>
    case Review(idx, b, d, approver, comment, ts) =>
      if Offered(rows, idx, b) && approver != "" && idx == i {
        assert b != a;
        WriteReviewTouchesOnlyItsBlock(rows[i], b, StateText(d), comment, approver, ts);
      }
  }

  lemma {:induction false} RunKeepsDecisions(rows: seq<Row>, acts: seq<Action>, i: nat, a: Area)
    requires i < |rows| && State(rows[i], a) != PENDIENTE
    ensures i < |Run(rows, acts)|
    ensures State(Run(rows, acts)[i], a) == State(rows[i], a)
    ensures Comment(Run(rows, acts)[i], a) == Comment(rows[i], a)
    ensures Approver(Run(rows, acts)[i], a) == Approver(rows[i], a)
    ensures ReviewDate(Run(rows, acts)[i], a) == ReviewDate(rows[i], a)
    decreases |acts|
  {
    if acts != [] {
      ApplyKeepsDecisions(rows, acts[0], i, a);
      RunKeepsDecisions(Apply(rows, acts[0]), acts[1..], i, a);
    }
  }

  predicate HasRejection(row: Row) {
    exists a :: State(row, a) == RECHAZADA
  }

  /** A consistent row with a rejection is listed by no panel. */
  lemma RejectedRowListedNowhere(row: Row, b: Area)
    requires Consistent(row) && HasRejection(row)
    ensures !Eligible(row, b)
  {
    var a :| State(row, a) == RECHAZADA;
    if Precedes(b, a) {
      assert State(row, b) == APROBADA;
    } else {
      RejectionBlocksLaterStages(row, a, b);
    }
  }

  /** Once a consistent row holds a rejection, no later action changes it. */
  lemma {:induction false} RejectedRowFrozen(rows: seq<Row>, acts: seq<Action>, i: nat)
    requires AllConsistent(rows) && i < |rows| && HasRejection(rows[i])
    ensures i < |Run(rows, acts)| && Run(rows, acts)[i] == rows[i]
    decreases |acts|
  {
    if acts != [] {
      var next := Apply(rows, acts[0]);
      match acts[0] {
        case Submit(f, today, ts) =>
        case Review(idx, b, d, approver, comment, ts) =>
          if idx == i {
            RejectedRowListedNowhere(rows[i], b);
          }
      }
      assert next[i] == rows[i];
      ApplyKeepsConsistent(rows, acts[0]);
      RejectedRowFrozen(next, acts[1..], i);
    }
  }

  /**
   * For a consistent row, some panel lists it exactly when it has no
   * rejection and some stage is still pending; a fully approved or rejected
   * row needs no further action.
   */
  lemma ActionableIffOpen(row: Row)
    requires Consistent(row)
    ensures (exists a :: Eligible(row, a)) <==> !HasRejection(row) && exists b :: State(row, b) == PENDIENTE
  {
    if !HasRejection(row) && exists b :: State(row, b) == PENDIENTE {
      if State(row, Security) == PENDIENTE {
        assert Eligible(row, Security);
      } else if State(row, QHS) == PENDIENTE {
        assert Eligible(row, QHS);
      } else {
        assert State(row, Logistica) == PENDIENTE;
        assert Eligible(row, Logistica);
      }
    }
    if exists a :: Eligible(row, a) {
      var a :| Eligible(row, a);
      if HasRejection(row) {
        RejectedRowListedNowhere(row, a);
      }
    }
  }

  /** An empty approver name records nothing. */
  lemma EmptyApproverChangesNothing(rows: seq<Row>, idx: int, a: Area, d: Decision, comment: string, ts: string)
    ensures Apply(rows, Review(idx, a, d, "", comment, ts)) == rows
  {
  }

  /**
   * A recorded decision changes only the four cells of the acting area's
   * block in the decided row; every other cell of the table is unchanged.
   */
  lemma ReviewTouchesOnlyItsCells(rows: seq<Row>, idx: int, a: Area, d: Decision, approver: string, comment: string, ts: string)
    requires Offered(rows, idx, a) && approver != ""
    ensures var next := Apply(rows, Review(idx, a, d, approver, comment, ts));
      && |next| == |rows|
      && State(next[idx], a) == StateText(d) && Comment(next[idx], a) == comment
      && Approver(next[idx], a) == approver && ReviewDate(next[idx], a) == ts
      && (forall i, c :: 0 <= i < |rows| && 0 <= c < WIDTH && !(i == idx && InBlock(c, a)) ==> next[i][c] == rows[i][c])
  {
    WriteReviewTouchesOnlyItsBlock(rows[idx], a, StateText(d), comment, approver, ts);
  }
}
