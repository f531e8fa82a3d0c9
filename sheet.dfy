/**
 * The "Solicitudes" worksheet as the page uses it: a header row followed by
 * one row per request, read whole, appended to, and written cell by cell at
 * 1-based (row, column) positions.
 */
module Sheet {
  import opened Layout
  import opened Dates
  import Requests
  import Workflow

  /** Rewriting one request's block leaves every other cell of the sheet as it was. */
  lemma SheetRowFrame(header: Row, rows: seq<Row>, rowIdx: nat, area: Area,
                      estado: string, comentario: string, aprobador: string, fecha: string)
    requires rowIdx < |rows|
    ensures var before, after := [header] + rows, [header] + Workflow.ApplyReview(rows, rowIdx, area, estado, comentario, aprobador, fecha);
      && |after| == |before|
      && forall r, c :: 0 <= r < |after| && 0 <= c < WIDTH && !(r == rowIdx + 1 && InBlock(c, area)) ==>
           after[r][c] == before[r][c]
  {
    var after := Workflow.ApplyReview(rows, rowIdx, area, estado, comentario, aprobador, fecha);
    Workflow.WriteReviewTouchesOnlyItsBlock(rows[rowIdx], area, estado, comentario, aprobador, fecha);
    forall r, c | 0 <= r < |after| + 1 && 0 <= c < WIDTH && !(r == rowIdx + 1 && InBlock(c, area))
      ensures ([header] + after)[r][c] == ([header] + rows)[r][c]
    {
      if r > 0 {
        assert ([header] + after)[r] == after[r - 1];
        assert ([header] + rows)[r] == rows[r - 1];
      }
    }
  }

  class Worksheet {
    var header: Row
    var rows: seq<Row>

    /** `get_all_values()`: the header, then the request rows. */
    function AllValues(): (v: seq<Row>)
      reads this
      ensures |v| == |rows| + 1 && v[0] == header
      ensures forall i :: 0 <= i < |rows| ==> v[i + 1] == rows[i]
    {
      [header] + rows
    }

    constructor (header: Row)
      ensures this.header == header && rows == []
    {
      this.header := header;
      rows := [];
    }

    /** `get_all_requests()`: DataFrame row `idx` is sheet row `idx + 2`. */
    method GetAllRequests() returns (df: seq<Row>)
      ensures df == AllValues()[1..]
      ensures forall idx :: 0 <= idx < |df| ==> df[idx] == AllValues()[(idx + 2) - 1]
    {
      df := rows;
      assert AllValues()[1..] == rows;
    }

    /** `ws.update_cell(r, c, value)` with 1-based row and column. */
    method UpdateCell(r: int, c: int, value: string)
      requires 1 <= r <= |rows| + 1 && 1 <= c <= WIDTH
      modifies this
      ensures AllValues() == old(AllValues())[r - 1 := old(AllValues())[r - 1][c - 1 := value]]
      ensures r == 1 ==> rows == old(rows) && header == old(header)[c - 1 := value]
      ensures r > 1 ==> header == old(header) && rows == old(rows)[r - 2 := old(rows)[r - 2][c - 1 := value]]
    {
      if r == 1 {
        header := header[c - 1 := value];
      } else {
        rows := rows[r - 2 := rows[r - 2][c - 1 := value]];
      }
    }

    /** `ws.append_row(row)`. */
    method AppendRow(row: Row)
      modifies this
      ensures header == old(header) && rows == old(rows) + [row]
    {
      rows := rows + [row];
    }

    /**
     * `update_request`: four `update_cell` writes at sheet row `rowIdx + 2`,
     * into the area's state, comment, approver and date columns.
     */
    method UpdateRequest(rowIdx: int, area: Area, estado: string, aprobador: string, comentario: string, fechaRevision: string)
      requires 0 <= rowIdx < |rows|
      modifies this
      ensures header == old(header)
      ensures rows == Workflow.ApplyReview(old(rows), rowIdx, area, estado, comentario, aprobador, fechaRevision)
      ensures |AllValues()| == |old(AllValues())|
      ensures forall r, c :: 0 <= r < |AllValues()| && 0 <= c < WIDTH && !(r == rowIdx + 1 && InBlock(c, area)) ==>
        AllValues()[r][c] == old(AllValues())[r][c]
    {
      var (colEstado, colComent, colAprobador, colFecha) := Columns(area);
      ghost var before := rows;
      ghost var s := StateIndex(area);
      UpdateCell(rowIdx + 2, colEstado, estado);
      assert rows == before[rowIdx := before[rowIdx][s := estado]];
      UpdateCell(rowIdx + 2, colComent, comentario);
      assert rows == before[rowIdx := before[rowIdx][s := estado][s + 1 := comentario]];
      UpdateCell(rowIdx + 2, colAprobador, aprobador);
      assert rows == before[rowIdx := before[rowIdx][s := estado][s + 1 := comentario][s + 2 := aprobador]];
      UpdateCell(rowIdx + 2, colFecha, fechaRevision);
      assert rows == Workflow.ApplyReview(before, rowIdx, area, estado, comentario, aprobador, fechaRevision);
      SheetRowFrame(header, before, rowIdx, area, estado, comentario, aprobador, fechaRevision);
    }

    /**
     * Pressing "Enviar Solicitud": the form is checked and, when nothing is
     * wrong, its row is appended.
     */
    method SubmitRequest(f: Requests.Form, today: CalendarDate, timestamp: string) returns (outcome: Requests.Outcome)
      modifies this
      ensures outcome == Requests.Submit(f, today, timestamp)
      ensures header == old(header)
      ensures rows == Workflow.Apply(old(rows), Workflow.Submit(f, today, timestamp))
      ensures outcome.Accepted? ==> rows == old(rows) + [Requests.BuildRow(timestamp, f)]
      ensures !outcome.Accepted? ==> rows == old(rows)
    {
      outcome := Requests.Submit(f, today, timestamp);
      Requests.SubmitAcceptsIffChecksPass(f, today, timestamp);
      if outcome.Accepted? {
        AppendRow(outcome.row);
      }
    }

    /**
     * Pressing "Registrar acción" on row `idx` of area `area`'s panel, which
     * lists only that area's pending rows: with an approver name the decision
     * is written, without one nothing is.
     */
    method RegisterAction(idx: int, area: Area, decision: Workflow.Decision, aprobador: string, comentario: string,
                          fechaRevision: string) returns (recorded: bool)
      requires Workflow.Offered(rows, idx, area)
      modifies this
      ensures recorded <==> aprobador != ""
      ensures header == old(header)
      ensures rows == Workflow.Apply(old(rows), Workflow.Review(idx, area, decision, aprobador, comentario, fechaRevision))
    {
      if aprobador == "" {
        recorded := false;
      } else {
        UpdateRequest(idx, area, Workflow.StateText(decision), aprobador, comentario, fechaRevision);
        recorded := true;
      }
    }
  }
}
