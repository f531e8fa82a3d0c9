/**
 * The layout of the "Solicitudes" worksheet: 16 submission columns, then one
 * block of four columns (state, comment, approver, review date) per approving
 * area, in gate order Security, QHS, Logística.
 */
module Layout {
  import opened Wrappers

  const SUBMISSION_WIDTH := 16
  const BLOCK_WIDTH := 4
  const WIDTH := 28

  /** The state texts an approval block holds. */
  const PENDIENTE := "Pendiente"
  const APROBADA := "Aprobada"
  const RECHAZADA := "Rechazada"

  /** One row of the sheet, padded to the sheet's 28 columns as `get_all_values` returns it. */
  type Row = r: seq<string> | |r| == WIDTH witness seq(WIDTH, _ => "")

  datatype Area = Security | QHS | Logistica

  /** The area names the panels pass around. */
  function Name(a: Area): string {
    match a
    case Security => "Security"
    case QHS => "QHS"
    case Logistica => "Logística"
  }

  function ParseArea(name: string): (r: Option<Area>)
    ensures r.Some? ==> Name(r.value) == name
    ensures forall a :: Name(a) == name ==> r == Some(a)
  {
    if name == "Security" then Some(Security)
    else if name == "QHS" then Some(QHS)
    else if name == "Logística" then Some(Logistica)
    else None
  }

  /** The position of an area in the gate order. */
  function Rank(a: Area): nat {
    match a
    case Security => 0
    case QHS => 1
    case Logistica => 2
  }

  /** `b` is a gate that must approve before `a` is reached. */
  predicate Precedes(b: Area, a: Area) {
    Rank(b) < Rank(a)
  }

  /** The 1-based columns `update_request` writes: (state, comment, approver, date). */
  function Columns(a: Area): (int, int, int, int) {
    match a
    case Security => (17, 18, 19, 20)
    case QHS => (21, 22, 23, 24)
    case Logistica => (25, 26, 27, 28)
  }

  /** The 0-based index of an area's state cell in a row. */
  function StateIndex(a: Area): (i: nat)
    ensures i + BLOCK_WIDTH <= WIDTH
    ensures i + 1 == Columns(a).0
  {
    Columns(a).0 - 1
  }

  predicate InBlock(c: int, a: Area) {
    StateIndex(a) <= c < StateIndex(a) + BLOCK_WIDTH
  }

  /**
   * The blocks are four consecutive columns each, lie one after the other in
   * gate order straight after the submission columns, and so never overlap and
   * together cover every column from 17 to 28.
   */
  lemma BlocksTileTheRow(a: Area, b: Area)
    ensures Columns(a).1 == Columns(a).0 + 1 && Columns(a).2 == Columns(a).0 + 2
    ensures Columns(a).3 == Columns(a).0 + 3
    ensures StateIndex(a) == SUBMISSION_WIDTH + BLOCK_WIDTH * Rank(a)
    ensures a != b ==> forall c :: !(InBlock(c, a) && InBlock(c, b))
    ensures forall c :: SUBMISSION_WIDTH <= c < WIDTH <==> InBlock(c, Security) || InBlock(c, QHS) || InBlock(c, Logistica)
  {
  }
}
