/** The ledger window's state and its operations (`GestorCompras`): the
    `compras` table with its AUTOINCREMENT id counter, the date being shown,
    and the on-screen table and total that every operation refreshes. */
module Ledger {
  import opened Wrappers
  import opened Text
  import opened Months
  import opened Calendar
  import opened MonthView

  // ---------------------------------------------------------------------------
  // The table and its invariant
  // ---------------------------------------------------------------------------

  /** Ids in table order strictly increase, so no id occurs twice. The table
      is kept in insertion order, which is the order a plain scan of this
      AUTOINCREMENT table returns (the query itself has no ORDER BY). */
  predicate IdsIncreasing(cs: seq<Compra>) {
    forall k, l :: 0 <= k < l < |cs| ==> cs[k].id < cs[l].id
  }

  /** The values agregar_compra inserts, apart from the id and the creation date. */
  datatype Draft = Draft(descripcion: string, monto: int, tipo: string,
                         mesDesde: Option<string>, mesHasta: Option<string>)

  function DraftOf(c: Compra): Draft {
    Draft(c.descripcion, c.monto, c.tipo, c.mesDesde, c.mesHasta)
  }

  /** The row `INSERT INTO compras` writes for an accepted form. */
  function NewRow(id: int, d: Draft, hoy: string): Compra {
    Compra(id, d.descripcion, d.monto, d.tipo, d.mesDesde, d.mesHasta, hoy)
  }

  /** What agregar_compra guarantees of every row it writes: a stripped,
      non-blank description; for "cuotas" two stripped, non-blank bounds; for
      any other type no bounds at all. */
  predicate WellFormed(d: Draft) {
    && d.descripcion != [] && IsStripped(d.descripcion)
    && (d.tipo == "cuotas" ==>
          && d.mesDesde.Some? && d.mesDesde.value != [] && IsStripped(d.mesDesde.value)
          && d.mesHasta.Some? && d.mesHasta.value != [] && IsStripped(d.mesHasta.value))
    && (d.tipo != "cuotas" ==> d.mesDesde.None? && d.mesHasta.None?)
  }

  /** The table together with its AUTOINCREMENT counter `lastId` (the largest
      id ever issued) and the ghost set of every id ever issued. */
  ghost predicate TableInvariant(cs: seq<Compra>, lastId: int, issued: set<int>) {
    && lastId >= 0
    && (forall i :: i in issued ==> 1 <= i <= lastId)
    && (forall k :: 0 <= k < |cs| ==> cs[k].id in issued && WellFormed(DraftOf(cs[k])))
    && IdsIncreasing(cs)
  }

  /** `fecha_actual.strftime("%m/%Y")`. */
  function MesActual(d: Date): (s: string)
    requires ValidDate(d)
    ensures ParseMonth(s) == Some(MonthOf(d))
  {
    ParseFormatRoundTrip(MonthOf(d));
    FormatMonth(MonthOf(d))
  }

  // ---------------------------------------------------------------------------
  // agregar_compra: validation
  // ---------------------------------------------------------------------------

  /** Why agregar_compra warned the user and inserted nothing. */
  datatype AddError = MissingDescriptionOrAmount | AmountNotANumber | MissingInstallmentDates


  /** The checks agregar_compra makes before inserting, in its order.
      `montoValue` is what `float()` made of the stripped amount text, None
      where it raised ValueError. */
  function Validate(descText: string, montoText: string, montoValue: Option<int>,
                    tipo: string, desdeText: string, hastaText: string): (r: Result<Draft, AddError>)
    ensures r.Success? ==> WellFormed(r.value)
  {
    var desc := Strip(descText);
    var monto := Strip(montoText);
    if desc == [] || monto == [] then Failure(MissingDescriptionOrAmount)
    else if montoValue.None? then Failure(AmountNotANumber)
    else if tipo == "cuotas" then
      var desde := Strip(desdeText);
      var hasta := Strip(hastaText);
      if desde == [] || hasta == [] then Failure(MissingInstallmentDates)
      else Success(Draft(desc, montoValue.value, tipo, Some(desde), Some(hasta)))
    else Success(Draft(desc, montoValue.value, tipo, None, None))
  }

  /** The form is refused exactly when the description or the amount is blank,
      the amount is not a number, or an installment purchase lacks a bound. */
  lemma ValidateRejectsIff(descText: string, montoText: string, montoValue: Option<int>,
                           tipo: string, desdeText: string, hastaText: string)
    ensures Validate(descText, montoText, montoValue, tipo, desdeText, hastaText).Failure? <==>
      || IsBlank(descText) || IsBlank(montoText) || montoValue.None?
      || (tipo == "cuotas" && (IsBlank(desdeText) || IsBlank(hastaText)))
  {
  }

  /** An accepted form yields a well-formed row: the stripped texts, the
      converted amount, the type as given, and bounds only for "cuotas". */
  lemma ValidateAccepts(descText: string, montoText: string, montoValue: Option<int>,
                        tipo: string, desdeText: string, hastaText: string)
    requires Validate(descText, montoText, montoValue, tipo, desdeText, hastaText).Success?
    ensures var d := Validate(descText, montoText, montoValue, tipo, desdeText, hastaText).value;
      && montoValue == Some(d.monto) && d.tipo == tipo && d.descripcion == Strip(descText)
      && (tipo == "cuotas" ==> d.mesDesde == Some(Strip(desdeText)) && d.mesHasta == Some(Strip(hastaText)))
      && (tipo != "cuotas" ==> d.mesDesde.None? && d.mesHasta.None?)
  {
  }

  /** Negative amounts are accepted: the amount is not checked beyond being
      a number. */
  lemma NegativeAmountAccepted(descText: string, montoText: string, monto: int, tipo: string,
                               desdeText: string, hastaText: string)
    requires monto < 0 && !IsBlank(descText) && !IsBlank(montoText) && tipo == "fijo"
    ensures Validate(descText, montoText, Some(monto), tipo, desdeText, hastaText) ==
      Success(Draft(Strip(descText), monto, "fijo", None, None))
  {
  }

  /** Installment bounds are stored without checking that they are "MM/YYYY"
      tokens: any two non-blank bounds are accepted as typed, stripped (such
      a row is then never shown, by MalformedInstallmentNeverShown). */
  lemma BoundsNotChecked(descText: string, montoText: string, monto: int, desdeText: string, hastaText: string)
    requires !IsBlank(descText) && !IsBlank(montoText) && !IsBlank(desdeText) && !IsBlank(hastaText)
    ensures Validate(descText, montoText, Some(monto), "cuotas", desdeText, hastaText) ==
      Success(Draft(Strip(descText), monto, "cuotas", Some(Strip(desdeText)), Some(Strip(hastaText))))
  {
  }

  // ---------------------------------------------------------------------------
  // eliminar_compra: DELETE FROM compras WHERE id = ?
  // ---------------------------------------------------------------------------

  function RemoveId(cs: seq<Compra>, id: int): (r: seq<Compra>)
    ensures |r| <= |cs|
    ensures forall k :: 0 <= k < |r| ==> r[k].id != id
  {
    if cs == [] then []
    else (if cs[0].id == id then [] else [cs[0]]) + RemoveId(cs[1..], id)
  }

  /** Deleting keeps exactly the rows with another id. */
  lemma {:induction false} RemoveIdKeepsOthers(cs: seq<Compra>, id: int)
    ensures forall c :: c in RemoveId(cs, id) <==> c in cs && c.id != id
  {
    if cs != [] {
      RemoveIdKeepsOthers(cs[1..], id);
      assert cs == [cs[0]] + cs[1..];
    }
  }

  /** Deleting an id that no row has leaves the table unchanged. */
  lemma {:induction false} RemoveAbsentId(cs: seq<Compra>, id: int)
    requires forall k :: 0 <= k < |cs| ==> cs[k].id != id
    ensures RemoveId(cs, id) == cs
  {
    if cs != [] {
      RemoveAbsentId(cs[1..], id);
      assert cs == [cs[0]] + cs[1..];
    }
  }

  /** In a table with distinct ids, deleting the id of row k removes that row
      and nothing else, and keeps the order of the others. */
  lemma {:induction false} RemovePresentId(cs: seq<Compra>, k: int)
    requires IdsIncreasing(cs) && 0 <= k < |cs|
    ensures RemoveId(cs, cs[k].id) == cs[..k] + cs[k + 1..]
  {
    var id := cs[k].id;
    if k == 0 {
      RemoveAbsentId(cs[1..], id);
    } else {
      RemovePresentId(cs[1..], k - 1);
      assert cs[1..][k - 1] == cs[k];
      assert cs[..k] == [cs[0]] + cs[1..][..k - 1];
      assert cs[k + 1..] == cs[1..][k..];
    }
  }

  lemma {:induction false} RemoveIdKeepsInvariant(cs: seq<Compra>, lastId: int, issued: set<int>, id: int)
    requires TableInvariant(cs, lastId, issued)
    ensures TableInvariant(RemoveId(cs, id), lastId, issued)
  {
    if k :| 0 <= k < |cs| && cs[k].id == id {
      RemovePresentId(cs, k);
      var r := cs[..k] + cs[k + 1..];
      forall j | 0 <= j < |r|
        ensures r[j] == cs[if j < k then j else j + 1]
      {
      }
      assert IdsIncreasing(r) by {
        forall a, b | 0 <= a < b < |r|
          ensures r[a].id < r[b].id
        {
          assert r[a] == cs[if a < k then a else a + 1];
          assert r[b] == cs[if b < k then b else b + 1];
        }
      }
    } else {
      RemoveAbsentId(cs, id);
    }
  }

  /** The next id AUTOINCREMENT issues is greater than every id ever issued,
      so in particular it is not the id of any row. */
  lemma FreshIdIsNew(cs: seq<Compra>, lastId: int, issued: set<int>)
    requires TableInvariant(cs, lastId, issued)
    ensures lastId + 1 !in issued
    ensures forall i :: i in issued ==> i < lastId + 1
    ensures forall k :: 0 <= k < |cs| ==> cs[k].id < lastId + 1
  {
  }

  // ---------------------------------------------------------------------------
  // The window's state
  // ---------------------------------------------------------------------------

  class Gestor {
    /** The rows of `compras`, in id order. */
    var compras: seq<Compra>
    /** The AUTOINCREMENT counter: the largest id ever issued. */
    var lastId: int
    /** Every id ever issued, deleted ones included. */
    ghost var issued: set<int>
    /** `fecha_actual`, the date whose month is shown. */
    var fechaActual: Date
    /** The rows of the on-screen table, and the total label's amount. */
    var tree: seq<ViewRow>
    var total: int

    /** The table keeps its invariant, the date is a real date, and the screen
        shows the view and total of that date's month. */
    ghost predicate Valid()
      reads this
    {
      && TableInvariant(compras, lastId, issued)
      && ValidDate(fechaActual)
      && tree == View(compras, MesActual(fechaActual))
      && total == Total(compras, MesActual(fechaActual))
    }

    /** `__init__` on a new database file: an empty table, today's date, and
        the (empty) view of today's month. */
    constructor (today: Date)
      requires ValidDate(today)
      ensures Valid()
      ensures compras == [] && lastId == 0 && issued == {} && fechaActual == today
      ensures tree == [] && total == 0
    {
      compras := [];
      lastId := 0;
      issued := {};
      fechaActual := today;
      tree := [];
      total := 0;
    }

    /** `actualizar_vista`: re-read the table and redraw the month's rows and total. */
    method Refresh()
      requires TableInvariant(compras, lastId, issued) && ValidDate(fechaActual)
      modifies this`tree, this`total
      ensures Valid()
      ensures compras == old(compras) && lastId == old(lastId) && issued == old(issued)
      ensures fechaActual == old(fechaActual)
    {
      var shown, sum := ScanMonth(compras, MesActual(fechaActual));
      tree, total := shown, sum;
    }

    /** `INSERT INTO compras` followed by `actualizar_vista`: one row with the
        next AUTOINCREMENT id is appended, and it appears at the end of the
        view, adding its amount to the total, exactly when it applies to the
        month shown. */
    method Insert(d: Draft, hoy: string) returns (id: int)
      requires Valid() && WellFormed(d)
      modifies this
      ensures Valid()
      ensures id == old(lastId) + 1 && id !in old(issued)
      ensures lastId == id && issued == old(issued) + {id}
      ensures compras == old(compras) + [NewRow(id, d, hoy)]
      ensures fechaActual == old(fechaActual)
      ensures var row, mes := NewRow(id, d, hoy), MesActual(fechaActual);
        && tree == old(tree) + (if Included(row, mes) then [Shown(row, mes)] else [])
        && total == old(total) + (if Included(row, mes) then row.monto else 0)
    {
      id := lastId + 1;
      var row := NewRow(id, d, hoy);
      ghost var before := compras;
      Append(row);
      Refresh();
      ViewSnoc(before, row, MesActual(fechaActual));
    }

    /** The `INSERT` itself: the row, carrying the next id, goes at the end of
        the table and its id joins the issued ones. */
    method Append(row: Compra)
      requires TableInvariant(compras, lastId, issued)
      requires row.id == lastId + 1 && WellFormed(DraftOf(row))
      modifies this`compras, this`lastId, this`issued
      ensures TableInvariant(compras, lastId, issued)
      ensures row.id !in old(issued)
      ensures compras == old(compras) + [row] && lastId == row.id && issued == old(issued) + {row.id}
    {
      FreshIdIsNew(compras, lastId, issued);
      ghost var before := compras;
      compras := compras + [row];
      lastId := row.id;
      issued := issued + {row.id};
      assert forall k :: 0 <= k < |before| ==> compras[k] == before[k];
    }

    /** `agregar_compra`. A refused form changes nothing and the reason is
        returned; an accepted one is inserted as Insert describes and its new
        id is returned. */
    method Add(descText: string, montoText: string, montoValue: Option<int>,
               tipo: string, desdeText: string, hastaText: string, hoy: string)
      returns (r: Result<int, AddError>)
      requires Valid()
      modifies this
      ensures Valid()
      ensures fechaActual == old(fechaActual)
      ensures var v := Validate(descText, montoText, montoValue, tipo, desdeText, hastaText);
        v.Failure? ==>
        && r == Failure(v.error)
        && compras == old(compras) && lastId == old(lastId) && issued == old(issued)
        && tree == old(tree) && total == old(total)
      ensures var v := Validate(descText, montoText, montoValue, tipo, desdeText, hastaText);
        v.Success? ==>
        && r == Success(old(lastId) + 1) && lastId == old(lastId) + 1
        && old(lastId) + 1 !in old(issued) && issued == old(issued) + {old(lastId) + 1}
        && compras == old(compras) + [NewRow(old(lastId) + 1, v.value, hoy)]
    {
      var v := Validate(descText, montoText, montoValue, tipo, desdeText, hastaText);
      if v.Failure? {
        return Failure(v.error);
      }
      var id := Insert(v.value, hoy);
      r := Success(id);
    }

    /** `eliminar_compra` once a row is selected and the deletion confirmed:
        the rows with that id go, nothing else changes, and the view is
        refreshed. The counter is untouched, so the id is never issued again. */
    method Delete(id: int)
      requires Valid()
      modifies this
      ensures Valid()
      ensures compras == RemoveId(old(compras), id)
      ensures forall k :: 0 <= k < |compras| ==> compras[k].id != id
      ensures lastId == old(lastId) && issued == old(issued) && fechaActual == old(fechaActual)
    {
      RemoveIdKeepsInvariant(compras, lastId, issued, id);
      compras := RemoveId(compras, id);
      Refresh();
    }

    /** `mes_anterior`: move to the last day of the previous month and refresh.
        Before January of year 1 `datetime` raises OverflowError; then nothing
        changes and the result is false. */
    method ShowPreviousMonth() returns (ok: bool)
      requires Valid()
      modifies this
      ensures Valid()
      ensures ok <==> PreviousMonth(old(fechaActual)).Some?
      ensures fechaActual == if ok then PreviousMonth(old(fechaActual)).value else old(fechaActual)
      ensures compras == old(compras) && lastId == old(lastId) && issued == old(issued)
      ensures !ok ==> tree == old(tree) && total == old(total)
    {
      var p := PreviousMonth(fechaActual);
      if p.None? {
        return false;
      }
      ShowDate(p.value);
      ok := true;
    }

    /** `mes_siguiente`: move to the first day of the next month and refresh.
        After December 9999 `datetime` raises OverflowError; then nothing
        changes and the result is false. */
    method ShowNextMonth() returns (ok: bool)
      requires Valid()
      modifies this
      ensures Valid()
      ensures ok <==> NextMonth(old(fechaActual)).Some?
      ensures fechaActual == if ok then NextMonth(old(fechaActual)).value else old(fechaActual)
      ensures compras == old(compras) && lastId == old(lastId) && issued == old(issued)
      ensures !ok ==> tree == old(tree) && total == old(total)
    {
      var n := NextMonth(fechaActual);
      if n.None? {
        return false;
      }
      ShowDate(n.value);
      ok := true;
    }

    /** Set `fecha_actual` and call `actualizar_vista`: the step the three
        navigation buttons share. */
    method ShowDate(d: Date)
      requires Valid() && ValidDate(d)
      modifies this
      ensures Valid()
      ensures fechaActual == d
      ensures compras == old(compras) && lastId == old(lastId) && issued == old(issued)
    {
      fechaActual := d;
      Refresh();
    }

    /** `ir_hoy`: show today's date, given by the caller in place of `datetime.now()`. */
    method ShowToday(today: Date)
      requires Valid() && ValidDate(today)
      modifies this
      ensures Valid()
      ensures fechaActual == today
      ensures compras == old(compras) && lastId == old(lastId) && issued == old(issued)
    {
      ShowDate(today);
    }
  }
}
