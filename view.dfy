/** The monthly view (`actualizar_vista`): which rows of the `compras` table
    apply to the month being shown, the period label each one gets, and the
    total of their amounts. */
module MonthView {
  import opened Wrappers
  import opened Months

  /** One row of the `compras` table: id, descripcion, monto, tipo, mes_desde,
      mes_hasta, fecha_creacion. Amounts are whole numbers of the smallest
      currency unit. `tipo` is free text; the form only ever writes "fijo" or
      "cuotas". */
  datatype Compra = Compra(id: int, descripcion: string, monto: int, tipo: string,
                           mesDesde: Option<string>, mesHasta: Option<string>,
                           fechaCreacion: string)

  /** One line of the table on screen, tagged with the id of its record. */
  datatype ViewRow = ViewRow(id: int, descripcion: string, monto: int, tipo: string, periodo: string)

  /** The `incluir` / `periodo_texto` decision for one record: None when the
      record is left out, otherwise the period label it is shown with. */
  function Period(c: Compra, mesActual: string): (p: Option<string>)
    ensures p.Some? ==> c.tipo == "fijo" || c.tipo == "cuotas"
    ensures p.Some? && c.tipo == "cuotas" ==>
      c.mesDesde.Some? && c.mesHasta.Some? && ParseMonth(mesActual).Some?
      && ParseMonth(c.mesDesde.value).Some? && ParseMonth(c.mesHasta.value).Some?
  {
    if c.tipo == "fijo" then Some("Fijo")
    else if c.tipo == "cuotas" && MonthInRange(mesActual, c.mesDesde, c.mesHasta) then
      Some(c.mesDesde.value + " - " + c.mesHasta.value)
    else None
  }

  predicate Included(c: Compra, mesActual: string)
    ensures Included(c, mesActual) ==> c.tipo == "fijo" || c.tipo == "cuotas"
  {
    Period(c, mesActual).Some?
  }

  function Shown(c: Compra, mesActual: string): ViewRow
    requires Included(c, mesActual)
  {
    ViewRow(c.id, c.descripcion, c.monto, c.tipo, Period(c, mesActual).value)
  }

  /** The rows shown for the month, in table order. */
  function View(cs: seq<Compra>, mesActual: string): (v: seq<ViewRow>)
    ensures |v| <= |cs|
  {
    if cs == [] then []
    else
      var last := cs[|cs| - 1];
      View(cs[..|cs| - 1], mesActual) + (if Included(last, mesActual) then [Shown(last, mesActual)] else [])
  }

  /** The total shown for the month. */
  function Total(cs: seq<Compra>, mesActual: string): (t: int)
    ensures (forall i :: 0 <= i < |cs| ==> cs[i].monto >= 0) ==> t >= 0
  {
    if cs == [] then 0
    else
      var last := cs[|cs| - 1];
      Total(cs[..|cs| - 1], mesActual) + (if Included(last, mesActual) then last.monto else 0)
  }

  function SumMontos(rows: seq<ViewRow>): int {
    if rows == [] then 0 else SumMontos(rows[..|rows| - 1]) + rows[|rows| - 1].monto
  }

  /** The scan of `actualizar_vista`: one pass over the rows that appends each
      included record to the on-screen table and adds its amount to the total. */
  method ScanMonth(compras: seq<Compra>, mesActual: string) returns (shown: seq<ViewRow>, total: int)
    ensures shown == View(compras, mesActual)
    ensures total == Total(compras, mesActual)
  {
    shown, total := [], 0;
    for i := 0 to |compras|
      invariant shown == View(compras[..i], mesActual)
      invariant total == Total(compras[..i], mesActual)
    {
      var compra := compras[i];
      var incluir := false;
      var periodoTexto := "";
      if compra.tipo == "fijo" {
        incluir := true;
        periodoTexto := "Fijo";
      } else if compra.tipo == "cuotas" {
        if MonthInRange(mesActual, compra.mesDesde, compra.mesHasta) {
          incluir := true;
          periodoTexto := compra.mesDesde.value + " - " + compra.mesHasta.value;
        }
      }
      if incluir {
        shown := shown + [ViewRow(compra.id, compra.descripcion, compra.monto, compra.tipo, periodoTexto)];
        total := total + compra.monto;
      }
      assert compras[..i + 1][..i] == compras[..i];
    }
    assert compras[..|compras|] == compras;
  }

  // ---------------------------------------------------------------------------
  // The inclusion rule
  // ---------------------------------------------------------------------------

  /** A fixed expense is shown in every month, labelled "Fijo". */
  lemma FixedAlwaysShown(c: Compra, mesActual: string)
    requires c.tipo == "fijo"
    ensures Included(c, mesActual) && Shown(c, mesActual).periodo == "Fijo"
  {
  }

  /** An installment purchase is shown exactly when the month lies between its
      bounds, inclusive, and is labelled "<desde> - <hasta>". */
  lemma InstallmentShownIff(c: Compra, mesActual: string)
    requires c.tipo == "cuotas"
    ensures Included(c, mesActual) <==> MonthInRange(mesActual, c.mesDesde, c.mesHasta)
    ensures Included(c, mesActual) ==>
      Shown(c, mesActual).periodo == c.mesDesde.value + " - " + c.mesHasta.value
  {
  }

  /** For the padded tokens the ledger writes, that is the chronological
      comparison on (year, month); bounds in the wrong order are never shown. */
  lemma InstallmentShownInMonths(c: Compra, actual: YearMonth, desde: YearMonth, hasta: YearMonth)
    requires c.tipo == "cuotas" && ValidMonth(actual) && ValidMonth(desde) && ValidMonth(hasta)
    requires c.mesDesde == Some(FormatMonth(desde)) && c.mesHasta == Some(FormatMonth(hasta))
    ensures Included(c, FormatMonth(actual)) <==> MonthLe(desde, actual) && MonthLe(actual, hasta)
    ensures MonthIndex(hasta) < MonthIndex(desde) ==> !Included(c, FormatMonth(actual))
  {
    FormattedInRangeIff(actual, desde, hasta);
  }

  /** An installment with a missing bound, or a bound that is not a "MM/YYYY"
      token, is never shown. */
  lemma MalformedInstallmentNeverShown(c: Compra, mesActual: string)
    requires c.tipo == "cuotas"
    requires c.mesDesde.None? || c.mesHasta.None?
      || ParseMonth(c.mesDesde.value).None? || ParseMonth(c.mesHasta.value).None?
    ensures !Included(c, mesActual)
  {
  }

  /** A record of any other type is never shown. */
  lemma OtherTypeNeverShown(c: Compra, mesActual: string)
    requires c.tipo != "fijo" && c.tipo != "cuotas"
    ensures !Included(c, mesActual)
  {
  }

  // ---------------------------------------------------------------------------
  // The view and its total
  // ---------------------------------------------------------------------------

  /** The indices of the included records, in increasing order. */
  function Selected(cs: seq<Compra>, mesActual: string): seq<int> {
    if cs == [] then []
    else
      Selected(cs[..|cs| - 1], mesActual)
        + (if Included(cs[|cs| - 1], mesActual) then [|cs| - 1] else [])
  }

  /** The selected indices lie within the table and strictly increase. */
  lemma {:induction false} SelectedIncreasing(cs: seq<Compra>, mesActual: string)
    ensures forall k :: 0 <= k < |Selected(cs, mesActual)| ==> 0 <= Selected(cs, mesActual)[k] < |cs|
    ensures forall k, l :: 0 <= k < l < |Selected(cs, mesActual)| ==>
      Selected(cs, mesActual)[k] < Selected(cs, mesActual)[l]
  {
    if cs != [] {
      var init := cs[..|cs| - 1];
      SelectedIncreasing(init, mesActual);
      var idx0 := Selected(init, mesActual);
      var tail := if Included(cs[|cs| - 1], mesActual) then [|cs| - 1] else [];
      var idx := idx0 + tail;
      assert Selected(cs, mesActual) == idx;
      assert forall k :: 0 <= k < |idx0| ==> idx0[k] < |init|;
      assert forall k :: 0 <= k < |idx0| ==> idx[k] == idx0[k] && idx[k] < |cs| - 1;
      assert forall k :: |idx0| <= k < |idx| ==> idx[k] == |cs| - 1;
    }
  }

  /** An index is selected exactly when its record is included. */
  lemma {:induction false} SelectedIffIncluded(cs: seq<Compra>, mesActual: string)
    ensures forall i :: 0 <= i < |cs| ==> (Included(cs[i], mesActual) <==> i in Selected(cs, mesActual))
  {
    if cs != [] {
      var init := cs[..|cs| - 1];
      SelectedIffIncluded(init, mesActual);
      SelectedIncreasing(init, mesActual);
      assert |cs| - 1 !in Selected(init, mesActual);
      assert forall i :: 0 <= i < |init| ==> cs[i] == init[i];
    }
  }

  /** The k-th row of the view shows the record at the k-th selected index. */
  lemma {:induction false} ViewShowsSelected(cs: seq<Compra>, mesActual: string)
    ensures var v, idx := View(cs, mesActual), Selected(cs, mesActual);
      && |v| == |idx|
      && (forall k :: 0 <= k < |idx| ==> 0 <= idx[k] < |cs| && Included(cs[idx[k]], mesActual)
                                          && v[k] == Shown(cs[idx[k]], mesActual))
  {
    if cs != [] {
      var init := cs[..|cs| - 1];
      ViewShowsSelected(init, mesActual);
      var idx0 := Selected(init, mesActual);
      assert forall k :: 0 <= k < |idx0| ==> cs[idx0[k]] == init[idx0[k]];
    }
  }

  /** The view is an order-preserving selection from the table: its k-th row
      shows the k-th included record, the selected indices increase, and an
      index is selected exactly when its record is included. */
  lemma ViewIsSelection(cs: seq<Compra>, mesActual: string)
    ensures var v, idx := View(cs, mesActual), Selected(cs, mesActual);
      && |v| == |idx|
      && (forall k, l :: 0 <= k < l < |idx| ==> idx[k] < idx[l])
      && (forall k :: 0 <= k < |idx| ==> 0 <= idx[k] < |cs| && Included(cs[idx[k]], mesActual)
                                          && v[k] == Shown(cs[idx[k]], mesActual))
      && (forall i :: 0 <= i < |cs| ==> (Included(cs[i], mesActual) <==> i in idx))
  {
    SelectedIncreasing(cs, mesActual);
    SelectedIffIncluded(cs, mesActual);
    ViewShowsSelected(cs, mesActual);
  }

  /** The displayed total is the sum of the amounts of exactly the displayed rows. */
  lemma {:induction false} TotalIsSumOfView(cs: seq<Compra>, mesActual: string)
    ensures Total(cs, mesActual) == SumMontos(View(cs, mesActual))
  {
    if cs != [] {
      var init := cs[..|cs| - 1];
      TotalIsSumOfView(init, mesActual);
      var v := View(init, mesActual);
      if Included(cs[|cs| - 1], mesActual) {
        var w := v + [Shown(cs[|cs| - 1], mesActual)];
        assert w[..|w| - 1] == v;
      } else {
        assert v + [] == v;
      }
    }
  }

  /** The view and total of a table split in two are those of the two parts. */
  lemma {:induction false} ViewAppend(xs: seq<Compra>, ys: seq<Compra>, mesActual: string)
    ensures View(xs + ys, mesActual) == View(xs, mesActual) + View(ys, mesActual)
    ensures Total(xs + ys, mesActual) == Total(xs, mesActual) + Total(ys, mesActual)
  {
    if ys == [] {
      assert xs + ys == xs;
    } else {
      var init := ys[..|ys| - 1];
      ViewAppend(xs, init, mesActual);
      assert (xs + ys)[..|xs + ys| - 1] == xs + init;
      assert (xs + ys)[|xs + ys| - 1] == ys[|ys| - 1];
    }
  }

  /** Appending one record adds its row at the end of the view, and its
      amount to the total, exactly when it is included. */
  lemma ViewSnoc(cs: seq<Compra>, c: Compra, mesActual: string)
    ensures View(cs + [c], mesActual) ==
      View(cs, mesActual) + (if Included(c, mesActual) then [Shown(c, mesActual)] else [])
    ensures Total(cs + [c], mesActual) ==
      Total(cs, mesActual) + (if Included(c, mesActual) then c.monto else 0)
  {
    assert (cs + [c])[..|cs|] == cs;
  }

  /** A table without any included record shows nothing and totals zero. */
  lemma {:induction false} NothingIncludedShowsNothing(cs: seq<Compra>, mesActual: string)
    requires forall i :: 0 <= i < |cs| ==> !Included(cs[i], mesActual)
    ensures View(cs, mesActual) == [] && Total(cs, mesActual) == 0
  {
    if cs != [] {
      var init := cs[..|cs| - 1];
      assert forall i :: 0 <= i < |init| ==> init[i] == cs[i];
      NothingIncludedShowsNothing(init, mesActual);
    }
  }
}
