# Gestor de Compras y Cuotas — a Dafny model of its ledger logic

`cuentas.py` is a small desktop ledger of monthly charges. A charge is either a
fixed expense (`tipo = "fijo"`), shown in every month, or an installment
purchase (`tipo = "cuotas"`), shown only from its first month (`mes_desde`) to
its last (`mes_hasta`), both written `"MM/YYYY"`. The window shows one month at
a time (`fecha_actual`), lists the charges that apply to it and their total,
and lets the user step to the previous or next month, jump back to today, add
a charge and delete one.

This project models that logic, apart from the widgets and the database:

- `text.dfy` (module `Text`): Python's `str.strip()` over the characters
  `str.isspace()` accepts, and ASCII digits.
- `months.dfy` (module `Months`): `datetime.strptime(s, "%m/%Y")` as a total
  parser (month field `1[0-2]|0[1-9]|[1-9]`, four-digit year, year 0 refused,
  nothing before or after), `strftime("%m/%Y")`, the (year, month) order and
  `mes_en_rango`.
- `calendar.dfy` (module `Calendar`): Gregorian leap years,
  `calendar.monthrange`, one day forward and back as `timedelta(days=1)` does
  it (specified against the day number `date.toordinal()` uses, with
  `datetime`'s overflow outside years 1 to 9999), and `mes_anterior` /
  `mes_siguiente` on top of them.
- `view.dfy` (module `MonthView`): the inclusion rule and period label of
  `actualizar_vista`, the view and its total as functions, and the scan loop
  proved equal to them.
- `ledger.dfy` (module `Ledger`): the `compras` table as a sequence of rows
  with the AUTOINCREMENT counter, the validation of `agregar_compra`, the
  delete of `eliminar_compra`, and class `Gestor` holding the table, the
  date shown and the on-screen rows and total. Its invariant `Valid()` says
  that ids increase in table order, every id is at most the counter, every
  row has the shape `agregar_compra` writes, and the screen always shows the
  view and total of the month shown.
- `wrappers.dfy` (module `Wrappers`): `Option` for NULL columns and failed
  conversions, `Result` for refused forms.

The model follows `cuentas.py` as written. Amounts may be negative.
Installment bounds are stored without a format check, and a row with bounds
that do not parse is simply never shown. Deleting an id that no row has does
nothing. Bounds given in the wrong order are accepted and the row is never
shown. There is no paid/pending status: the table has no such column.

## Model

| member | source | states |
|---|---|---|
| Text.Strip | cuentas.py:158-159 | `strip()` leaves no whitespace at either end, and gives the empty string exactly when the text is all whitespace |
| Text.IsSpace | cuentas.py:158-159 | a character `strip()` removes is never a digit or the slash of a month token |
| Text.StripPadded | cuentas.py:158-159 | `strip()` returns exactly the text between the leading and trailing whitespace |
| Text.StripStripped | cuentas.py:176-177 | a text without surrounding whitespace strips to itself (stripping is idempotent) |
| Months.ParseMonth | cuentas.py:264-266 | every token `strptime("%m/%Y")` accepts denotes a month of years 1 to 9999 |
| Months.FormatMonth | cuentas.py:233 | the token written for a month is two month digits, a slash and four year digits |
| Months.ParseFormatRoundTrip | cuentas.py:233 | reading back the token the window writes for a month gives that month; so does the unpadded spelling of months 1 to 9 |
| Months.ParsedIsFormatted | cuentas.py:264-266 | the only tokens that parse are the padded spelling of a month and, for months 1 to 9, the unpadded one |
| Months.MonthLeByIndex | cuentas.py:267 | comparing year first and then month is comparing consecutive month numbers |
| Months.MonthInRange | cuentas.py:261-269 | true only when both bounds are present and the current token parses |
| Months.MonthInRangeIff | cuentas.py:264-267 | for tokens that parse, in range exactly when desde <= actual <= hasta, inclusive at both ends |
| Months.FormattedInRangeIff | cuentas.py:261-269 | for the padded tokens, in range exactly when the month lies between the bounds in (year, month) order |
| Months.MalformedNeverInRange | cuentas.py:263-269 | a token that does not parse, in any of the three positions, gives false |
| Months.ReversedBoundsNeverInRange | cuentas.py:267 | bounds whose first month is after the last one contain no month |
| Months.FirstQuarterExample | cuentas.py:261-269 | "01/2024" to "03/2024" contains January to March 2024, not April 2024 |
| Months.QuarterEdgeExamples | cuentas.py:261-269 | "01/2024" to "03/2024" does not contain December 2023; unpadded "1/2024" to "03/2024" contains "2/2024" |
| Calendar.DaysInMonth | cuentas.py:208 | `monthrange` gives 28 to 31 days |
| Calendar.AddOneDay | cuentas.py:209 | adding one day gives the next day number, and fails only after 31 December 9999 |
| Calendar.SubOneDay | cuentas.py:203 | subtracting one day gives the previous day number, and fails only before 1 January of year 1 |
| Calendar.PreviousMonth | cuentas.py:200-204 | the previous month is a real date on the last day of its month, one month number lower; it fails exactly in January of year 1 |
| Calendar.NextMonth | cuentas.py:206-210 | the next month is a real date on day 1, one month number higher; it fails exactly in December 9999 |
| Calendar.AddThenSubOneDay | cuentas.py:203-209 | one day forward and one back returns to the same date |
| Calendar.SubThenAddOneDay | cuentas.py:203-209 | one day back and one forward returns to the same date |
| Calendar.NextMonthLands | cuentas.py:206-210 | the next month is (y+1, 1) after December and (y, m+1) otherwise, on day 1; the month number goes up by one; only December 9999 overflows |
| Calendar.PreviousMonthLands | cuentas.py:200-204 | the previous month is (y-1, 12) after January and (y, m-1) otherwise, on its last day; the month number goes down by one; only January of year 1 overflows |
| Calendar.NextThenPrevious | cuentas.py:200-210 | next and then previous month restores the (year, month) pair |
| Calendar.PreviousThenNext | cuentas.py:200-210 | previous and then next month restores the (year, month) pair |
| Calendar.NavigationExamples | cuentas.py:200-210 | December 2024 moves to 1 January 2025, January 2025 back to 31 December 2024, March 2024 back to 29 February, March 2100 back to 28 February |
| MonthView.ScanMonth | cuentas.py:238-257 | the loop's rows and total are the month's view and total |
| MonthView.Period | cuentas.py:243-252 | a record gets a period label only when it is "fijo" or "cuotas", and a labelled "cuotas" record has both bounds, and they and the current month all parse |
| MonthView.Included | cuentas.py:243-254 | only "fijo" and "cuotas" records are ever included |
| MonthView.View | cuentas.py:238-257 | the view never has more rows than the table has records |
| MonthView.Total | cuentas.py:238-257 | the total is never negative when no amount is |
| MonthView.FixedAlwaysShown | cuentas.py:246-248 | a "fijo" record is shown in every month, labelled "Fijo" |
| MonthView.InstallmentShownIff | cuentas.py:249-252 | a "cuotas" record is shown exactly when its month range contains the month, labelled "<desde> - <hasta>" |
| MonthView.InstallmentShownInMonths | cuentas.py:249-252 | for padded bounds, shown exactly when desde <= month <= hasta in (year, month) order; reversed bounds are never shown |
| MonthView.MalformedInstallmentNeverShown | cuentas.py:249-252 | a "cuotas" record with a missing or unparsable bound is never shown |
| MonthView.OtherTypeNeverShown | cuentas.py:243-254 | a record of any other type is never shown |
| MonthView.SelectedIncreasing | cuentas.py:240-256 | the table positions of the shown records lie in the table and strictly increase |
| MonthView.SelectedIffIncluded | cuentas.py:240-256 | a table position is among the shown ones exactly when its record is included |
| MonthView.ViewShowsSelected | cuentas.py:240-256 | the k-th row of the view shows the record at the k-th shown position, with its period label |
| MonthView.ViewIsSelection | cuentas.py:240-256 | the view is the included records, in table order, and only those |
| MonthView.TotalIsSumOfView | cuentas.py:254-257 | the total is the sum of the amounts of exactly the rows shown |
| MonthView.ViewAppend | cuentas.py:240-257 | the view and the total of two tables one after the other are those of each, concatenated and added |
| MonthView.ViewSnoc | cuentas.py:240-257 | a record added at the end of the table adds its row at the end of the view, and its amount to the total, exactly when it is included |
| MonthView.NothingIncludedShowsNothing | cuentas.py:238-259 | a month with no included record shows no row and a total of zero |
| Ledger.Validate | cuentas.py:158-181 | an accepted form always yields a well-formed row |
| Ledger.MesActual | cuentas.py:233 | the month token of the date shown reads back as that date's month |
| Ledger.ValidateRejectsIff | cuentas.py:162-181 | the form is refused exactly when the description or amount is blank, the amount is not a number, or a "cuotas" bound is blank |
| Ledger.ValidateAccepts | cuentas.py:172-186 | an accepted form stores the stripped description, the converted amount, the given type, stripped bounds for "cuotas" and none otherwise |
| Ledger.NegativeAmountAccepted | cuentas.py:162-170 | a negative amount is accepted |
| Ledger.BoundsNotChecked | cuentas.py:175-181 | any two non-blank installment bounds are accepted as typed, stripped, whether or not they parse |
| Ledger.RemoveIdKeepsOthers | cuentas.py:282 | deleting an id keeps exactly the rows with another id |
| Ledger.RemoveAbsentId | cuentas.py:282 | deleting an id that no row has leaves the table unchanged |
| Ledger.RemovePresentId | cuentas.py:282 | with distinct ids, deleting a row's id removes that one row and keeps the others in order |
| Ledger.RemoveId | cuentas.py:282 | deleting never adds rows, and no remaining row has the deleted id |
| Ledger.RemoveIdKeepsInvariant | cuentas.py:282 | deleting keeps ids increasing, issued and the rows well formed |
| Ledger.FreshIdIsNew | cuentas.py:47 | the next AUTOINCREMENT id is above every id ever issued and every row's id |
| Ledger.Gestor.constructor | cuentas.py:23-56 | a new ledger has an empty table, counter 0, today's date and an empty view |
| Ledger.Gestor.Refresh | cuentas.py:217-259 | after refreshing, the screen shows the view and total of the month of the date shown |
| Ledger.Gestor.Append | cuentas.py:183-186 | the row with the next id goes at the end of the table, the counter becomes its id, and the table keeps its invariant |
| Ledger.Gestor.ShowDate | cuentas.py:203-204 | the date becomes the given one and the view is refreshed; the table and counter are unchanged |
| Ledger.Gestor.Insert | cuentas.py:183-188 | appends exactly one row with id counter+1, never issued before, and the view gains that row at its end, and its amount, exactly when it applies to the month shown |
| Ledger.Gestor.Add | cuentas.py:156-198 | a refused form changes nothing and returns the reason; an accepted one appends one row with id counter+1, never issued before, returns that id, and the counter becomes it |
| Ledger.Gestor.Delete | cuentas.py:271-286 | the table becomes the old one without the rows of that id; counter, issued ids and date unchanged |
| Ledger.Gestor.ShowPreviousMonth | cuentas.py:200-204 | the date becomes the previous month's last day and the view is refreshed, or on overflow nothing changes |
| Ledger.Gestor.ShowNextMonth | cuentas.py:206-210 | the date becomes the next month's first day and the view is refreshed, or on overflow nothing changes |
| Ledger.Gestor.ShowToday | cuentas.py:212-215 | the date becomes the given today and the view is refreshed; the table is unchanged |

## Left out

- The tkinter window: widgets, message boxes, the delete confirmation and row selection through Treeview tags. Delete takes the id directly; a refused form returns its reason instead of showing a warning.
- The sqlite connection, commits and closing. The table is in memory, so nothing survives a restart, and a new `Gestor` starts from an empty table rather than from an existing database file.
- The locale setup, the Spanish month name above the table, the `"$%.2f"` formatting and `tipo.capitalize()`: presentation only. A view row carries the stored `tipo`.
- `float()` on the amount text. Amounts are whole numbers of the smallest currency unit, so floating-point rounding of amounts and totals is not modelled. The conversion's outcome is a parameter of `Add` (`None` where `float()` raises), and "is a number" is whatever that parameter says.
- `datetime.now()`: today's date and the creation date are parameters. The creation date is stored and never read.
- The time of day in `fecha_actual`: navigation keeps it unchanged and nothing reads it.
- Months.ParseMonth: accepts ASCII digits only, while Python's `\d` in a `str` pattern also matches other Unicode decimal digits.
- Months.FormatMonth: pads the year to four digits; on some platforms `strftime("%Y")` does not pad years below 1000.
- Ledger.Gestor.Insert: does not model SQLite's refusal once the id counter reaches 2^63 - 1.
- The order of `SELECT * FROM compras`: the query has no ORDER BY, and the model takes the rows in id order, which for this AUTOINCREMENT table is insertion order and is what SQLite returns for a plain table scan. The view's row order rests on that.
