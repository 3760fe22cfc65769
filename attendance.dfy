/**
 The certificate-to-attendance transform of the `/process` request: find the
 "Total Attendance" column, insert a "Medical Certificate" column after it and
 mark every student some certificate names, then, on the reloaded table, add
 an "Updated Attendance" column that grants a fixed bonus to students under
 the threshold who have a certificate.
 */
module Attendance {
  import opened Wrappers
  import opened Sheets
  import opened Certificates

  const TotalTitle := "Total Attendance"
  const MedicalTitle := "Medical Certificate"
  const UpdatedTitle := "Updated Attendance"
  const Yes := "Yes"
  const Threshold := 60
  const Bonus := 5

  /** The two ways the request fails, both answered with status 400. */
  datatype Error =
    | MissingTotalAttendance   // no "Total Attendance" header on the uploaded sheet
    | MissingRequiredColumns   // a required column is missing from the reloaded table

  // ---------------------------------------------------------------------------
  // Header lookup

  /** Scans the header row left to right and stops at the first cell titled `title`. */
  method FindHeaderColumn(sheet: Worksheet, title: string) returns (col: Option<nat>)
    requires sheet.Valid()
    ensures col == FirstColumn(HeaderRow(sheet.cells), Text(title))
  {
    col := None;
    if |sheet.cells| == 0 {
      return;
    }
    var c := 0;
    while c < sheet.width
      invariant c <= sheet.width
      invariant forall k :: 0 <= k < c ==> sheet.cells[0][k] != Text(title)
    {
      if sheet.cells[0][c] == Text(title) {
        col := Some(c);
        break;
      }
      c := c + 1;
    }
  }

  // ---------------------------------------------------------------------------
  // Matching certificates to roster rows

  /** A record names the row: same name, or same enrollment number, compared exactly. */
  predicate RecordMatches(r: Record, nameCell: Cell, enrollmentCell: Cell)
    ensures RecordMatches(r, nameCell, enrollmentCell) ==> nameCell.Text? || enrollmentCell.Text?
  {
    nameCell == Text(r.name) || enrollmentCell == Text(r.enrollment)
  }

  /** Some extracted record names the row; only a text cell can name it. */
  predicate Matches(records: seq<Record>, nameCell: Cell, enrollmentCell: Cell)
    ensures Matches(records, nameCell, enrollmentCell) ==> nameCell.Text? || enrollmentCell.Text?
  {
    exists k :: 0 <= k < |records| && RecordMatches(records[k], nameCell, enrollmentCell)
  }

  /** The "Medical Certificate" value of a row: "Yes" when matched, empty otherwise. */
  function CertificateMark(records: seq<Record>, nameCell: Cell, enrollmentCell: Cell): (mark: Cell)
    ensures mark == Text(Yes) || mark == Text("")
    ensures mark == Text(Yes) <==> Matches(records, nameCell, enrollmentCell)
  {
    if Matches(records, nameCell, enrollmentCell) then Text(Yes) else Text("")
  }

  /** Only the set of records matters for matching, not their order or repetitions. */
  lemma MatchIgnoresRecordOrder(records: seq<Record>, records': seq<Record>, nameCell: Cell, enrollmentCell: Cell)
    requires forall r :: r in records <==> r in records'
    ensures Matches(records, nameCell, enrollmentCell) == Matches(records', nameCell, enrollmentCell)
  {
    if Matches(records, nameCell, enrollmentCell) {
      var k :| 0 <= k < |records| && RecordMatches(records[k], nameCell, enrollmentCell);
      assert records[k] in records';
    }
    if Matches(records', nameCell, enrollmentCell) {
      var k :| 0 <= k < |records'| && RecordMatches(records'[k], nameCell, enrollmentCell);
      assert records'[k] in records;
    }
  }

  /** Tries the records in order and stops at the first one that names the row. */
  method HasCertificate(records: seq<Record>, nameCell: Cell, enrollmentCell: Cell) returns (matched: bool)
    ensures matched == Matches(records, nameCell, enrollmentCell)
  {
    matched := false;
    var k := 0;
    while k < |records|
      invariant k <= |records|
      invariant forall j :: 0 <= j < k ==> !RecordMatches(records[j], nameCell, enrollmentCell)
    {
      if nameCell == Text(records[k].name) || enrollmentCell == Text(records[k].enrollment) {
        matched := true;
        break;
      }
      k := k + 1;
    }
  }

  /**
   Every data row gets its mark in column `mc`; the enrollment number is read
   from column 0 and the name from column 1 of the sheet as it stands.
   */
  function MarkedRows(g: Grid, width: nat, records: seq<Record>, mc: nat): (r: Grid)
    requires Rectangular(g, width) && 2 <= width && mc < width
    ensures |r| == |g| && Rectangular(r, width)
    ensures |g| > 0 ==> r[0] == g[0]
    ensures forall i, c :: 0 <= i < |g| && 0 <= c < width && c != mc ==> r[i][c] == g[i][c]
  {
    seq(|g|, i requires 0 <= i < |g| =>
      if i == 0 then g[0] else g[i][mc := CertificateMark(records, g[i][1], g[i][0])])
  }

  /** The row loop that fills the "Medical Certificate" column. */
  method MarkCertificates(sheet: Worksheet, records: seq<Record>, mc: nat)
    requires sheet.Valid() && |sheet.cells| > 0 && 2 <= sheet.width && mc < sheet.width
    modifies sheet
    ensures sheet.Valid() && sheet.width == old(sheet.width)
    ensures sheet.cells == MarkedRows(old(sheet.cells), old(sheet.width), records, mc)
  {
    ghost var marked := MarkedRows(sheet.cells, sheet.width, records, mc);
    for i := 1 to |sheet.cells|
      invariant sheet.Valid() && sheet.width == old(sheet.width)
      invariant |sheet.cells| == |old(sheet.cells)|
      invariant forall k :: 0 <= k < i ==> sheet.cells[k] == marked[k]
      invariant forall k :: i <= k < |sheet.cells| ==> sheet.cells[k] == old(sheet.cells)[k]
    {
      var name := sheet.cells[i][1];
      var enrollment := sheet.cells[i][0];
      var matched := HasCertificate(records, name, enrollment);
      if matched {
        sheet.SetCell(i, mc, Text(Yes));
      } else {
        sheet.SetCell(i, mc, Text(""));
      }
    }
  }

  /** The sheet once the certificate column has been inserted after column `t` and filled. */
  function Annotated(g: Grid, width: nat, records: seq<Record>, t: nat): (r: Grid)
    requires Rectangular(g, width) && |g| > 0 && t < width
    ensures |r| == |g| && Rectangular(r, width + 1)
  {
    var inserted := WithBlankColumn(g, width, t + 1);
    var titled := inserted[0 := inserted[0][t + 1 := Text(MedicalTitle)]];
    MarkedRows(titled, width + 1, records, t + 1)
  }

  // ---------------------------------------------------------------------------
  // Attendance adjustment on the reloaded table

  /** Every data row holds a number in column `col`. */
  ghost predicate NumericColumn(g: Grid, col: nat) {
    forall i :: 1 <= i < |g| ==> col < |g[i]| && g[i][col].Number?
  }

  /** The "Total Attendance" column, if there is one, holds numbers. */
  ghost predicate NumericTotals(g: Grid) {
    match FirstColumn(HeaderRow(g), Text(TotalTitle))
    case None => true
    case Some(t) => NumericColumn(g, t)
  }

  /** A row earns the bonus: attendance strictly below the threshold and a certificate. */
  predicate Eligible(total: Cell, mark: Cell) {
    total.Number? && total.n < Threshold && mark == Text(Yes)
  }

  /** `cell + k` on a number; other cells are left as they are. */
  function Plus(c: Cell, k: int): Cell {
    match c
    case Number(n) => Number(n + k)
    case _ => c
  }

  /** Adds the bonus in column `u` of every eligible data row. */
  function WithBonus(g: Grid, t: nat, m: nat, u: nat): (r: Grid)
    requires forall i :: 0 <= i < |g| ==> t < |g[i]| && m < |g[i]| && u < |g[i]|
    ensures |r| == |g|
  {
    seq(|g|, i requires 0 <= i < |g| =>
      if i == 0 || !Eligible(g[i][t], g[i][m]) then g[i]
      else g[i][u := Plus(g[i][u], Bonus)])
  }

  /** The bonus changes column `u` of eligible data rows and nothing else. */
  lemma BonusCells(g: Grid, t: nat, m: nat, u: nat)
    requires forall i :: 0 <= i < |g| ==> t < |g[i]| && m < |g[i]| && u < |g[i]|
    requires NumericColumn(g, t) && NumericColumn(g, u)
    ensures var r := WithBonus(g, t, m, u);
      && (forall i :: 0 <= i < |g| ==> |r[i]| == |g[i]|)
      && (forall i, c :: 0 <= i < |g| && 0 <= c < |g[i]| && c != u ==> r[i][c] == g[i][c])
      && (|g| > 0 ==> r[0] == g[0])
      && forall i :: 1 <= i < |g| ==>
           r[i][u] == Number(if Eligible(g[i][t], g[i][m]) then g[i][u].n + Bonus else g[i][u].n)
  {
  }

  /** The row loop that adds the bonus. */
  method ApplyBonus(df: Worksheet, t: nat, m: nat, u: nat)
    requires df.Valid() && |df.cells| > 0 && t < df.width && m < df.width && u < df.width
    requires NumericColumn(df.cells, t) && NumericColumn(df.cells, u)
    modifies df
    ensures df.Valid() && df.width == old(df.width)
    ensures df.cells == WithBonus(old(df.cells), t, m, u)
  {
    ghost var adjusted := WithBonus(df.cells, t, m, u);
    for i := 1 to |df.cells|
      invariant df.Valid() && df.width == old(df.width)
      invariant |df.cells| == |old(df.cells)|
      invariant forall k :: 0 <= k < i ==> df.cells[k] == adjusted[k]
      invariant forall k :: i <= k < |df.cells| ==> df.cells[k] == old(df.cells)[k]
    {
      var row := df.cells[i];
      if row[t].n < Threshold && row[m] == Text(Yes) {
        df.SetCell(i, u, Number(row[u].n + Bonus));
      }
    }
  }

  /**
   The reloaded table after the adjustment: both required columns must be
   present; "Updated Attendance" becomes a copy of "Total Attendance" with
   the bonus added on eligible rows.
   */
  function Adjusted(h: Grid, width: nat): (r: Result<Grid, Error>)
    requires Rectangular(h, width)
    ensures r.Failure? ==> r.error == MissingRequiredColumns
    ensures r.Success? ==> |r.value| == |h|
  {
    var total := FirstColumn(HeaderRow(h), Text(TotalTitle));
    var medical := FirstColumn(HeaderRow(h), Text(MedicalTitle));
    if total.None? || medical.None? then Failure(MissingRequiredColumns)
    else
      var t, m := total.value, medical.value;
      var u := TargetColumn(h, width, UpdatedTitle);
      var copied := WithColumnCopy(h, width, UpdatedTitle, t);
      Success(WithBonus(copied, t, m, u))
  }

  /**
   What the adjustment does to the reloaded table, cell by cell: the
   "Updated Attendance" column (found or appended) holds the total plus the
   bonus on eligible rows and the total elsewhere; no other cell changes.
   */
  lemma {:induction false} AdjustedCells(h: Grid, width: nat, t: nat, m: nat)
    requires Rectangular(h, width) && NumericTotals(h)
    requires FirstColumn(HeaderRow(h), Text(TotalTitle)) == Some(t)
    requires FirstColumn(HeaderRow(h), Text(MedicalTitle)) == Some(m)
    ensures Adjusted(h, width).Success?
    ensures var out, u := Adjusted(h, width).value, TargetColumn(h, width, UpdatedTitle);
      && |out| == |h|
      && (forall i :: 0 <= i < |h| ==> |out[i]| == if u == width then width + 1 else width)
      && (forall i, c :: 0 <= i < |h| && 0 <= c < width && c != u ==> out[i][c] == h[i][c])
      && out[0][u] == Text(UpdatedTitle)
      && (forall i :: 1 <= i < |h| ==>
            out[i][u] == Number(if Eligible(h[i][t], h[i][m]) then h[i][t].n + Bonus else h[i][t].n))
  {
    var u := TargetColumn(h, width, UpdatedTitle);
    var copied := WithColumnCopy(h, width, UpdatedTitle, t);
    assert u != t && u != m;
    ColumnCopyCells(h, width, UpdatedTitle, t);
    BonusCells(copied, t, m, u);
    assert Adjusted(h, width) == Success(WithBonus(copied, t, m, u));
  }

  /** Checks the required columns, copies the totals and adds the bonus. */
  method AdjustAttendance(df: Worksheet) returns (result: Result<Grid, Error>)
    requires df.Valid() && NumericTotals(df.cells)
    modifies df
    ensures result == Adjusted(old(df.cells), old(df.width))
    ensures df.cells == if result.Success? then result.value else old(df.cells)
    ensures df.Valid()
    ensures df.width == if result.Success? && TargetColumn(old(df.cells), old(df.width), UpdatedTitle) == old(df.width)
                        then old(df.width) + 1 else old(df.width)
  {
    var total := FirstColumn(HeaderRow(df.cells), Text(TotalTitle));
    var medical := FirstColumn(HeaderRow(df.cells), Text(MedicalTitle));
    if total.None? || medical.None? {
      return Failure(MissingRequiredColumns);
    }
    var t, m := total.value, medical.value;
    var u := df.CopyColumn(UpdatedTitle, t);
    assert u != t;
    ApplyBonus(df, t, m, u);
    result := Success(df.cells);
  }

  // ---------------------------------------------------------------------------
  // The whole transform

  /** Marking the sheet keeps "Total Attendance" where it was, with the same numbers. */
  lemma AnnotatedKeepsTotals(g: Grid, width: nat, records: seq<Record>, t: nat)
    requires Rectangular(g, width) && NumericTotals(g)
    requires FirstColumn(HeaderRow(g), Text(TotalTitle)) == Some(t)
    ensures |g| > 0 && t < width
    ensures FirstColumn(HeaderRow(Annotated(g, width, records, t)), Text(TotalTitle)) == Some(t)
    ensures FirstColumn(HeaderRow(Annotated(g, width, records, t)), Text(MedicalTitle)).Some?
    ensures NumericTotals(Annotated(g, width, records, t))
  {
    var a := Annotated(g, width, records, t);
    assert a[0][..t + 1] == g[0][..t + 1];
    FirstColumnKeptByPrefix(g[0], a[0], Text(TotalTitle), t);
    assert a[0][t + 1] == Text(MedicalTitle);
    forall i | 1 <= i < |a| ensures a[i][t] == g[i][t] { }
  }

  /**
   The marked sheet: columns up to `t` unchanged, the later ones one place to
   the right, and between them the certificate column, titled and holding
   "Yes" or "" on every data row. The name a row is matched on is read after
   the insertion, so when "Total Attendance" is the first column the name
   cell read is the new blank one.
   */
  lemma {:induction false} AnnotatedCells(g: Grid, width: nat, records: seq<Record>, t: nat)
    requires Rectangular(g, width) && |g| > 0 && t < width
    ensures var a := Annotated(g, width, records, t);
      && (forall i, c :: 0 <= i < |g| && 0 <= c <= t ==> a[i][c] == g[i][c])
      && (forall i, c :: 0 <= i < |g| && t < c < width ==> a[i][c + 1] == g[i][c])
      && a[0][t + 1] == Text(MedicalTitle)
      && forall i :: 1 <= i < |g| ==>
           a[i][t + 1] == CertificateMark(records, if t == 0 then Blank else g[i][1], g[i][0])
  {
    var inserted := WithBlankColumn(g, width, t + 1);
    var titled := inserted[0 := inserted[0][t + 1 := Text(MedicalTitle)]];
    var a := Annotated(g, width, records, t);
    assert a == MarkedRows(titled, width + 1, records, t + 1);
    forall i | 1 <= i < |g|
      ensures titled[i][1] == (if t == 0 then Blank else g[i][1]) && titled[i][0] == g[i][0]
    { }
  }

  /**
   The transform on the extracted records: fails when the sheet has no
   "Total Attendance" header, otherwise marks certificates and adjusts.
   */
  function Transform(records: seq<Record>, g: Grid, width: nat): (r: Result<Grid, Error>)
    requires Rectangular(g, width)
    ensures r.Success? ==> |r.value| == |g|
  {
    match FirstColumn(HeaderRow(g), Text(TotalTitle))
    case None => Failure(MissingTotalAttendance)
    case Some(t) => Adjusted(Annotated(g, width, records, t), width + 1)
  }

  /** With "Total Attendance" at column `t`, the transform adjusts the annotated sheet. */
  lemma TransformWithTotal(records: seq<Record>, g: Grid, width: nat, t: nat)
    requires Rectangular(g, width) && NumericTotals(g)
    requires FirstColumn(HeaderRow(g), Text(TotalTitle)) == Some(t)
    ensures |g| > 0 && t < width
    ensures NumericTotals(Annotated(g, width, records, t))
    ensures Transform(records, g, width) == Adjusted(Annotated(g, width, records, t), width + 1)
    ensures MarkedSheet(records, g, width) == Annotated(g, width, records, t)
  {
    AnnotatedKeepsTotals(g, width, records, t);
  }

  /**
   Inserts the "Medical Certificate" column right after column `t`, titles
   it, and marks every data row.
   */
  method AnnotateSheet(sheet: Worksheet, records: seq<Record>, t: nat)
    requires sheet.Valid() && |sheet.cells| > 0 && t < sheet.width
    modifies sheet
    ensures sheet.Valid() && sheet.width == old(sheet.width) + 1
    ensures sheet.cells == Annotated(old(sheet.cells), old(sheet.width), records, t)
  {
    var mc := t + 1;
    sheet.InsertColumn(mc);
    sheet.SetCell(0, mc, Text(MedicalTitle));
    MarkCertificates(sheet, records, mc);
  }

  /** The sheet after the request: marked when it has "Total Attendance", untouched otherwise. */
  function MarkedSheet(records: seq<Record>, g: Grid, width: nat): (r: Grid)
    requires Rectangular(g, width)
    ensures |r| == |g|
    ensures Rectangular(r, MarkedWidth(g, width))
  {
    match FirstColumn(HeaderRow(g), Text(TotalTitle))
    case None => g
    case Some(t) => Annotated(g, width, records, t)
  }

  /** The width of the sheet after the request: one more column when it has "Total Attendance". */
  function MarkedWidth(g: Grid, width: nat): nat {
    if FirstColumn(HeaderRow(g), Text(TotalTitle)).None? then width else width + 1
  }

  /** Reloads the saved sheet as a table, unchanged, and adjusts the attendance on it. */
  method ReloadAndAdjust(saved: Grid, width: nat) returns (result: Result<Grid, Error>)
    requires Rectangular(saved, width) && NumericTotals(saved)
    ensures result == Adjusted(saved, width)
  {
    var df := new Worksheet(saved, width);
    result := AdjustAttendance(df);
  }

  /**
   With "Total Attendance" at column `t`: marks the sheet in place, reloads
   it unchanged and adjusts the attendance on the reloaded table.
   */
  method AnnotateAndAdjust(records: seq<Record>, sheet: Worksheet, t: nat, ghost g: Grid, ghost width: nat)
      returns (result: Result<Grid, Error>)
    requires sheet.Valid() && sheet.cells == g && sheet.width == width && |g| > 0 && t < width
    requires NumericTotals(Annotated(g, width, records, t))
    modifies sheet
    ensures sheet.Valid() && sheet.width == width + 1
    ensures sheet.cells == Annotated(g, width, records, t)
    ensures result == Adjusted(Annotated(g, width, records, t), width + 1)
  {
    AnnotateSheet(sheet, records, t);
    var saved, savedWidth := sheet.cells, sheet.width;
    assert saved == Annotated(g, width, records, t) && savedWidth == width + 1;
    result := ReloadAndAdjust(saved, savedWidth);
  }

  /**
   Everything after the certificates are read: finds "Total Attendance",
   then marks and adjusts; fails when there is no such header.
   */
  method TransformSheet(records: seq<Record>, sheet: Worksheet) returns (result: Result<Grid, Error>)
    requires sheet.Valid() && NumericTotals(sheet.cells)
    modifies sheet
    ensures result == Transform(records, old(sheet.cells), old(sheet.width))
    ensures sheet.Valid() && sheet.width == MarkedWidth(old(sheet.cells), old(sheet.width))
    ensures sheet.cells == MarkedSheet(records, old(sheet.cells), old(sheet.width))
  {
    ghost var g, width := sheet.cells, sheet.width;
    var total := FindHeaderColumn(sheet, TotalTitle);
    if total.None? {
      result := Failure(MissingTotalAttendance);
    } else {
      TransformWithTotal(records, g, width, total.value);
      result := AnnotateAndAdjust(records, sheet, total.value, g, width);
    }
  }

  /**
   The `/process` request: reads the certificates, then transforms the
   sheet. The sheet is left alone when it has no "Total Attendance" header.
   */
  method ProcessFiles(texts: seq<string>, sheet: Worksheet) returns (result: Result<Grid, Error>)
    requires sheet.Valid() && NumericTotals(sheet.cells)
    modifies sheet
    ensures result == Transform(Extracted(texts), old(sheet.cells), old(sheet.width))
    ensures sheet.Valid() && sheet.width == MarkedWidth(old(sheet.cells), old(sheet.width))
    ensures sheet.cells == MarkedSheet(Extracted(texts), old(sheet.cells), old(sheet.width))
  {
    var records := ExtractRecords(texts);
    result := TransformSheet(records, sheet);
  }

  // ---------------------------------------------------------------------------
  // Properties of the whole transform

  /**
   The request fails exactly when the uploaded sheet has no "Total
   Attendance" header, and then with that error: the column check after the
   reload always passes, since the round trip changes nothing.
   */
  lemma {:induction false} FailsOnlyWithoutTotal(records: seq<Record>, g: Grid, width: nat)
    requires Rectangular(g, width) && NumericTotals(g)
    ensures Transform(records, g, width).Failure? <==> FirstColumn(HeaderRow(g), Text(TotalTitle)).None?
    ensures Transform(records, g, width).Failure? ==> Transform(records, g, width).error == MissingTotalAttendance
  {
    match FirstColumn(HeaderRow(g), Text(TotalTitle))
    case None =>
    case Some(t) =>
      TransformWithTotal(records, g, width, t);
      AnnotatedKeepsTotals(g, width, records, t);
      var a := Annotated(g, width, records, t);
      AdjustedCells(a, width + 1, t, FirstColumn(HeaderRow(a), Text(MedicalTitle)).value);
  }

  /**
   On the marked sheet, "Updated Attendance" is neither the totals column nor
   the certificate column right after it.
   */
  lemma {:induction false} UpdatedColumnApart(records: seq<Record>, g: Grid, width: nat, t: nat)
    requires Rectangular(g, width) && NumericTotals(g)
    requires FirstColumn(HeaderRow(g), Text(TotalTitle)) == Some(t)
    ensures |g| > 0 && t < width
    ensures var u := TargetColumn(Annotated(g, width, records, t), width + 1, UpdatedTitle);
      u != t && u != t + 1
  {
    AnnotatedKeepsTotals(g, width, records, t);
    AnnotatedCells(g, width, records, t);
  }

  /**
   The output of a sheet with "Total Attendance" at column `t`, in terms of
   the marked sheet: "Updated Attendance" (found or appended) holds the total
   plus the bonus on eligible rows and the total elsewhere; every other cell
   is the marked sheet's.
   */
  lemma {:induction false} TransformCells(records: seq<Record>, g: Grid, width: nat, t: nat)
    requires Rectangular(g, width) && NumericTotals(g)
    requires FirstColumn(HeaderRow(g), Text(TotalTitle)) == Some(t)
    ensures |g| > 0 && t < width
    ensures FirstColumn(HeaderRow(Annotated(g, width, records, t)), Text(MedicalTitle)).Some?
    ensures Transform(records, g, width).Success?
    ensures var out, a := Transform(records, g, width).value, Annotated(g, width, records, t);
      var u, m := TargetColumn(a, width + 1, UpdatedTitle), FirstColumn(HeaderRow(a), Text(MedicalTitle)).value;
      && |out| == |g|
      && (forall i :: 0 <= i < |g| ==> |out[i]| == if u == width + 1 then width + 2 else width + 1)
      && (forall i, c :: 0 <= i < |g| && 0 <= c < width + 1 && c != u ==> out[i][c] == a[i][c])
      && out[0][u] == Text(UpdatedTitle)
      && forall i :: 1 <= i < |g| ==>
           out[i][u] == Number(if Eligible(a[i][t], a[i][m]) then a[i][t].n + Bonus else a[i][t].n)
  {
    TransformWithTotal(records, g, width, t);
    AnnotatedKeepsTotals(g, width, records, t);
    var a := Annotated(g, width, records, t);
    AdjustedCells(a, width + 1, t, FirstColumn(HeaderRow(a), Text(MedicalTitle)).value);
  }

  /**
   The output keeps "Total Attendance" and its values, and right after it
   holds the certificate column: "Yes" exactly on the rows some record names
   by enrollment number (column 0) or by name (column 1 after the insertion),
   and "" on all others.
   */
  lemma {:induction false} CertificateColumn(records: seq<Record>, g: Grid, width: nat, t: nat)
    requires Rectangular(g, width) && NumericTotals(g)
    requires FirstColumn(HeaderRow(g), Text(TotalTitle)) == Some(t)
    ensures Transform(records, g, width).Success?
    ensures var out := Transform(records, g, width).value;
      && |out| == |g|
      && (forall i :: 0 <= i < |g| ==> t + 1 < |out[i]| && out[i][t] == g[i][t])
      && out[0][t + 1] == Text(MedicalTitle)
      && forall i :: 1 <= i < |g| ==>
           && (out[i][t + 1] == Text(Yes) || out[i][t + 1] == Text(""))
           && (out[i][t + 1] == Text(Yes) <==> Matches(records, if t == 0 then Blank else g[i][1], g[i][0]))
  {
    TransformCells(records, g, width, t);
    UpdatedColumnApart(records, g, width, t);
    AnnotatedCells(g, width, records, t);
  }

  /**
   When "Total Attendance" is the first column, no row is ever marked: the
   enrollment cell read from column 0 is the row's total, a number, and the
   name cell read from column 1 is the inserted blank one, so neither can
   equal a record's text.
   */
  lemma {:induction false} TotalFirstMarksNothing(records: seq<Record>, g: Grid, width: nat)
    requires Rectangular(g, width) && NumericTotals(g)
    requires FirstColumn(HeaderRow(g), Text(TotalTitle)) == Some(0)
    ensures Transform(records, g, width).Success?
    ensures var out := Transform(records, g, width).value;
      forall i :: 1 <= i < |g| ==> out[i][1] == Text("")
  {
    CertificateColumn(records, g, width, 0);
    var out := Transform(records, g, width).value;
    forall i | 1 <= i < |g| ensures out[i][1] == Text("") {
      assert g[i][0].Number?;
    }
  }

  /**
   On a sheet that has neither a "Medical Certificate" nor an "Updated
   Attendance" header, the reloaded table finds the certificate column right
   after "Total Attendance" and has no "Updated Attendance" column yet.
   */
  lemma {:induction false} FreshHeaders(records: seq<Record>, g: Grid, width: nat, t: nat)
    requires Rectangular(g, width) && |g| > 0 && t < width
    requires Text(MedicalTitle) !in g[0] && Text(UpdatedTitle) !in g[0]
    ensures var a := Annotated(g, width, records, t);
      && FirstColumn(HeaderRow(a), Text(MedicalTitle)) == Some(t + 1)
      && TargetColumn(a, width + 1, UpdatedTitle) == width + 1
  {
    AnnotatedCells(g, width, records, t);
    var a := Annotated(g, width, records, t);
    forall k | 0 <= k <= t ensures a[0][k] != Text(MedicalTitle) && a[0][k] != Text(UpdatedTitle) {
      assert a[0][k] == g[0][k];
    }
    forall k | t + 1 < k < width + 1 ensures a[0][k] != Text(UpdatedTitle) {
      assert a[0][k] == g[0][k - 1];
    }
  }

  /**
   On a sheet without an "Updated Attendance" header, the output is the
   input with the certificate column right after "Total Attendance" and
   "Updated Attendance" appended as the last column; no other cell changes.
   */
  lemma {:induction false} FreshSheetLayout(records: seq<Record>, g: Grid, width: nat, t: nat)
    requires Rectangular(g, width) && NumericTotals(g)
    requires FirstColumn(HeaderRow(g), Text(TotalTitle)) == Some(t)
    requires Text(UpdatedTitle) !in HeaderRow(g)
    ensures Transform(records, g, width).Success?
    ensures var out := Transform(records, g, width).value;
      && |out| == |g|
      && (forall i :: 0 <= i < |g| ==> |out[i]| == width + 2)
      && (forall i, c :: 0 <= i < |g| && 0 <= c <= t ==> out[i][c] == g[i][c])
      && (forall i, c :: 0 <= i < |g| && t < c < width ==> out[i][c + 1] == g[i][c])
      && out[0][t + 1] == Text(MedicalTitle)
      && out[0][width + 1] == Text(UpdatedTitle)
  {
    TransformCells(records, g, width, t);
    AnnotatedCells(g, width, records, t);
    var a := Annotated(g, width, records, t);
    forall k | 0 <= k < width + 1 ensures a[0][k] != Text(UpdatedTitle) {
      if k <= t {
        assert a[0][k] == g[0][k];
      } else if k > t + 1 {
        assert a[0][k] == g[0][k - 1];
      }
    }
    assert TargetColumn(a, width + 1, UpdatedTitle) == width + 1;
  }

  /**
   A "Medical Certificate" header already left of "Total Attendance" stays
   the leftmost one after the insertion, so the bonus reads that older
   column rather than the new marks.
   */
  lemma {:induction false} OlderCertificateColumnWins(records: seq<Record>, g: Grid, width: nat, t: nat, m: nat)
    requires Rectangular(g, width) && NumericTotals(g)
    requires FirstColumn(HeaderRow(g), Text(TotalTitle)) == Some(t)
    requires FirstColumn(HeaderRow(g), Text(MedicalTitle)) == Some(m) && m < t
    ensures FirstColumn(HeaderRow(Annotated(g, width, records, t)), Text(MedicalTitle)) == Some(m)
    ensures forall i :: 0 <= i < |g| ==> Annotated(g, width, records, t)[i][m] == g[i][m]
  {
    assert |g| > 0 && t < width;
    AnnotatedCells(g, width, records, t);
    var a := Annotated(g, width, records, t);
    assert a[0][..m + 1] == g[0][..m + 1] by {
      forall k | 0 <= k <= m ensures a[0][k] == g[0][k] { }
    }
    FirstColumnKeptByPrefix(g[0], a[0], Text(MedicalTitle), m);
  }

  /**
   "Updated Attendance" is the total plus the bonus when the total is
   strictly below the threshold and the row is marked "Yes", and the total
   otherwise (on a sheet without "Medical Certificate" or "Updated
   Attendance" headers, where it is the last column).
   */
  lemma {:induction false} UpdatedAttendance(records: seq<Record>, g: Grid, width: nat, t: nat)
    requires Rectangular(g, width) && NumericTotals(g)
    requires FirstColumn(HeaderRow(g), Text(TotalTitle)) == Some(t)
    requires Text(MedicalTitle) !in HeaderRow(g) && Text(UpdatedTitle) !in HeaderRow(g)
    ensures Transform(records, g, width).Success?
    ensures var out := Transform(records, g, width).value;
      && |out| == |g|
      && forall i :: 1 <= i < |g| ==>
           && |out[i]| == width + 2
           && out[i][width + 1] == Number(if g[i][t].n < Threshold && out[i][t + 1] == Text(Yes)
                                          then g[i][t].n + Bonus else g[i][t].n)
  {
    TransformCells(records, g, width, t);
    AnnotatedCells(g, width, records, t);
    FreshHeaders(records, g, width, t);
    var a := Annotated(g, width, records, t);
    var out := Transform(records, g, width).value;
    forall i | 1 <= i < |g|
      ensures out[i][width + 1] == Number(if g[i][t].n < Threshold && out[i][t + 1] == Text(Yes)
                                          then g[i][t].n + Bonus else g[i][t].n)
    {
      assert a[i][t] == g[i][t] && out[i][t + 1] == a[i][t + 1];
    }
  }
}
