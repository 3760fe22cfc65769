# Medical-certificate attendance adjustment

A model of the `/process` request of the skill-development attendance tool
(`process_files` in `Skill_dev_project/app.py`). The request takes the OCR text of a
batch of medical certificates and an attendance workbook, and returns the workbook with
two extra columns:

- **Field extraction.** Each certificate text is split into lines. A line containing
  `Name:` sets the student name. Otherwise, a line containing `Enrollment Number:` sets
  the enrollment number. The value is the text between the first and second colon of
  the line, with whitespace stripped. A later line overwrites an earlier one. A
  certificate yields a record only when both values are non-empty.
- **Header lookup.** The first header cell equal to `Total Attendance`, scanning left
  to right. Without one, the request fails with status 400 and the sheet is untouched.
- **Column insertion and matching.** A blank column is inserted right after
  `Total Attendance` and titled `Medical Certificate`. Every data row is then marked
  `Yes` when some record has the row's name (column 2) or the row's enrollment number
  (column 1), compared exactly, and the empty string otherwise. Both cells are read
  after the insertion.
- **Attendance adjustment.** The marked sheet is reloaded as a table. Both required
  columns are checked, and `Updated Attendance` is set to a copy of `Total Attendance`.
  Then 5 is added on every row whose total is strictly below 60 and whose certificate
  mark is `Yes`.

Modules:

- `Wrappers` holds `Option` and `Result`.
- `Strings` holds the Python string operations the parser uses: `in`, `split` and
  `strip`.
- `Certificates` covers text to record.
- `Sheets` holds the cell grid and the `Worksheet` class. That class is the sheet that
  is changed in place, and also the table after the reload.
- `Attendance` holds the loops of the request, the function `Transform` that specifies
  the whole request, and the properties proved about it.

Rows and columns are counted from 0 in the model. Row 0 is the header row (spreadsheet
row 1), and column 0 is spreadsheet column 1.

Three consequences of the code that are easy to miss:

- `df['Updated Attendance'] = df['Total Attendance']` overwrites the leftmost column
  already titled `Updated Attendance`, and appends a new column only when there is none
  (`Sheets.TargetColumn`). So the "appended as the last column" layout
  (`Attendance.FreshSheetLayout`) is proved for sheets without such a column.
- `line.split(':')[1].strip()` keeps only the text between the first and the second
  colon of the line (`Certificates.FieldValueBetweenColons`), so a value never holds a
  colon.
- The name and enrollment cells are read after the insertion. So when
  `Total Attendance` is the first column, the enrollment cell read is the row's total (a
  number) and the name cell read is the new blank one. Neither can equal a record's
  text, so no row is marked `Yes` (`Attendance.TotalFirstMarksNothing`).
- `row['Medical Certificate']` reads the leftmost column with that title. When the
  uploaded sheet already has a `Medical Certificate` column left of `Total Attendance`,
  that older column stays the leftmost one after the insertion, and the bonus follows its
  values rather than the new marks (`Attendance.OlderCertificateColumnWins`,
  `Attendance.TransformCells`). So the bonus rule in terms of the new marks
  (`Attendance.UpdatedAttendance`) is proved for sheets with neither a
  `Medical Certificate` nor an `Updated Attendance` header.

## Model

| member | source | states |
|---|---|---|
| `Strings.Contains` | Skill_dev_project/app.py:35-37 | `pat in s` holds exactly when some window of `s` equals `pat` |
| `Strings.LabelHasColon` | Skill_dev_project/app.py:35-38 | a line holding a label that ends in `:` holds a colon, so `split(':')[1]` exists |
| `Strings.Split` | Skill_dev_project/app.py:34 | `split` yields at least one piece; it yields two or more exactly when the separator occurs; no piece holds the separator; joining the pieces gives the text back |
| `Strings.SplitJoin` | Skill_dev_project/app.py:34 | splitting what was joined from separator-free pieces gives those pieces back |
| `Strings.Strip` | Skill_dev_project/app.py:36-38 | `strip` returns a slice of the text, cut only where the text is whitespace, that neither starts nor ends with whitespace |
| `Strings.StripEmpty` | Skill_dev_project/app.py:36-41 | a stripped value is empty exactly when the text was all whitespace |
| `Strings.StripIdempotent` | Skill_dev_project/app.py:36-38 | stripping twice equals stripping once |
| `Strings.StripLeadingSpace` | Skill_dev_project/app.py:36-38 | a leading whitespace character does not change the stripped value |
| `Strings.StripAbsent` | Skill_dev_project/app.py:36-38 | stripping adds no character the text did not hold |
| `Strings.StripTrimmed` | Skill_dev_project/app.py:36-38 | a text with no whitespace at either end is its own stripped value |
| `Certificates.IsNameLine` | Skill_dev_project/app.py:35 | a line sets the name when it holds `Name:`; such a line holds a colon |
| `Certificates.IsEnrollmentLine` | Skill_dev_project/app.py:37 | a line sets the enrollment number when it holds `Enrollment Number:` and not `Name:` (the `elif`); such a line holds a colon |
| `Certificates.FieldValueBetweenColons` | Skill_dev_project/app.py:36-38 | the value of a line is the stripped text between its first colon and the next colon (or the end of the line) |
| `Certificates.FieldValue` | Skill_dev_project/app.py:36-38 | `line.split(':')[1].strip()` holds no colon and has no whitespace at either end |
| `Certificates.ScanLine` | Skill_dev_project/app.py:35-38 | one line changes at most one field: the name only on a `Name:` line, the enrollment number only on an enrollment line, each to a colon-free trimmed value |
| `Certificates.ScanLines` | Skill_dev_project/app.py:30-38 | after scanning any lines, both fields are colon-free and trimmed (empty when never set) |
| `Certificates.Certificate` | Skill_dev_project/app.py:30-42 | a certificate yields a record only with both fields non-empty, each colon-free and trimmed |
| `Certificates.NoNameLine` | Skill_dev_project/app.py:30-36 | with no `Name:` line, the name stays empty |
| `Certificates.LastNameLineWins` | Skill_dev_project/app.py:34-36 | the last `Name:` line decides the name |
| `Certificates.NoEnrollmentLine` | Skill_dev_project/app.py:30-38 | with no enrollment line, the enrollment number stays empty |
| `Certificates.LastEnrollmentLineWins` | Skill_dev_project/app.py:34-38 | the last line holding `Enrollment Number:` and not `Name:` decides the enrollment number |
| `Certificates.ParseCertificate` | Skill_dev_project/app.py:30-42 | the line loop computes the certificate's record; a record is produced only with a non-empty name and enrollment number |
| `Certificates.ParsedBatch` | Skill_dev_project/app.py:26-42 | one parse outcome per uploaded certificate, entry k being the parse of certificate k |
| `Certificates.Present` | Skill_dev_project/app.py:41-42 | keeping only the outcomes that hold a record, in order, gives no more values than entries |
| `Certificates.PresentMembers` | Skill_dev_project/app.py:41-42 | a value is collected exactly when some outcome holds it |
| `Certificates.Extracted` | Skill_dev_project/app.py:23-42 | a batch yields no more records than it has certificates |
| `Certificates.ExtractedFromSomeText` | Skill_dev_project/app.py:26-42 | a record is in the extracted list exactly when some certificate text yields it; a text that yields none contributes nothing |
| `Certificates.ExtractedAppend` | Skill_dev_project/app.py:26-42 | records come out in upload order: one more certificate appends its record, if it yields one, after the earlier ones |
| `Certificates.ExtractedRecordsAreComplete` | Skill_dev_project/app.py:41-42 | every extracted record has both fields non-empty, colon-free and trimmed |
| `Certificates.ExtractRecords` | Skill_dev_project/app.py:23-42 | the certificate loop collects exactly the extracted records, in upload order |
| `Certificates.NoNameLabelInEnrollmentLine` | Skill_dev_project/app.py:35-37 | an `Enrollment Number:` line with a colon-free value is not taken as a name line |
| `Certificates.ScanNameThenEnrollment` | Skill_dev_project/app.py:34-38 | a name line followed by an enrollment line sets both fields from them |
| `Certificates.LabelledLineValue` | Skill_dev_project/app.py:36-38 | the value of `<label> v` is `v` stripped, when the label's only colon is its last character and `v` has none |
| `Certificates.SplitCertificateText` | Skill_dev_project/app.py:34 | a two-line certificate text splits into its two lines |
| `Certificates.NameLineFacts` | Skill_dev_project/app.py:35-36 | `Name: v` is a name line whose value is `v` stripped |
| `Certificates.EnrollmentLineFacts` | Skill_dev_project/app.py:37-38 | `Enrollment Number: v` is an enrollment line whose value is `v` stripped |
| `Certificates.ScanCertificateLines` | Skill_dev_project/app.py:34-38 | scanning the two lines of a certificate recovers its fields |
| `Certificates.ParseCertificateText` | Skill_dev_project/app.py:30-42 | round trip: the text of a certificate laid out from a record parses back to that record, for every record whose fields are non-empty, colon-free, trimmed and newline-free (which `Certificates.Certificate` guarantees of its own records except for the newline) |
| `Sheets.FirstColumn` | Skill_dev_project/app.py:50-53 | the leftmost header cell equal to the title; none exactly when no cell equals it |
| `Sheets.FirstColumnKeptByPrefix` | Skill_dev_project/app.py:60-62 | a header found stays the leftmost match when the cells up to it are unchanged |
| `Sheets.WithBlankColumn` | Skill_dev_project/app.py:61 | `insert_cols`: same row count, one more column, earlier cells unchanged, a blank at the insertion point, later cells one place right |
| `Sheets.Place` | Skill_dev_project/app.py:93 | assigning a column writes the one cell, or appends it one past the end, and keeps the others |
| `Sheets.TargetColumn` | Skill_dev_project/app.py:93 | `df[title] =` writes the leftmost column so titled (no earlier header cell has that title), or a new last column when no header cell has it |
| `Sheets.ColumnCopyCells` | Skill_dev_project/app.py:93 | after `df[title] = df[src]` the target column holds the title and the source values; other cells are unchanged |
| `Sheets.WithColumnCopy` | Skill_dev_project/app.py:93 | `df[title] = df[src]` keeps the row count and yields a rectangular table, one column wider exactly when the title was new |
| `Sheets.Worksheet.constructor` | Skill_dev_project/app.py:45-46 | a loaded sheet holds exactly the given grid |
| `Sheets.Worksheet.InsertColumn` | Skill_dev_project/app.py:61 | the sheet becomes the grid with a blank column inserted, and its width grows by one |
| `Sheets.Worksheet.SetCell` | Skill_dev_project/app.py:62 | a cell write changes that one cell only |
| `Sheets.Worksheet.CopyColumn` | Skill_dev_project/app.py:93 | the table becomes the column copy, and the column written is returned |
| `Attendance.FindHeaderColumn` | Skill_dev_project/app.py:49-53 | the header loop with `break` finds the leftmost `Total Attendance` column, or none |
| `Attendance.RecordMatches` | Skill_dev_project/app.py:72 | a record matches a row when the row's name or enrollment cell is exactly that record's text; only a text cell can match |
| `Attendance.Matches` | Skill_dev_project/app.py:71-72 | some record has the row's name or enrollment number; only a text cell can match a record |
| `Attendance.CertificateMark` | Skill_dev_project/app.py:69-78 | a row's mark is `Yes` or `""`, and `Yes` exactly when some record matches the row |
| `Attendance.MatchIgnoresRecordOrder` | Skill_dev_project/app.py:71-75 | whether a row matches depends only on which records there are, not on their order or repetition |
| `Attendance.HasCertificate` | Skill_dev_project/app.py:69-75 | the record loop with `break` answers whether some record has the row's name or enrollment number |
| `Attendance.MarkedRows` | Skill_dev_project/app.py:65-78 | marking keeps the row count, the width, the header row, and every cell outside the certificate column |
| `Attendance.MarkCertificates` | Skill_dev_project/app.py:65-78 | the row loop writes each data row's mark in the certificate column and changes nothing else |
| `Attendance.Annotated` | Skill_dev_project/app.py:60-78 | inserting and marking keeps the row count and makes a rectangular sheet one column wider |
| `Attendance.AnnotatedCells` | Skill_dev_project/app.py:60-78 | columns up to Total Attendance unchanged, later ones one place right, `Medical Certificate` header, and each data row's mark computed from the cells read after the insertion |
| `Attendance.Transform` | Skill_dev_project/app.py:48-99 | a successful request returns a table with one row per sheet row |
| `Attendance.AnnotatedKeepsTotals` | Skill_dev_project/app.py:60-89 | after marking, `Total Attendance` is still found at the same column with the same numbers, and `Medical Certificate` is found |
| `Attendance.Eligible` | Skill_dev_project/app.py:97-98 | a row earns the bonus when its total is a number strictly below 60 and its mark is `Yes` |
| `Attendance.Plus` | Skill_dev_project/app.py:99 | `+= 5` on a number; other cells are left as they are |
| `Attendance.WithBonus` | Skill_dev_project/app.py:96-99 | the bonus keeps the row count |
| `Attendance.BonusCells` | Skill_dev_project/app.py:96-99 | the bonus adds 5 in the updated column of eligible data rows, and changes nothing else |
| `Attendance.ApplyBonus` | Skill_dev_project/app.py:96-99 | the `iterrows` loop yields exactly the bonus table |
| `Attendance.Adjusted` | Skill_dev_project/app.py:88-99 | the adjustment fails only with the missing-columns error and otherwise keeps the row count |
| `Attendance.AdjustedCells` | Skill_dev_project/app.py:89-99 | with both columns present, the adjustment succeeds, keeps every other cell, and sets Updated to total + 5 when total < 60 and the mark is `Yes`, else to the total |
| `Attendance.AdjustAttendance` | Skill_dev_project/app.py:88-99 | the column check, copy and bonus loop compute the adjustment; the table stays rectangular, is unchanged (cells and width) on the error, and is one column wider only when `Updated Attendance` was appended |
| `Attendance.TransformWithTotal` | Skill_dev_project/app.py:55-99 | with `Total Attendance` present, the request is the adjustment of the marked sheet |
| `Attendance.AnnotateSheet` | Skill_dev_project/app.py:60-78 | inserting, titling and marking turn the sheet into the marked sheet, one column wider |
| `Attendance.MarkedSheet` | Skill_dev_project/app.py:48-78 | the sheet after the request has the same rows and is rectangular, one column wider exactly when it has `Total Attendance` |
| `Attendance.ReloadAndAdjust` | Skill_dev_project/app.py:80-99 | the reload leaves the table unchanged, and the result is the adjustment of the saved sheet |
| `Attendance.AnnotateAndAdjust` | Skill_dev_project/app.py:60-99 | with `Total Attendance` at column t, the sheet becomes the marked sheet, one column wider and rectangular, and the result is the adjustment of it |
| `Attendance.TransformSheet` | Skill_dev_project/app.py:48-99 | the steps after reading the certificates compute the transform; the sheet stays rectangular, is unmodified (cells and width) when `Total Attendance` is missing, and is otherwise the marked sheet, one column wider |
| `Attendance.ProcessFiles` | Skill_dev_project/app.py:18-104 | the request computes the transform of the records extracted from the certificates; the sheet stays rectangular, is left unmodified (cells and width) when `Total Attendance` is missing, and is otherwise the marked sheet, one column wider |
| `Attendance.FailsOnlyWithoutTotal` | Skill_dev_project/app.py:55-57 | the request fails exactly when the sheet has no `Total Attendance` header, and then with that error; the later column check never fails |
| `Attendance.UpdatedColumnApart` | Skill_dev_project/app.py:60-62 | on the marked sheet, `Updated Attendance` is never the totals column nor the certificate column |
| `Attendance.TransformCells` | Skill_dev_project/app.py:60-99 | the output keeps every cell of the marked sheet outside `Updated Attendance`, which holds total + 5 on eligible rows and the total elsewhere |
| `Attendance.CertificateColumn` | Skill_dev_project/app.py:65-78 | every data row is marked `Yes` or `""`; `Yes` exactly when some record has the row's name or enrollment number; `Total Attendance` values unchanged |
| `Attendance.TotalFirstMarksNothing` | Skill_dev_project/app.py:60-78 | when `Total Attendance` is the first column, every data row is marked `""` |
| `Attendance.FreshHeaders` | Skill_dev_project/app.py:60-62 | on a sheet without the two new headers, `Medical Certificate` sits right after `Total Attendance` and `Updated Attendance` is new |
| `Attendance.FreshSheetLayout` | Skill_dev_project/app.py:60-93 | on a sheet without an `Updated Attendance` header, the output has two more columns, the certificate column after the totals, `Updated Attendance` last, and no other cell changed |
| `Attendance.OlderCertificateColumnWins` | Skill_dev_project/app.py:60-62 | a `Medical Certificate` column already left of `Total Attendance` stays the leftmost one, with its values, after the insertion |
| `Attendance.UpdatedAttendance` | Skill_dev_project/app.py:93-99 | on a sheet with neither a `Medical Certificate` nor an `Updated Attendance` header, Updated Attendance is total + 5 exactly when total < 60 and the mark is `Yes`, and the total otherwise (no bonus at 60) |

## Left out

- The Flask app: the routes, `index`, the template, reading `request.files`, `send_file` and `app.run`. These are web plumbing; the model's request takes the certificate texts and the sheet as parameters and returns the output grid.
- The OCR step (`Image.open`, `pytesseract.image_to_string`). It is a foreign call; each certificate enters as the text OCR produced.
- Loading and saving with openpyxl, and the pandas `read_excel`/`to_excel` round trip. The round trip is modelled as an identity copy of the grid into a new `Worksheet`, and the table's header row is row 0 of that grid.
- pandas type coercion. The model does not turn an empty string into NaN. It does not rename duplicate headers either; instead, column lookup takes the leftmost match, which is the column pandas keeps under the plain title.
- Floating-point and non-numeric attendance. Cells are whole numbers, blank, or text. `Attendance.ProcessFiles`, `Attendance.AdjustAttendance` and the lemmas about the output require every data cell under `Total Attendance` to be a number (`NumericTotals`). Under that assumption, the specification functions never add the bonus to a cell that is not a number, so what Python would do there (a type error for text, no bonus for NaN) is not modelled.
- The response payloads. The JSON error body and the plain-text error body are modelled only as the two variants of `Attendance.Error`; the 400 status is implied.
- Exceptions the libraries might raise on malformed uploads. A missing form field, an unreadable image or a corrupt workbook are not modelled.
- Strings are sequences of characters; `strip` uses the whitespace set of Python's `str.isspace`. There is no Unicode normalisation, and no character outside that set is treated as whitespace.
