/**
 Reading a student's identity off the OCR text of one medical certificate,
 and collecting the identities of a whole batch of certificates.

 The OCR engine itself is not modelled: each certificate enters as the text
 the engine produced for it.
 */
module Certificates {
  import opened Wrappers
  import opened Strings

  const NameLabel := "Name:"
  const EnrollmentLabel := "Enrollment Number:"

  /**
   A student's name and enrollment number as read off a certificate; also
   the two values while the lines of one text are being scanned.
   */
  datatype Record = Record(name: string, enrollment: string)

  /** A value as the parser reads it: no colon, and no whitespace at either end. */
  predicate IsFieldValue(v: string) {
    ':' !in v && Trimmed(v)
  }

  /** A line that sets the name. */
  predicate IsNameLine(line: string)
    ensures IsNameLine(line) ==> ':' in line
  {
    if Contains(line, NameLabel) then
      LabelHasColon(line, NameLabel);
      true
    else false
  }

  /** A line that sets the enrollment number: only when it does not also set the name. */
  predicate IsEnrollmentLine(line: string)
    ensures IsEnrollmentLine(line) ==> ':' in line
  {
    if !IsNameLine(line) && Contains(line, EnrollmentLabel) then
      LabelHasColon(line, EnrollmentLabel);
      true
    else false
  }

  /** `line.split(':')[1].strip()`: the text between the first and second colon, stripped. */
  function FieldValue(line: string): (v: string)
    requires ':' in line
    ensures IsFieldValue(v)
  {
    var segment := Split(line, ':')[1];
    StripAbsent(segment, ':');
    Strip(segment)
  }

  /** The value of a labelled line is the stripped text between its first two colons. */
  lemma {:induction false} FieldValueBetweenColons(line: string, before: string, segment: string, after: string)
    requires line == before + [':'] + segment + after
    requires ':' !in before && ':' !in segment
    requires after == [] || after[0] == ':'
    ensures ':' in line
    ensures FieldValue(line) == Strip(segment)
  {
    assert line[|before|] == ':';
    var i := IndexOf(line, ':');
    assert i == |before| by {
      assert line[..|before|] == before;
    }
    var rest := line[i + 1..];
    assert rest == segment + after;
    if after == [] {
      assert rest == segment;
      assert Split(rest, ':') == [segment];
    } else {
      assert rest[|segment|] == ':';
      var k := IndexOf(rest, ':');
      assert k == |segment| by {
        assert rest[..|segment|] == segment;
      }
      assert rest[..k] == segment;
    }
    assert Split(line, ':')[1] == segment;
  }

  /** How one line changes the fields: the `if`/`elif` of the scan. */
  function ScanLine(fields: Record, line: string): (r: Record)
    ensures r.name == fields.name || r.enrollment == fields.enrollment
    ensures r.name != fields.name ==> IsNameLine(line) && IsFieldValue(r.name)
    ensures r.enrollment != fields.enrollment ==> IsEnrollmentLine(line) && IsFieldValue(r.enrollment)
  {
    if IsNameLine(line) then
      LabelHasColon(line, NameLabel);
      fields.(name := FieldValue(line))
    else if IsEnrollmentLine(line) then
      LabelHasColon(line, EnrollmentLabel);
      fields.(enrollment := FieldValue(line))
    else fields
  }

  /** The fields after scanning `lines` in order, starting from two empty strings. */
  function ScanLines(lines: seq<string>): (r: Record)
    ensures IsFieldValue(r.name) && IsFieldValue(r.enrollment)
  {
    if lines == [] then Record("", "")
    else ScanLine(ScanLines(lines[..|lines| - 1]), lines[|lines| - 1])
  }

  /** The record a certificate text yields, if both fields came out non-empty. */
  function Certificate(text: string): (r: Option<Record>)
    ensures r.Some? ==> r.value.name != "" && r.value.enrollment != ""
    ensures r.Some? ==> IsFieldValue(r.value.name) && IsFieldValue(r.value.enrollment)
  {
    var fields := ScanLines(Split(text, '\n'));
    if fields.name != "" && fields.enrollment != "" then Some(Record(fields.name, fields.enrollment))
    else None
  }

  /** With no name line among `lines`, the name stays empty. */
  lemma {:induction false} NoNameLine(lines: seq<string>)
    requires forall k :: 0 <= k < |lines| ==> !IsNameLine(lines[k])
    ensures ScanLines(lines).name == ""
  {
    if lines != [] {
      NoNameLine(lines[..|lines| - 1]);
    }
  }

  /** The last name line decides the name, whatever the name lines before it said. */
  lemma {:induction false} LastNameLineWins(lines: seq<string>, k: nat)
    requires k < |lines| && IsNameLine(lines[k])
    requires forall j :: k < j < |lines| ==> !IsNameLine(lines[j])
    ensures ':' in lines[k] && ScanLines(lines).name == FieldValue(lines[k])
  {
    LabelHasColon(lines[k], NameLabel);
    if k < |lines| - 1 {
      var init := lines[..|lines| - 1];
      assert init[k] == lines[k];
      LastNameLineWins(init, k);
    }
  }

  /** With no enrollment line among `lines`, the enrollment number stays empty. */
  lemma {:induction false} NoEnrollmentLine(lines: seq<string>)
    requires forall k :: 0 <= k < |lines| ==> !IsEnrollmentLine(lines[k])
    ensures ScanLines(lines).enrollment == ""
  {
    if lines != [] {
      NoEnrollmentLine(lines[..|lines| - 1]);
    }
  }

  /**
   The last enrollment line decides the enrollment number. A line holding
   "Name:" is never an enrollment line, even when it also holds
   "Enrollment Number:".
   */
  lemma {:induction false} LastEnrollmentLineWins(lines: seq<string>, k: nat)
    requires k < |lines| && IsEnrollmentLine(lines[k])
    requires forall j :: k < j < |lines| ==> !IsEnrollmentLine(lines[j])
    ensures ':' in lines[k] && ScanLines(lines).enrollment == FieldValue(lines[k])
  {
    LabelHasColon(lines[k], EnrollmentLabel);
    if k < |lines| - 1 {
      var init := lines[..|lines| - 1];
      assert init[k] == lines[k];
      LastEnrollmentLineWins(init, k);
    }
  }

  /**
   Parses one certificate text: scans its lines, letting a later labelled
   line overwrite an earlier one, and yields a record only when both fields
   are non-empty.
   */
  method ParseCertificate(text: string) returns (record: Option<Record>)
    ensures record == Certificate(text)
    ensures record.Some? ==> record.value.name != "" && record.value.enrollment != ""
  {
    var lines := Split(text, '\n');
    var name, enrollment := "", "";
    for i := 0 to |lines|
      invariant Record(name, enrollment) == ScanLines(lines[..i])
    {
      var line := lines[i];
      assert lines[..i + 1][..i] == lines[..i];
      if Contains(line, NameLabel) {
        LabelHasColon(line, NameLabel);
        name := FieldValue(line);
      } else if Contains(line, EnrollmentLabel) {
        LabelHasColon(line, EnrollmentLabel);
        enrollment := FieldValue(line);
      }
    }
    assert lines[..|lines|] == lines;
    if name != "" && enrollment != "" {
      record := Some(Record(name, enrollment));
    } else {
      record := None;
    }
  }

  /** The values present in `opts`, in order. */
  function Present<T>(opts: seq<Option<T>>): (values: seq<T>)
    ensures |values| <= |opts|
  {
    if opts == [] then []
    else
      var last := opts[|opts| - 1];
      Present(opts[..|opts| - 1]) + (if last.Some? then [last.value] else [])
  }

  /** A value is present exactly when some entry holds it. */
  lemma {:induction false} PresentMembers<T>(opts: seq<Option<T>>, x: T)
    ensures x in Present(opts) <==> Some(x) in opts
  {
    if opts != [] {
      var init := opts[..|opts| - 1];
      PresentMembers(init, x);
      assert opts == init + [opts[|opts| - 1]];
    }
  }

  /** The outcome of parsing each certificate text of a batch, in upload order. */
  function ParsedBatch(texts: seq<string>): (parsed: seq<Option<Record>>)
    ensures |parsed| == |texts|
    ensures forall k :: 0 <= k < |texts| ==> parsed[k] == Certificate(texts[k])
  {
    seq(|texts|, k requires 0 <= k < |texts| => Certificate(texts[k]))
  }

  /** The records of a batch of texts, in upload order, skipping texts that yield none. */
  function Extracted(texts: seq<string>): (records: seq<Record>)
    ensures |records| <= |texts|
  {
    Present(ParsedBatch(texts))
  }

  /** A record is extracted exactly when some certificate text yields it. */
  lemma {:induction false} ExtractedFromSomeText(texts: seq<string>, r: Record)
    ensures r in Extracted(texts) <==> exists k :: 0 <= k < |texts| && Certificate(texts[k]) == Some(r)
  {
    var parsed := ParsedBatch(texts);
    PresentMembers(parsed, r);
    if r in Extracted(texts) {
      var k :| 0 <= k < |parsed| && parsed[k] == Some(r);
      assert Certificate(texts[k]) == Some(r);
    }
    if exists k :: 0 <= k < |texts| && Certificate(texts[k]) == Some(r) {
      var k :| 0 <= k < |texts| && Certificate(texts[k]) == Some(r);
      assert parsed[k] == Some(r);
    }
  }

  /** Certificates are read in upload order: a further text appends its record, if it yields one. */
  lemma {:induction false} ExtractedAppend(texts: seq<string>, text: string)
    ensures Extracted(texts + [text])
         == Extracted(texts) + (if Certificate(text).Some? then [Certificate(text).value] else [])
  {
    var parsed := ParsedBatch(texts + [text]);
    assert parsed[..|parsed| - 1] == ParsedBatch(texts);
    assert parsed[|parsed| - 1] == Certificate(text);
  }

  /** Every extracted record has a non-empty name and enrollment number, each as the parser reads values. */
  lemma {:induction false} ExtractedRecordsAreComplete(texts: seq<string>)
    ensures forall r :: r in Extracted(texts) ==>
      && r.name != "" && r.enrollment != ""
      && IsFieldValue(r.name) && IsFieldValue(r.enrollment)
  {
    forall r | r in Extracted(texts)
      ensures r.name != "" && r.enrollment != "" && IsFieldValue(r.name) && IsFieldValue(r.enrollment)
    {
      ExtractedFromSomeText(texts, r);
    }
  }

  /** Runs the parser over every certificate text of the batch, collecting the records. */
  method ExtractRecords(texts: seq<string>) returns (records: seq<Record>)
    ensures records == Extracted(texts)
  {
    ghost var parsed := ParsedBatch(texts);
    records := [];
    for i := 0 to |texts|
      invariant records == Present(parsed[..i])
    {
      var record := ParseCertificate(texts[i]);
      assert parsed[..i + 1][..i] == parsed[..i];
      if record.Some? {
        records := records + [record.value];
      }
    }
    assert parsed[..|texts|] == parsed;
  }

  /** A certificate laid out as the parser expects it: a name line, then an enrollment line. */
  function CertificateText(r: Record): string {
    NameLabel + " " + r.name + "\n" + EnrollmentLabel + " " + r.enrollment
  }

  /** An enrollment line with a colon-free value never holds "Name:" (the "me:" of "Number:" is not preceded by "Na"). */
  lemma NoNameLabelInEnrollmentLine(e: string)
    requires ':' !in e
    ensures !Contains(EnrollmentLabel + " " + e, NameLabel)
  {
    var line := EnrollmentLabel + " " + e;
    forall k | 0 <= k < |line| ensures line[k] == ':' ==> k == 17 {
      if k < 18 {
        assert line[k] == EnrollmentLabel[k];
      } else if k > 18 {
        assert line[k] == e[k - 19];
      }
    }
    forall i: nat ensures !OccursAt(line, NameLabel, i) {
      if i + 5 <= |line| {
        assert line[i..i + 5][4] == line[i + 4];
        if i == 13 {
          assert line[i..i + 5][0] == 'm';
        }
      }
    }
  }

  /** A name line followed by an enrollment line sets both fields from them. */
  lemma ScanNameThenEnrollment(nameLine: string, enrollmentLine: string)
    requires IsNameLine(nameLine) && IsEnrollmentLine(enrollmentLine)
    ensures ':' in nameLine && ':' in enrollmentLine
    ensures ScanLines([nameLine, enrollmentLine]) == Record(FieldValue(nameLine), FieldValue(enrollmentLine))
  {
    LabelHasColon(nameLine, NameLabel);
    LabelHasColon(enrollmentLine, EnrollmentLabel);
    assert [nameLine, enrollmentLine][..1] == [nameLine];
    assert [nameLine][..0] == [];
  }

  /** The value of "<label> <v>" is `v` stripped, when the label has a single colon at its end and `v` has none. */
  lemma LabelledLineValue(tag: string, v: string)
    requires |tag| > 0 && tag[|tag| - 1] == ':' && ':' !in tag[..|tag| - 1] && ':' !in v
    ensures ':' in tag + " " + v
    ensures FieldValue(tag + " " + v) == Strip(v)
  {
    var key := tag[..|tag| - 1];
    var line := tag + " " + v;
    assert tag == key + [':'];
    assert line == key + [':'] + (" " + v) + "";
    FieldValueBetweenColons(line, key, " " + v, "");
    StripLeadingSpace(' ', v);
  }

  /** Each label ends with its only colon. */
  lemma LabelShapes()
    ensures NameLabel[|NameLabel| - 1] == ':' && ':' !in NameLabel[..|NameLabel| - 1]
    ensures EnrollmentLabel[|EnrollmentLabel| - 1] == ':' && ':' !in EnrollmentLabel[..|EnrollmentLabel| - 1]
  {
  }

  /** A certificate text splits into its two lines. */
  lemma SplitCertificateText(r: Record)
    requires '\n' !in r.name && '\n' !in r.enrollment
    ensures Split(CertificateText(r), '\n') == [NameLabel + " " + r.name, EnrollmentLabel + " " + r.enrollment]
  {
    var lines := [NameLabel + " " + r.name, EnrollmentLabel + " " + r.enrollment];
    assert Join(lines, '\n') == CertificateText(r);
    SplitJoin(lines, '\n');
  }

  /** "Name: v" is a name line carrying `v`. */
  lemma NameLineFacts(v: string)
    requires ':' !in v
    ensures IsNameLine(NameLabel + " " + v) && ':' in NameLabel + " " + v
    ensures FieldValue(NameLabel + " " + v) == Strip(v)
  {
    LabelShapes();
    LabelledLineValue(NameLabel, v);
    assert OccursAt(NameLabel + " " + v, NameLabel, 0);
  }

  /** "Enrollment Number: v" is an enrollment line carrying `v`. */
  lemma EnrollmentLineFacts(v: string)
    requires ':' !in v
    ensures IsEnrollmentLine(EnrollmentLabel + " " + v) && ':' in EnrollmentLabel + " " + v
    ensures FieldValue(EnrollmentLabel + " " + v) == Strip(v)
  {
    LabelShapes();
    LabelledLineValue(EnrollmentLabel, v);
    NoNameLabelInEnrollmentLine(v);
    assert OccursAt(EnrollmentLabel + " " + v, EnrollmentLabel, 0);
  }

  /** Scanning the two lines of a certificate recovers its fields. */
  lemma ScanCertificateLines(r: Record)
    requires IsFieldValue(r.name) && IsFieldValue(r.enrollment)
    ensures ScanLines([NameLabel + " " + r.name, EnrollmentLabel + " " + r.enrollment]) == r
  {
    StripTrimmed(r.name);
    StripTrimmed(r.enrollment);
    NameLineFacts(r.name);
    EnrollmentLineFacts(r.enrollment);
    ScanNameThenEnrollment(NameLabel + " " + r.name, EnrollmentLabel + " " + r.enrollment);
  }

  /**
   Round trip: parsing the text of a certificate laid out from a record gives
   that record back, when both fields are non-empty, colon- and newline-free
   and already stripped.
   */
  lemma ParseCertificateText(r: Record)
    requires r.name != "" && r.enrollment != ""
    requires IsFieldValue(r.name) && IsFieldValue(r.enrollment)
    requires '\n' !in r.name && '\n' !in r.enrollment
    ensures Certificate(CertificateText(r)) == Some(r)
  {
    SplitCertificateText(r);
    ScanCertificateLines(r);
  }
}
