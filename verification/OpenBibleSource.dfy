/** Parsing of the OpenBible table without losing a row (src/echoes/benchmarks/openbible.py). Decoding, the
    reference pattern, integer literals, the digest and the canonical encoding of one record are parameters. */
module OpenBibleSources {
  import opened Wrappers
  import opened ByteLines
  import opened CanonicalStreams
  import Text

  const TAB: Byte := 9
  const STREAM_TITLE: string := "project-echoes:openbible-canonical-stream:openbible-tsv-v1"
  const HEADER: seq<string> := ["From Verse", "To Verse", "Votes", "#www.openbible.info CC-BY 2026-07-06"]

  const EMPTY_NOTE: string := "one or more reference fields are empty"
  const EMPTY_CODE: string := "empty_reference"
  const SYNTAX_NOTE: string := "reference does not match Book.Chapter.Verse syntax"
  const SYNTAX_CODE: string := "invalid_reference_syntax"
  const WEIGHT_NOTE: string := "weight is not a signed decimal integer"
  const WEIGHT_CODE: string := "noninteger_weight"
  const NEGATIVE_CODE: string := "negative_weight"
  const BLANK_NOTE: string := "blank source record"
  const BLANK_CODE: string := "blank_record"
  const COLUMNS_NOTE: string := "expected 3 TSV fields; observed "
  const COLUMNS_CODE: string := "unexpected_columns"
  const ENCODING_NOTE: string := "record is not valid UTF-8"
  const ENCODING_CODE: string := "invalid_encoding"

  function Ascii(s: string): Bytes {
    seq(|s|, i requires 0 <= i < |s| => s[i] as int % 256)
  }

  function Preamble(): Bytes { Ascii(STREAM_TITLE) + [0] }

  datatype Reader = Reader(decodes: Bytes -> bool, isReference: Bytes -> bool, weigh: Bytes -> Option<int>)

  datatype Status =
    Parsed | BlankRecord | WrongColumnCount | WrongEncoding | EmptyReference | WrongReference | WrongWeight

  datatype Severity = Error | Informational

  datatype Issue = Issue(severity: Severity, code: string, line: nat)

  /** The part of a record that is digested; the row itself enters by its own digest. */
  datatype Canonical = Canonical(notes: string, status: Status, rowDigest: string, referenceA: Bytes,
                                 referenceB: Bytes, weight: Option<int>)

  datatype Record = Record(line: nat, raw: Bytes, canonical: Canonical)

  /** What is found out about one row: status, notes, both references, weight and issues. */
  datatype Finding = Finding(status: Status, notes: seq<string>, referenceA: Bytes, referenceB: Bytes,
                             weight: Option<int>, issues: seq<Issue>)

  function Failing(status: Status, note: string, code: string, line: nat): Finding {
    Finding(status, [note], [], [], None, [Issue(Error, code, line)])
  }

  function CheckReferences(a: Bytes, b: Bytes, line: nat, reader: Reader): Finding {
    if a == [] || b == [] then
      Failing(EmptyReference, EMPTY_NOTE, EMPTY_CODE, line).(referenceA := a, referenceB := b)
    else if !reader.isReference(a) || !reader.isReference(b) then
      Failing(WrongReference, SYNTAX_NOTE, SYNTAX_CODE, line).(referenceA := a, referenceB := b)
    else Finding(Parsed, [], a, b, None, [])
  }

  /** A weight is read even when the references are wrong; a wrong weight then takes over the status. */
  function CheckWeight(f: Finding, text: Bytes, line: nat, reader: Reader): Finding {
    match reader.weigh(text)
    case None =>
      f.(status := WrongWeight, notes := f.notes + [WEIGHT_NOTE],
         issues := f.issues + [Issue(Error, WEIGHT_CODE, line)])
    case Some(weight) =>
      f.(weight := Some(weight),
         issues := f.issues + if weight < 0 then [Issue(Informational, NEGATIVE_CODE, line)] else [])
  }

  function Findings(raw: Bytes, line: nat, reader: Reader): Finding {
    if raw == [] then Failing(BlankRecord, BLANK_NOTE, BLANK_CODE, line)
    else
      var fields := Text.Split(raw, TAB);
      if |fields| != 3 then
        Failing(WrongColumnCount, COLUMNS_NOTE + Text.PrintNat(|fields|), COLUMNS_CODE, line)
      else if !reader.decodes(fields[0]) || !reader.decodes(fields[1]) || !reader.decodes(fields[2]) then
        Failing(WrongEncoding, ENCODING_NOTE, ENCODING_CODE, line).(
          referenceA := if reader.decodes(fields[0]) then fields[0] else [],
          referenceB := if reader.decodes(fields[0]) && reader.decodes(fields[1]) then fields[1] else [])
      else CheckWeight(CheckReferences(fields[0], fields[1], line, reader), fields[2], line, reader)
  }

  function RecordOf(raw: Bytes, line: nat, f: Finding, hash: Bytes -> string): Record {
    Record(line, raw, Canonical(Text.Join(f.notes, "; "), f.status, hash(raw), f.referenceA, f.referenceB, f.weight))
  }

  /** `_parse_record` */
  function ParseRecord(raw: Bytes, line: nat, reader: Reader, hash: Bytes -> string): (Record, seq<Issue>) {
    var f := Findings(raw, line, reader);
    (RecordOf(raw, line, f, hash), f.issues)
  }

  /** The issues of a list of findings, in order. */
  function Gathered(findings: seq<Finding>): seq<Issue> {
    if findings == [] then [] else var n := |findings| - 1; Gathered(findings[..n]) + findings[n].issues
  }

  function AllFindings(rows: seq<Bytes>, reader: Reader): seq<Finding> {
    seq(|rows|, i requires 0 <= i < |rows| => Findings(rows[i], i + 2, reader))
  }

  function Issues(rows: seq<Bytes>, reader: Reader): seq<Issue> { Gathered(AllFindings(rows, reader)) }

  function Recorded(rows: seq<Bytes>, findings: seq<Finding>, hash: Bytes -> string): seq<Record>
    requires |rows| == |findings|
  {
    seq(|rows|, i requires 0 <= i < |rows| => RecordOf(rows[i], i + 2, findings[i], hash))
  }

  function Records(rows: seq<Bytes>, reader: Reader, hash: Bytes -> string): seq<Record> {
    Recorded(rows, AllFindings(rows, reader), hash)
  }

  function Payloads(records: seq<Record>, encode: Canonical -> Bytes): seq<Bytes> {
    seq(|records|, i requires 0 <= i < |records| => encode(records[i].canonical))
  }

  datatype ParseResult = ParseResult(records: seq<Record>, issues: seq<Issue>, newline: Newline, finalNewline: bool,
                                     digest: string)

  predicate HasByteOrderMark(d: Bytes) {
    [255, 254] <= d || [254, 255] <= d || [239, 187, 191] <= d
  }

  predicate HasHeader(lines: seq<Bytes>) {
    lines != [] && Text.Split(lines[0], TAB) == [Ascii(HEADER[0]), Ascii(HEADER[1]), Ascii(HEADER[2]), Ascii(HEADER[3])]
  }

  predicate IsTable(d: Bytes, reader: Reader) {
    d != [] && !HasByteOrderMark(d) && reader.decodes(d) && HasHeader(SplitLines(d))
  }

  /** Whether a file can be parsed at all. */
  predicate Parses(d: Bytes, reader: Reader, hash: Bytes -> string, encode: Canonical -> Bytes) {
    && IsTable(d, reader)
    && AllFit(Payloads(Records(SplitLines(d)[1..], reader, hash), encode))
  }

  function ParsedFile(d: Bytes, reader: Reader, hash: Bytes -> string, encode: Canonical -> Bytes): ParseResult
    requires Parses(d, reader, hash, encode)
  {
    var rows := SplitLines(d)[1..];
    var records := Records(rows, reader, hash);
    ParseResult(records, Issues(rows, reader), NewlineOf(d), EndsWithBreak(d),
      hash(Preamble() + Framed(Payloads(records, encode))))
  }

  lemma {:induction false} OneMoreFinding(rows: seq<Bytes>, i: nat, reader: Reader, hash: Bytes -> string)
    requires i < |rows|
    ensures var parsed := ParseRecord(rows[i], i + 2, reader, hash);
            && Issues(rows[..i + 1], reader) == Issues(rows[..i], reader) + parsed.1
            && Records(rows[..i + 1], reader, hash) == Records(rows[..i], reader, hash) + [parsed.0]
  {
    assert AllFindings(rows[..i + 1], reader)[..i] == AllFindings(rows[..i], reader);
  }

  method ParseRows(rows: seq<Bytes>, reader: Reader, hash: Bytes -> string)
    returns (records: seq<Record>, issues: seq<Issue>)
    ensures records == Records(rows, reader, hash) && issues == Issues(rows, reader)
  {
    records, issues := [], [];
    for i := 0 to |rows|
      invariant records == Records(rows[..i], reader, hash) && issues == Issues(rows[..i], reader)
    {
      OneMoreFinding(rows, i, reader, hash);
      var parsed := ParseRecord(rows[i], i + 2, reader, hash);
      records := records + [parsed.0];
      issues := issues + parsed.1;
    }
    assert rows[..|rows|] == rows;
  }

  /** `parse_openbible_source` */
  method ParseSource(d: Bytes, reader: Reader, hash: Bytes -> string, encode: Canonical -> Bytes)
    returns (r: Option<ParseResult>)
    ensures r == if Parses(d, reader, hash, encode) then Some(ParsedFile(d, reader, hash, encode)) else None
  {
    if !IsTable(d, reader) {
      return None;
    }
    var records, issues := ParseRows(SplitLines(d)[1..], reader, hash);
    var digest := HashStream(Preamble(), Payloads(records, encode), hash);
    if digest.None? {
      return None;
    }
    r := Some(ParseResult(records, issues, NewlineOf(d), EndsWithBreak(d), digest.value));
  }

  // ---- no row is lost, and none is condemned in silence ----

  /** All issues name the line, and the status is parsed exactly when none is an error. */
  ghost predicate Explained(f: Finding, line: nat) {
    && (forall issue | issue in f.issues :: issue.line == line)
    && (f.status == Parsed <==> forall issue | issue in f.issues :: issue.severity != Error)
  }

  lemma {:induction false} FailingIsExplained(f: Finding, line: nat, code: string)
    requires f.status != Parsed && f.issues == [Issue(Error, code, line)]
    ensures Explained(f, line)
  {
    assert f.issues[0] in f.issues;
  }

  lemma {:induction false} WeightIsExplained(f: Finding, text: Bytes, line: nat, reader: Reader)
    requires Explained(f, line)
    ensures Explained(CheckWeight(f, text, line, reader), line)
  {
    var g := CheckWeight(f, text, line, reader);
    if reader.weigh(text).None? {
      assert g.issues[|f.issues|] in g.issues;
    } else {
      assert forall issue | issue in f.issues :: issue in g.issues;
    }
  }

  lemma {:induction false} FindingsAreExplained(raw: Bytes, line: nat, reader: Reader)
    ensures Explained(Findings(raw, line, reader), line)
  {
    var f := Findings(raw, line, reader);
    var fields := Text.Split(raw, TAB);
    if raw == [] || |fields| != 3 || !reader.decodes(fields[0]) || !reader.decodes(fields[1])
      || !reader.decodes(fields[2]) {
      FailingIsExplained(f, line, f.issues[0].code);
    } else {
      var g := CheckReferences(fields[0], fields[1], line, reader);
      if g.status != Parsed {
        FailingIsExplained(g, line, g.issues[0].code);
      }
      WeightIsExplained(g, fields[2], line, reader);
    }
  }

  /** The issue is an error on the line. */
  predicate Condemns(issue: Issue, line: nat) { issue.line == line && issue.severity == Error }

  ghost predicate Condemned(issues: seq<Issue>, line: nat) {
    exists issue :: issue in issues && Condemns(issue, line)
  }

  lemma {:induction false} CondemnedInEither(front: seq<Issue>, last: seq<Issue>, line: nat)
    ensures Condemned(front + last, line) <==> Condemned(front, line) || Condemned(last, line)
  {
    if issue :| issue in front && Condemns(issue, line) { assert issue in front + last; }
    if issue :| issue in last && Condemns(issue, line) { assert issue in front + last; }
  }

  lemma {:induction false} ExplainedIsCondemned(f: Finding, line: nat)
    requires Explained(f, line)
    ensures Condemned(f.issues, line) <==> f.status != Parsed
    ensures forall other: nat | other != line :: !Condemned(f.issues, other)
  {
    if issue :| issue in f.issues && issue.severity == Error { assert Condemns(issue, line); }
  }

  predicate IsReadable(fields: seq<Bytes>, reader: Reader) {
    |fields| == 3 && reader.decodes(fields[0]) && reader.decodes(fields[1]) && reader.decodes(fields[2])
  }

  predicate IsLink(fields: seq<Bytes>, reader: Reader)
    requires |fields| == 3
  {
    && fields[0] != [] && fields[1] != [] && reader.isReference(fields[0]) && reader.isReference(fields[1])
    && reader.weigh(fields[2]).Some?
  }

  lemma {:induction false} FieldFindings(fields: seq<Bytes>, line: nat, reader: Reader)
    requires |fields| == 3
    ensures var f := CheckWeight(CheckReferences(fields[0], fields[1], line, reader), fields[2], line, reader);
            && f.referenceA == fields[0] && f.referenceB == fields[1] && f.weight == reader.weigh(fields[2])
            && (f.status == Parsed <==> IsLink(fields, reader))
  {
  }

  /** A row of three readable fields keeps all three, whatever is wrong with them; and a row is parsed exactly when
      its three readable fields are two references and an integer. */
  lemma {:induction false} ParsedExactlyWhen(raw: Bytes, line: nat, reader: Reader)
    ensures var f := Findings(raw, line, reader); var fields := Text.Split(raw, TAB);
            && (raw != [] && IsReadable(fields, reader) ==>
                  f.referenceA == fields[0] && f.referenceB == fields[1] && f.weight == reader.weigh(fields[2]))
            && (f.status == Parsed <==> raw != [] && IsReadable(fields, reader) && IsLink(fields, reader))
  {
    var fields := Text.Split(raw, TAB);
    if |fields| == 3 { FieldFindings(fields, line, reader); }
  }

  /** The row has three fields, and the ones up to the given are text. */
  predicate ReadsTo(raw: Bytes, n: nat, reader: Reader)
    requires n < 3
  {
    var fields := Text.Split(raw, TAB);
    raw != [] && |fields| == 3 && forall i | 0 <= i <= n :: reader.decodes(fields[i])
  }

  /** Which status a row gets: the first thing wrong with it, except that a wrong weight has the last word. */
  lemma {:induction false} StatusExactlyWhen(raw: Bytes, line: nat, reader: Reader)
    ensures var status := Findings(raw, line, reader).status; var fields := Text.Split(raw, TAB);
            var readable := ReadsTo(raw, 2, reader);
            && (status == BlankRecord <==> raw == [])
            && (status == WrongColumnCount <==> raw != [] && |fields| != 3)
            && (status == WrongEncoding <==> raw != [] && |fields| == 3 && !readable)
            && (status == WrongWeight <==> readable && reader.weigh(fields[2]).None?)
            && (status == EmptyReference <==>
                  readable && reader.weigh(fields[2]).Some? && (fields[0] == [] || fields[1] == []))
            && (status == WrongReference <==>
                  && readable && reader.weigh(fields[2]).Some? && fields[0] != [] && fields[1] != []
                  && !(reader.isReference(fields[0]) && reader.isReference(fields[1])))
  {
    if raw != [] && |Text.Split(raw, TAB)| == 3 {
      assert ReadsTo(raw, 2, reader) <==> IsReadable(Text.Split(raw, TAB), reader);
    }
  }

  predicate HasIssue(f: Finding, severity: Severity, code: string, line: nat) {
    Issue(severity, code, line) in f.issues
  }

  /** Which issues a readable row raises: one about its references, one about its weight, each exactly under its
      condition, and only a negative weight is no error. */
  lemma {:induction false} ReadableRowRaises(raw: Bytes, line: nat, reader: Reader)
    requires ReadsTo(raw, 2, reader)
    ensures var f, fields := Findings(raw, line, reader), Text.Split(raw, TAB);
            var blank := fields[0] == [] || fields[1] == [];
            && (HasIssue(f, Error, "empty_reference", line) <==> blank)
            && (HasIssue(f, Error, "invalid_reference_syntax", line) <==>
                  !blank && !(reader.isReference(fields[0]) && reader.isReference(fields[1])))
            && (HasIssue(f, Error, "noninteger_weight", line) <==> reader.weigh(fields[2]).None?)
            && (HasIssue(f, Informational, "negative_weight", line) <==>
                  reader.weigh(fields[2]).Some? && reader.weigh(fields[2]).value < 0)
            && |f.issues| <= 2
  {
    var fields := Text.Split(raw, TAB);
    assert IsReadable(fields, reader);
    var a, b := ReferenceIssues(fields, line, reader), WeightIssues(fields, line, reader);
    RaisedInTwo(raw, line, reader);
    OneIssueRaised(a, b, line);
  }

  /** The issues about the references, and about the weight. */
  function ReferenceIssues(fields: seq<Bytes>, line: nat, reader: Reader): seq<Issue>
    requires |fields| == 3
  {
    if fields[0] == [] || fields[1] == [] then [Issue(Error, EMPTY_CODE, line)]
    else if !(reader.isReference(fields[0]) && reader.isReference(fields[1])) then [Issue(Error, SYNTAX_CODE, line)]
    else []
  }

  function WeightIssues(fields: seq<Bytes>, line: nat, reader: Reader): seq<Issue>
    requires |fields| == 3
  {
    match reader.weigh(fields[2])
    case None => [Issue(Error, WEIGHT_CODE, line)]
    case Some(weight) => if weight < 0 then [Issue(Informational, NEGATIVE_CODE, line)] else []
  }

  lemma {:induction false} RaisedInTwo(raw: Bytes, line: nat, reader: Reader)
    requires ReadsTo(raw, 2, reader)
    ensures var fields := Text.Split(raw, TAB);
            Findings(raw, line, reader).issues
            == ReferenceIssues(fields, line, reader) + WeightIssues(fields, line, reader)
  {
    assert IsReadable(Text.Split(raw, TAB), reader);
  }

  lemma {:induction false} OneIssueRaised(a: seq<Issue>, b: seq<Issue>, line: nat)
    requires a in [[Issue(Error, EMPTY_CODE, line)], [Issue(Error, SYNTAX_CODE, line)], []]
    requires b in [[Issue(Error, WEIGHT_CODE, line)], [Issue(Informational, NEGATIVE_CODE, line)], []]
    ensures Issue(Error, EMPTY_CODE, line) in a + b <==> a == [Issue(Error, EMPTY_CODE, line)]
    ensures Issue(Error, SYNTAX_CODE, line) in a + b <==> a == [Issue(Error, SYNTAX_CODE, line)]
    ensures Issue(Error, WEIGHT_CODE, line) in a + b <==> b == [Issue(Error, WEIGHT_CODE, line)]
    ensures Issue(Informational, NEGATIVE_CODE, line) in a + b <==> b == [Issue(Informational, NEGATIVE_CODE, line)]
  {
    CodesDiffer();
  }

  lemma {:induction false} CodesDiffer()
    ensures |EMPTY_CODE| == 15 && |SYNTAX_CODE| == 24 && |WEIGHT_CODE| == 17 && |NEGATIVE_CODE| == 15
    ensures EMPTY_CODE != NEGATIVE_CODE
  {
    assert EMPTY_CODE[0] != NEGATIVE_CODE[0];
  }

  /** An unreadable row raises one error, and keeps what could be read before the first field that could not. */
  lemma {:induction false} UnreadableRowRaises(raw: Bytes, line: nat, reader: Reader)
    requires !ReadsTo(raw, 2, reader)
    ensures var f, fields := Findings(raw, line, reader), Text.Split(raw, TAB);
            var code := if raw == [] then "blank_record"
                        else if |fields| != 3 then "unexpected_columns" else "invalid_encoding";
            && f.issues == [Issue(Error, code, line)] && f.weight.None?
            && (f.referenceA == if ReadsTo(raw, 0, reader) then fields[0] else [])
            && (f.referenceB == if ReadsTo(raw, 1, reader) then fields[1] else [])
  {
    if raw != [] && |Text.Split(raw, TAB)| == 3 {
      assert ReadsTo(raw, 2, reader) <==> IsReadable(Text.Split(raw, TAB), reader);
    }
  }

  /** Which files are tables: text without a byte-order mark whose first line names the four columns. */
  lemma {:induction false} TableExactlyWhen(d: Bytes, reader: Reader)
    ensures IsTable(d, reader) <==>
              && d != [] && reader.decodes(d)
              && !(|d| >= 2 && ((d[0] == 0xff && d[1] == 0xfe) || (d[0] == 0xfe && d[1] == 0xff)))
              && !(|d| >= 3 && d[0] == 0xef && d[1] == 0xbb && d[2] == 0xbf)
              && SplitLines(d) != []
              && Text.Split(SplitLines(d)[0], 9)
                 == [Ascii("From Verse"), Ascii("To Verse"), Ascii("Votes"),
                     Ascii("#www.openbible.info CC-BY 2026-07-06")]
  {
    assert [239, 187, 191] <= d <==> |d| >= 3 && d[0] == 239 && d[1] == 187 && d[2] == 191;
    assert [255, 254] <= d <==> |d| >= 2 && d[0] == 255 && d[1] == 254;
    assert [254, 255] <= d <==> |d| >= 2 && d[0] == 254 && d[1] == 255;
  }

  ghost predicate AllExplained(findings: seq<Finding>) {
    forall i | 0 <= i < |findings| :: Explained(findings[i], i + 2)
  }

  lemma {:induction false} StatusIsExplained(findings: seq<Finding>, i: nat)
    requires AllExplained(findings) && i < |findings|
    ensures findings[i].status != Parsed <==> Condemned(Gathered(findings), i + 2)
  {
    var n := |findings| - 1;
    ExplainedIsCondemned(findings[n], n + 2);
    CondemnedInEither(Gathered(findings[..n]), findings[n].issues, i + 2);
    if i < n {
      StatusIsExplained(findings[..n], i);
    } else {
      IssuesStayInFront(findings[..n]);
    }
  }

  lemma {:induction false} IssuesStayInFront(findings: seq<Finding>)
    requires AllExplained(findings)
    ensures forall issue | issue in Gathered(findings) :: issue.line < |findings| + 2
  {
    if findings != [] {
      IssuesStayInFront(findings[..|findings| - 1]);
    }
  }

  lemma {:induction false} FindingsAreAllExplained(rows: seq<Bytes>, reader: Reader)
    ensures AllExplained(AllFindings(rows, reader))
  {
    forall i | 0 <= i < |rows|
      ensures Explained(AllFindings(rows, reader)[i], i + 2)
    {
      FindingsAreExplained(rows[i], i + 2, reader);
    }
  }

  /** Every physical row after the header is one record, in order, with its bytes; and a record is parsed exactly
      when no error stands against its line. */
  lemma {:induction false} EveryRowIsAccounted(d: Bytes, reader: Reader, hash: Bytes -> string,
                                               encode: Canonical -> Bytes, i: nat)
    requires Parses(d, reader, hash, encode)
    ensures |ParsedFile(d, reader, hash, encode).records| == |SplitLines(d)[1..]|
    ensures i < |SplitLines(d)[1..]| ==>
              var record := ParsedFile(d, reader, hash, encode).records[i];
              && record.line == i + 2 && record.raw == SplitLines(d)[1..][i]
              && (record.canonical.status != Parsed <==> Condemned(ParsedFile(d, reader, hash, encode).issues, i + 2))
  {
    var rows := SplitLines(d)[1..];
    RowsAreAccounted(rows, reader, hash, i);
  }

  lemma {:induction false} RowsAreAccounted(rows: seq<Bytes>, reader: Reader, hash: Bytes -> string, i: nat)
    ensures |Records(rows, reader, hash)| == |rows|
    ensures i < |rows| ==>
              var record := Records(rows, reader, hash)[i];
              && record.line == i + 2 && record.raw == rows[i]
              && (record.canonical.status != Parsed <==> Condemned(Issues(rows, reader), i + 2))
  {
    var findings := AllFindings(rows, reader);
    FindingsAreAllExplained(rows, reader);
    if i < |rows| { RecordIsExplained(rows, findings, hash, i); }
  }

  lemma {:induction false} RecordIsExplained(rows: seq<Bytes>, findings: seq<Finding>, hash: Bytes -> string, i: nat)
    requires AllExplained(findings) && i < |findings| == |rows|
    ensures var record := Recorded(rows, findings, hash)[i];
            && record.line == i + 2 && record.raw == rows[i]
            && (record.canonical.status != Parsed <==> Condemned(Gathered(findings), i + 2))
  {
    StatusIsExplained(findings, i);
  }

  // ---- what the digest identifies ----

  ghost predicate Injective<A(!new), B(!new)>(f: A -> B) {
    forall x, y :: f(x) == f(y) ==> x == y
  }

  /** With a digest and an encoding that never collide, two parsed files of one digest have the same rows. */
  lemma {:induction false} SameDigestSameRows(a: Bytes, b: Bytes, reader: Reader, hash: Bytes -> string,
                                              encode: Canonical -> Bytes)
    requires Parses(a, reader, hash, encode) && Parses(b, reader, hash, encode)
    requires Injective(hash) && Injective(encode)
    requires ParsedFile(a, reader, hash, encode).digest == ParsedFile(b, reader, hash, encode).digest
    ensures SplitLines(a)[1..] == SplitLines(b)[1..]
  {
    SameStreamSameRows(SplitLines(a)[1..], SplitLines(b)[1..], reader, hash, encode);
  }

  lemma {:induction false} SameStreamSameRows(rowsA: seq<Bytes>, rowsB: seq<Bytes>, reader: Reader,
                                              hash: Bytes -> string, encode: Canonical -> Bytes)
    requires Injective(hash) && Injective(encode)
    requires AllFit(Payloads(Records(rowsA, reader, hash), encode))
             && AllFit(Payloads(Records(rowsB, reader, hash), encode))
    requires hash(Preamble() + Framed(Payloads(Records(rowsA, reader, hash), encode)))
             == hash(Preamble() + Framed(Payloads(Records(rowsB, reader, hash), encode)))
    ensures rowsA == rowsB
  {
    var payloadsA := Payloads(Records(rowsA, reader, hash), encode);
    var payloadsB := Payloads(Records(rowsB, reader, hash), encode);
    SameStreamSamePayloads(Preamble(), payloadsA, payloadsB, hash);
    SamePayloadsSameRows(rowsA, rowsB, reader, hash, encode);
  }

  lemma {:induction false} SameStreamSamePayloads(preamble: Bytes, a: seq<Bytes>, b: seq<Bytes>, hash: Bytes -> string)
    requires Injective(hash) && AllFit(a) && AllFit(b) && hash(preamble + Framed(a)) == hash(preamble + Framed(b))
    ensures a == b
  {
    var s, t := Framed(a), Framed(b);
    assert (preamble + s)[|preamble|..] == s && (preamble + t)[|preamble|..] == t;
    FramingIsInjective(a, b);
  }

  lemma {:induction false} SamePayloadsSameRows(rowsA: seq<Bytes>, rowsB: seq<Bytes>, reader: Reader,
                                                hash: Bytes -> string, encode: Canonical -> Bytes)
    requires Injective(hash) && Injective(encode)
    requires Payloads(Records(rowsA, reader, hash), encode) == Payloads(Records(rowsB, reader, hash), encode)
    ensures rowsA == rowsB
  {
    SameRecordedPayloads(rowsA, AllFindings(rowsA, reader), rowsB, AllFindings(rowsB, reader), hash, encode);
  }

  lemma {:induction false} SameRecordedPayloads(rowsA: seq<Bytes>, a: seq<Finding>, rowsB: seq<Bytes>, b: seq<Finding>,
                                                hash: Bytes -> string, encode: Canonical -> Bytes)
    requires |a| == |rowsA| && |b| == |rowsB| && Injective(hash) && Injective(encode)
    requires Payloads(Recorded(rowsA, a, hash), encode) == Payloads(Recorded(rowsB, b, hash), encode)
    ensures rowsA == rowsB
  {
    var recordsA, recordsB := Recorded(rowsA, a, hash), Recorded(rowsB, b, hash);
    assert |rowsA| == |Payloads(recordsA, encode)| && |rowsB| == |Payloads(recordsB, encode)|;
    forall i | 0 <= i < |rowsA|
      ensures rowsA[i] == rowsB[i]
    {
      assert Payloads(recordsA, encode)[i] == encode(recordsA[i].canonical);
      assert Payloads(recordsB, encode)[i] == encode(recordsB[i].canonical);
      assert recordsA[i].canonical.rowDigest == hash(rowsA[i]) && recordsB[i].canonical.rowDigest == hash(rowsB[i]);
    }
  }

  /** The digest, the newline's name and the final-newline flag identify a file byte for byte, unless its newlines
      are mixed. */
  lemma {:induction false} DigestIdentifiesFile(a: Bytes, b: Bytes, reader: Reader, hash: Bytes -> string,
                                                encode: Canonical -> Bytes)
    requires Parses(a, reader, hash, encode) && Parses(b, reader, hash, encode)
    requires Injective(hash) && Injective(encode) && NewlineOf(a) != Mixed
    requires var x := ParsedFile(a, reader, hash, encode); var y := ParsedFile(b, reader, hash, encode);
             x.digest == y.digest && x.newline == y.newline && x.finalNewline == y.finalNewline
    ensures a == b
  {
    SameDigestSameRows(a, b, reader, hash, encode);
    Text.SplitGlues(SplitLines(a)[0], TAB);
    Text.SplitGlues(SplitLines(b)[0], TAB);
    assert SplitLines(a) == [SplitLines(a)[0]] + SplitLines(a)[1..];
    assert SplitLines(b) == [SplitLines(b)[0]] + SplitLines(b)[1..];
    LinesDetermineFile(a);
    LinesDetermineFile(b);
  }
}
