/**
 * The per-file work of `DataIngest#run`: classify each upload by its name,
 * turn the parsed CSV into rows, validate, transform and submit each row,
 * count, collect the error text, and decide which reports are written.
 *
 * What the outside world contributes is an input: the parsed CSV (or the
 * way reading it failed), the clock reading `formatsolrdata` takes for each
 * row, and Solr's answer to each add-and-commit.
 */
module Ingest {
  import opened Wrappers
  import opened RubyText
  import opened OrderedHash
  import opened Validator
  import opened Transformer
  import opened FieldSchema

  // ---------------------------------------------------------------- prefixes

  /** `getfileprefix`: the first recognised prefix the name starts with, else "". */
  function FilePrefix(filename: string): (prefix: string)
    ensures prefix == "dmf_" || prefix == "cgit_" || prefix == "gdrive_" || prefix == ""
    ensures prefix != "" ==> StartsWith(filename, prefix)
    ensures prefix == "" <==>
      !StartsWith(filename, "dmf_") && !StartsWith(filename, "cgit_") && !StartsWith(filename, "gdrive_")
  {
    if StartsWith(filename, "dmf_") then "dmf_"
    else if StartsWith(filename, "cgit_") then "cgit_"
    else if StartsWith(filename, "gdrive_") then "gdrive_"
    else ""
  }

  // ------------------------------------------------------------- one row

  /** Solr's answer to `add` followed by `commit`: success, or the StandardError's message. */
  datatype SubmitResult = Committed | SubmitError(message: string)

  /** What the world supplies while one data row is processed. */
  datatype RowEnv = RowEnv(now: string, submit: SubmitResult)

  /** What becomes of one data row. */
  datatype Verdict =
    | Invalid(messages: string)              // validation failed; not submitted
    | Ingested(doc: Row)                     // submitted and committed
    | NotCommitted(doc: Row, message: string) // submitted, Solr raised
    | Raises                                 // formatsolrdata raised; the exception ends the run

  /** The fate of one CSV record under header `fields`. */
  function RowVerdict(fields: seq<string>, record: seq<Option<string>>, env: RowEnv, p: Parsers): Verdict
  {
    var row := BuildRow(fields, record);
    var errmsg := Validation(row, p);
    if |errmsg| > 0 then Invalid(errmsg)
    else if !CanFormat(row) then Raises
    else
      var doc := SolrDocument(row, env.now);
      match env.submit
      case Committed => Ingested(doc)
      case SubmitError(m) => NotCommitted(doc, m)
  }

  /** A row is ingested exactly when it validates, can be formatted, and Solr commits it. */
  lemma IngestedIff(fields: seq<string>, record: seq<Option<string>>, env: RowEnv, p: Parsers)
    ensures var row := BuildRow(fields, record);
      RowVerdict(fields, record, env, p).Ingested? <==>
        Validation(row, p) == "" && CanFormat(row) && env.submit.Committed?
  {
  }

  /**
   * Validation only looks at the columns a file has: in a file without a
   * `solr_geom` column every row is either rejected or raises in
   * `formatsolrdata`, so nothing is ever ingested from it.
   */
  lemma NoGeometryColumnNeverIngests(fields: seq<string>, record: seq<Option<string>>, env: RowEnv, p: Parsers)
    requires GeomKey !in fields
    ensures RowVerdict(fields, record, env, p).Invalid? || RowVerdict(fields, record, env, p).Raises?
  {
    var row := BuildRow(fields, record);
    BuildRowKeySet(fields, record);
    assert GeomKey !in Keys(row);
    assert Lookup(row, GeomKey).None?;
  }

  /**
   * A file of that kind: a single filled-in column other than the identifier
   * and the bounding box (such as `dc_title_s`) passes validation, and the
   * run then halts in `formatsolrdata`.
   */
  lemma SingleColumnRaises(key: string, cell: string, env: RowEnv, p: Parsers)
    requires key != GeomKey && key != IdentifierKey && !Blank(Some(cell))
    ensures RowVerdict([key], [Some(cell)], env, p) == Raises
  {
    var row := BuildRow([key], [Some(cell)]);
    BuildRowSingle(key, Some(cell));
    assert row == [Entry(key, Some(cell))];
    if IsRequired(key) {
      OtherRequiredRule(key, Some(cell), p);
    } else {
      OptionalSilent(key, Some(cell), p);
    }
    assert EntryText(row[0], p) == "";
    assert Messages(row, p) == Messages(row[..0], p) + EntryText(row[0], p);
    assert IndexOf(row, GeomKey) == -1;
  }

  // ------------------------------------------------------------- the row loop

  /** The loop's counters and buffers: `totalrecs`, `ingestedrecs`, `errorcontent`, and the documents handed to Solr. */
  datatype Tally = Tally(total: nat, ingested: nat, errors: string, sent: seq<Row>)

  datatype RowsOutcome =
    | Completed(tally: Tally)
    | Halted(position: nat, sent: seq<Row>) // the data row whose exception left the loop, and what Solr already got

  const CommitFailurePrefix: string := "There was an error committing this record to solr. Message: "

  /** One entry of the error report: the label `row <n>` and its text. */
  datatype ErrorEntry = ErrorEntry(line: nat, text: string)

  /** The label `row <n>: ` that starts each entry. */
  function RowLabel(line: nat): string
  {
    "row " + NatToString(line) + ": "
  }

  function RenderEntry(e: ErrorEntry): string
  {
    RowLabel(e.line) + e.text + "\n\n"
  }

  /** The error text the loop accumulates from a list of entries. */
  function Render(entries: seq<ErrorEntry>): string
  {
    ConcatMap(entries, RenderEntry)
  }

  /** The counters after one more row, `index` being the loop's own counter (1 for the first data row). */
  function Step(t: Tally, index: nat, v: Verdict): Tally
    requires !v.Raises?
  {
    match v
    case Invalid(m) => Tally(t.total + 1, t.ingested, t.errors + RenderEntry(ErrorEntry(index + 1, m)), t.sent)
    case Ingested(doc) => Tally(t.total + 1, t.ingested + 1, t.errors, t.sent + [doc])
    case NotCommitted(doc, m) =>
      Tally(t.total + 1, t.ingested, t.errors + RenderEntry(ErrorEntry(index + 1, CommitFailurePrefix + m)), t.sent + [doc])
  }

  /** The loop over the verdicts of a file's data rows, in order. */
  function ProcessRows(vs: seq<Verdict>): RowsOutcome
  {
    if |vs| == 0 then Completed(Tally(0, 0, "", []))
    else
      var n := |vs| - 1;
      match ProcessRows(vs[..n])
      case Halted(r, sent) => Halted(r, sent)
      case Completed(t) => if vs[n].Raises? then Halted(n, t.sent) else Completed(Step(t, n + 1, vs[n]))
  }

  function Verdicts(fields: seq<string>, records: seq<seq<Option<string>>>, envs: seq<RowEnv>, p: Parsers): (vs: seq<Verdict>)
    requires |envs| == |records|
    ensures |vs| == |records|
    ensures forall i :: 0 <= i < |records| ==> vs[i] == RowVerdict(fields, records[i], envs[i], p)
  {
    seq(|records|, i requires 0 <= i < |records| => RowVerdict(fields, records[i], envs[i], p))
  }

  /** Once an exception has left the loop, later rows change nothing. */
  lemma {:induction false} HaltedStays(vs: seq<Verdict>, j: nat)
    requires j <= |vs| && ProcessRows(vs[..j]).Halted?
    ensures ProcessRows(vs) == ProcessRows(vs[..j])
    decreases |vs|
  {
    if j < |vs| {
      var n := |vs| - 1;
      assert vs[..n][..j] == vs[..j];
      HaltedStays(vs[..n], j);
    } else {
      assert vs[..j] == vs;
    }
  }

  /** One more row extends a completed loop by `Step`, or halts it at that row. */
  lemma ProcessRowsNext(vs: seq<Verdict>, i: nat, t: Tally, v: Verdict)
    requires i < |vs| && ProcessRows(vs[..i]) == Completed(t) && vs[i] == v
    ensures ProcessRows(vs[..i + 1]) == if v.Raises? then Halted(i, t.sent) else Completed(Step(t, i + 1, v))
  {
    assert vs[..i + 1][..i] == vs[..i];
  }

  /**
   * The body of the row loop up to the counters: validate the zipped row,
   * and for a valid one format it and hand it to Solr.
   */
  method ProcessRecord(fields: seq<string>, record: seq<Option<string>>, env: RowEnv, p: Parsers)
    returns (verdict: Verdict)
    ensures verdict == RowVerdict(fields, record, env, p)
  {
    var row := BuildRow(fields, record);
    var errmsg := ValidateRecord(row, p);
    if |errmsg| > 0 {
      return Invalid(errmsg);
    }
    if !CanFormat(row) {
      return Raises;
    }
    var solrdata := FormatSolrData(row, env.now);
    match env.submit {
      case Committed => verdict := Ingested(solrdata);
      case SubmitError(m) => verdict := NotCommitted(solrdata, m);
    }
  }

  /** The counter and buffer updates for one processed row that did not raise. */
  method Account(verdict: Verdict, index: nat, totalrecs: nat, ingestedrecs: nat, errorcontent: string, sent: seq<Row>)
    returns (totalrecs': nat, ingestedrecs': nat, errorcontent': string, sent': seq<Row>)
    requires !verdict.Raises?
    ensures Tally(totalrecs', ingestedrecs', errorcontent', sent')
      == Step(Tally(totalrecs, ingestedrecs, errorcontent, sent), index, verdict)
  {
    totalrecs', ingestedrecs', errorcontent', sent' := totalrecs, ingestedrecs, errorcontent, sent;
    match verdict {
      case Invalid(errmsg) =>
        errorcontent' := errorcontent' + (RowLabel(index + 1) + errmsg + "\n\n");
      case Ingested(solrdata) =>
        sent' := sent' + [solrdata];
        ingestedrecs' := ingestedrecs' + 1;
      case NotCommitted(solrdata, m) =>
        sent' := sent' + [solrdata];
        errorcontent' := errorcontent' + (RowLabel(index + 1) + (CommitFailurePrefix + m) + "\n\n");
    }
    totalrecs' := totalrecs' + 1;
  }

  /**
   * The row loop of `run`: process each zipped row in order, count it, count
   * it as ingested when Solr committed it, and append a labelled error entry
   * for each failure.
   */
  method IngestRows(fields: seq<string>, records: seq<seq<Option<string>>>, envs: seq<RowEnv>, p: Parsers)
    returns (outcome: RowsOutcome)
    requires |envs| == |records|
    ensures outcome == ProcessRows(Verdicts(fields, records, envs, p))
  {
    ghost var vs := Verdicts(fields, records, envs, p);
    var errorcontent := "";
    var totalrecs: nat := 0;
    var ingestedrecs: nat := 0;
    var index: nat := 1;
    var sent: seq<Row> := [];
    var i := 0;
    while i < |records|
      invariant 0 <= i <= |records| && index == i + 1
      invariant ProcessRows(vs[..i]) == Completed(Tally(totalrecs, ingestedrecs, errorcontent, sent))
    {
      ghost var before := Tally(totalrecs, ingestedrecs, errorcontent, sent);
      var verdict := ProcessRecord(fields, records[i], envs[i], p);
      assert vs[i] == verdict;
      ProcessRowsNext(vs, i, before, verdict);
      if verdict.Raises? {
        HaltedStays(vs, i + 1);
        return Halted(i, sent);
      }
      totalrecs, ingestedrecs, errorcontent, sent := Account(verdict, index, totalrecs, ingestedrecs, errorcontent, sent);
      index := index + 1;
      i := i + 1;
    }
    assert vs[..i] == vs;
    return Completed(Tally(totalrecs, ingestedrecs, errorcontent, sent));
  }

  // ------------------------------------------------- what the loop promises

  function CountIngested(vs: seq<Verdict>): (n: nat)
    ensures n <= |vs|
  {
    if |vs| == 0 then 0 else CountIngested(vs[..|vs| - 1]) + (if vs[|vs| - 1].Ingested? then 1 else 0)
  }

  /** The entries the error report lists: one per row that was rejected or not committed, labelled position + 2. */
  function ErrorEntries(vs: seq<Verdict>): seq<ErrorEntry>
  {
    if |vs| == 0 then []
    else
      var n := |vs| - 1;
      ErrorEntries(vs[..n]) + EntryFor(vs[n], n + 2)
  }

  /** The entry a verdict contributes under label `line`, if any. */
  function EntryFor(v: Verdict, line: nat): (es: seq<ErrorEntry>)
    ensures |es| == (if Failed(v) then 1 else 0)
    ensures |es| == 1 ==> es[0].line == line
  {
    match v
    case Invalid(m) => [ErrorEntry(line, m)]
    case NotCommitted(_, m) => [ErrorEntry(line, CommitFailurePrefix + m)]
    case _ => []
  }

  /** The loop halts exactly at the first row that raises, and completes when none does. */
  lemma {:induction false} HaltsAtFirstRaise(vs: seq<Verdict>)
    ensures ProcessRows(vs).Completed? <==> forall i :: 0 <= i < |vs| ==> !vs[i].Raises?
    ensures ProcessRows(vs).Halted? ==>
      var r := ProcessRows(vs).position;
      r < |vs| && vs[r].Raises? && forall i :: 0 <= i < r ==> !vs[i].Raises?
    decreases |vs|
  {
    if |vs| > 0 {
      var n := |vs| - 1;
      HaltsAtFirstRaise(vs[..n]);
      assert forall i :: 0 <= i < n ==> vs[..n][i] == vs[i];
    }
  }

  /**
   * When the loop completes, `totalrecs` is the number of data rows,
   * `ingestedrecs` the number of committed ones (so never more), and one
   * document went to Solr per row that passed validation.
   */
  lemma {:induction false} CompletedCounts(vs: seq<Verdict>)
    requires ProcessRows(vs).Completed?
    ensures var t := ProcessRows(vs).tally;
      t.total == |vs| && t.ingested == CountIngested(vs) && t.ingested <= t.total
      && |t.sent| == |vs| - CountInvalid(vs)
    decreases |vs|
  {
    if |vs| > 0 {
      var n := |vs| - 1;
      CompletedCounts(vs[..n]);
    }
  }
  /**
   * A loop that halts has already handed Solr one document per row before
   * the raising row that passed validation, and nothing takes them back.
   */
  lemma {:induction false} HaltedSent(vs: seq<Verdict>)
    requires ProcessRows(vs).Halted?
    ensures var h := ProcessRows(vs);
      && h.position < |vs|
      && ProcessRows(vs[..h.position]).Completed?
      && h.sent == ProcessRows(vs[..h.position]).tally.sent
      && |h.sent| == h.position - CountInvalid(vs[..h.position])
    decreases |vs|
  {
    var n := |vs| - 1;
    var before := ProcessRows(vs[..n]);
    if before.Halted? {
      HaltedSent(vs[..n]);
      assert vs[..n][..before.position] == vs[..before.position];
    } else {
      CompletedCounts(vs[..n]);
    }
  }


  function CountInvalid(vs: seq<Verdict>): (n: nat)
    ensures n <= |vs|
  {
    if |vs| == 0 then 0 else CountInvalid(vs[..|vs| - 1]) + (if vs[|vs| - 1].Invalid? then 1 else 0)
  }

  /** The accumulated error text is the rendering of the error entries, in row order. */
  lemma {:induction false} CompletedErrors(vs: seq<Verdict>)
    requires ProcessRows(vs).Completed?
    ensures ProcessRows(vs).tally.errors == Render(ErrorEntries(vs))
    decreases |vs|
  {
    if |vs| > 0 {
      var n := |vs| - 1;
      CompletedErrors(vs[..n]);
      var prev := ErrorEntries(vs[..n]);
      match vs[n]
      case Invalid(m) =>
        ConcatMapAppend(prev, [ErrorEntry(n + 2, m)], RenderEntry);
        assert Render([ErrorEntry(n + 2, m)]) == Render([]) + RenderEntry(ErrorEntry(n + 2, m));
      case NotCommitted(_, m) =>
        ConcatMapAppend(prev, [ErrorEntry(n + 2, CommitFailurePrefix + m)], RenderEntry);
        assert Render([ErrorEntry(n + 2, CommitFailurePrefix + m)])
          == Render([]) + RenderEntry(ErrorEntry(n + 2, CommitFailurePrefix + m));
      case Ingested(_) =>
        assert prev + [] == prev;
      case Raises =>
    }
  }

  predicate Failed(v: Verdict)
  {
    v.Invalid? || v.NotCommitted?
  }

  /** Each error entry names the CSV line of a failed row (its position plus two: the header is line 1). */
  lemma {:induction false} EntriesPointToFailures(vs: seq<Verdict>)
    ensures forall a :: 0 <= a < |ErrorEntries(vs)| ==>
      2 <= ErrorEntries(vs)[a].line < |vs| + 2 && Failed(vs[ErrorEntries(vs)[a].line - 2])
    decreases |vs|
  {
    if |vs| > 0 {
      var n := |vs| - 1;
      EntriesPointToFailures(vs[..n]);
      var prev := ErrorEntries(vs[..n]);
      var es := ErrorEntries(vs);
      assert es == prev + EntryFor(vs[n], n + 2);
      forall a | 0 <= a < |es|
        ensures 2 <= es[a].line < |vs| + 2 && Failed(vs[es[a].line - 2])
      {
        if a < |prev| {
          assert es[a] == prev[a];
          assert vs[..n][prev[a].line - 2] == vs[prev[a].line - 2];
        }
      }
    }
  }

  /** The labels strictly increase: entries come in row order. */
  lemma {:induction false} EntriesIncreasing(vs: seq<Verdict>)
    ensures forall a, b :: 0 <= a < b < |ErrorEntries(vs)| ==> ErrorEntries(vs)[a].line < ErrorEntries(vs)[b].line
    decreases |vs|
  {
    if |vs| > 0 {
      var n := |vs| - 1;
      EntriesIncreasing(vs[..n]);
      EntriesPointToFailures(vs[..n]);
      var prev := ErrorEntries(vs[..n]);
      var es := ErrorEntries(vs);
      assert es == prev + EntryFor(vs[n], n + 2);
      forall a, b | 0 <= a < b < |es|
        ensures es[a].line < es[b].line
      {
        assert es[a] == prev[a];
        if b < |prev| {
          assert es[b] == prev[b];
        }
      }
    }
  }

  predicate HasEntry(es: seq<ErrorEntry>, line: nat)
  {
    exists a :: 0 <= a < |es| && es[a].line == line
  }

  /** Every failed row has its entry. */
  lemma {:induction false} FailuresHaveEntries(vs: seq<Verdict>)
    ensures forall i :: 0 <= i < |vs| && Failed(vs[i]) ==> HasEntry(ErrorEntries(vs), i + 2)
    decreases |vs|
  {
    if |vs| > 0 {
      var n := |vs| - 1;
      FailuresHaveEntries(vs[..n]);
      var prev := ErrorEntries(vs[..n]);
      var es := ErrorEntries(vs);
      assert es == prev + EntryFor(vs[n], n + 2);
      forall i | 0 <= i < |vs| && Failed(vs[i])
        ensures HasEntry(es, i + 2)
      {
        if i < n {
          assert vs[..n][i] == vs[i];
          var a :| 0 <= a < |prev| && prev[a].line == i + 2;
          assert es[a] == prev[a];
        } else {
          assert es[|prev|].line == n + 2;
        }
      }
    }
  }

  /** With no raising row, the entries are one per row not ingested. */
  lemma {:induction false} EntriesCount(vs: seq<Verdict>)
    requires forall i :: 0 <= i < |vs| ==> !vs[i].Raises?
    ensures |ErrorEntries(vs)| == |vs| - CountIngested(vs)
    decreases |vs|
  {
    if |vs| > 0 {
      var n := |vs| - 1;
      assert forall i :: 0 <= i < n ==> vs[..n][i] == vs[i];
      EntriesCount(vs[..n]);
    }
  }

  /** Some row failed exactly when `totalrecs != ingestedrecs`. */
  lemma CompletedMismatchIff(vs: seq<Verdict>)
    requires ProcessRows(vs).Completed?
    ensures var t := ProcessRows(vs).tally;
      t.total != t.ingested <==> exists i :: 0 <= i < |vs| && Failed(vs[i])
  {
    HaltsAtFirstRaise(vs);
    CompletedCounts(vs);
    EntriesCount(vs);
    var es := ErrorEntries(vs);
    var t := ProcessRows(vs).tally;
    assert t.total != t.ingested <==> |es| > 0;
    if |es| > 0 {
      EntriesPointToFailures(vs);
      assert Failed(vs[es[0].line - 2]);
    }
    if exists i :: 0 <= i < |vs| && Failed(vs[i]) {
      var i :| 0 <= i < |vs| && Failed(vs[i]);
      FailuresHaveEntries(vs);
      assert HasEntry(es, i + 2);
    }
  }

  // ---------------------------------------------------------- one file

  /**
   * How reading and parsing the upload went: the parsed rows (header first,
   * each cell a string or nil), an ArgumentError (rescued, e.g. bytes that are
   * not UTF-8), or any other exception, which nothing rescues.
   */
  datatype ReadOutcome =
    | Parsed(rows: seq<seq<Option<string>>>)
    | ReadArgumentError(message: string)
    | ReadRaises

  /** The report of one processed upload; it is then moved to the archive. */
  datatype FileReport = FileReport(
    name: string,
    total: nat,
    ingested: nat,
    fileError: bool,
    log: string,                 // content of <name>_<stamp>.log.txt
    errorReport: Option<string>, // content of <name>_<stamp>.error.txt, if one is written
    sent: seq<Row>)              // documents handed to Solr, in order

  /**
   * The first CSV line names the fields: each header cell lower-cased with its
   * spaces turned into underscores; a nil header cell raises.
   */
  function HeaderFields(header: seq<Option<string>>): (fields: Option<seq<string>>)
    ensures fields.Some? <==> forall i :: 0 <= i < |header| ==> header[i].Some?
    ensures fields.Some? ==> (|fields.value| == |header|
      && forall i :: 0 <= i < |header| ==> fields.value[i] == HeaderKey(header[i].value))
    ensures fields.Some? ==> forall i, j :: 0 <= i < |fields.value| && 0 <= j < |fields.value[i]| ==>
      fields.value[i][j] != ' ' && !('A' <= fields.value[i][j] <= 'Z')
  {
    if forall i :: 0 <= i < |header| ==> header[i].Some? then
      Some(seq(|header|, i requires 0 <= i < |header| && header[i].Some? => HeaderKey(header[i].value)))
    else None
  }

  function LogLine(name: string, total: nat, ingested: nat): string
  {
    name + ": Total ingest records: " + NatToString(total) + ", ingested " + NatToString(ingested) + " records."
  }

  /** The oracle supplies one row environment per data row. */
  predicate Supplied(read: ReadOutcome, envs: seq<RowEnv>)
  {
    read.Parsed? && |read.rows| > 0 ==> |envs| == |read.rows| - 1
  }

  /**
   * What one recognised upload comes to: its report, or the exception that
   * ends the run together with the documents already handed to Solr.
   */
  datatype FileResult =
    | Processed(report: FileReport)
    | Raised(sent: seq<Row>)

  /** The result of one recognised upload. */
  function FileOutcome(name: string, read: ReadOutcome, envs: seq<RowEnv>, p: Parsers): (result: FileResult)
    requires Supplied(read, envs)
    ensures result.Processed? ==> result.report.name == name
  {
    match read
    case ReadRaises => Raised([])
    case ReadArgumentError(e) =>
      var errorcontent := name + " could not be read. " + e;
      Processed(FileReport(name, 0, 0, true, LogLine(name, 0, 0), Some(name + "\n" + errorcontent), []))
    case Parsed(rows) =>
      if |rows| == 0 then Raised([])
      else match HeaderFields(rows[0])
        case None => Raised([])
        case Some(fields) =>
          match ProcessRows(Verdicts(fields, rows[1..], envs, p))
          case Halted(_, sent) => Raised(sent)
          case Completed(t) =>
            Processed(FileReport(name, t.total, t.ingested, false, LogLine(name, t.total, t.ingested),
              if t.total != t.ingested then Some(name + "\n" + t.errors) else None, t.sent))
  }

  /** Processing of one recognised upload: read, loop over its rows, write the reports. */
  method IngestFile(name: string, read: ReadOutcome, envs: seq<RowEnv>, p: Parsers) returns (result: FileResult)
    requires Supplied(read, envs)
    ensures result == FileOutcome(name, read, envs, p)
  {
    var errorcontent := "";
    var totalrecs: nat := 0;
    var ingestedrecs: nat := 0;
    var fileError := false;
    var sent: seq<Row> := [];
    match read {
      case ReadRaises =>
        return Raised([]);
      case ReadArgumentError(e) =>
        errorcontent := errorcontent + (name + " could not be read. " + e);
        assert errorcontent == name + " could not be read. " + e;
        fileError := true;
      case Parsed(rows) =>
        if |rows| == 0 {
          return Raised([]);
        }
        var fields := HeaderFields(rows[0]);
        if fields.None? {
          return Raised([]);
        }
        var outcome := IngestRows(fields.value, rows[1..], envs, p);
        if outcome.Halted? {
          return Raised(outcome.sent);
        }
        totalrecs, ingestedrecs := outcome.tally.total, outcome.tally.ingested;
        errorcontent, sent := outcome.tally.errors, outcome.tally.sent;
    }
    var log := LogLine(name, totalrecs, ingestedrecs);
    var errorReport: Option<string> := None;
    if totalrecs != ingestedrecs || fileError {
      errorReport := Some(name + "\n" + errorcontent);
    }
    result := Processed(FileReport(name, totalrecs, ingestedrecs, fileError, log, errorReport, sent));
  }

  /**
   * A processed upload logs its two counters and gets an error report
   * exactly when the counters differ or it could not be read; the counters
   * are the number of data rows and of committed rows.
   */
  lemma FileReportFacts(name: string, read: ReadOutcome, envs: seq<RowEnv>, p: Parsers)
    requires Supplied(read, envs) && FileOutcome(name, read, envs, p).Processed?
    ensures var r := FileOutcome(name, read, envs, p).report;
      && r.name == name
      && r.log == LogLine(name, r.total, r.ingested)
      && r.ingested <= r.total
      && r.total == (if read.Parsed? then |read.rows| - 1 else 0)
      && (r.fileError <==> read.ReadArgumentError?)
      && (r.errorReport.Some? <==> r.total != r.ingested || r.fileError)
      && (r.errorReport.Some? ==> r.errorReport.value[..|name| + 1] == name + "\n")
  {
    if read.Parsed? {
      var fields := HeaderFields(read.rows[0]).value;
      CompletedCounts(Verdicts(fields, read.rows[1..], envs, p));
    }
  }

  /**
   * An upload ends the whole run exactly when reading raises something other
   * than ArgumentError, the CSV is empty, a header cell is nil, or a row
   * raises in `formatsolrdata`.
   */
  lemma FileHaltsIff(name: string, read: ReadOutcome, envs: seq<RowEnv>, p: Parsers)
    requires Supplied(read, envs)
    ensures FileOutcome(name, read, envs, p).Raised? <==>
      || read.ReadRaises?
      || (read.Parsed? && |read.rows| == 0)
      || (read.Parsed? && HeaderFields(read.rows[0]).None?)
      || (read.Parsed? && HeaderFields(read.rows[0]).Some? &&
          exists i :: 0 <= i < |read.rows| - 1 &&
            RowVerdict(HeaderFields(read.rows[0]).value, read.rows[1..][i], envs[i], p).Raises?)
  {
    if read.Parsed? && |read.rows| > 0 && HeaderFields(read.rows[0]).Some? {
      var vs := Verdicts(HeaderFields(read.rows[0]).value, read.rows[1..], envs, p);
      HaltsAtFirstRaise(vs);
    }
  }

  /**
   * An upload that ends the run leaves in Solr exactly what its row loop had
   * sent before the raising row; when it raises before the loop, nothing.
   */
  lemma FileRaisedSent(name: string, read: ReadOutcome, envs: seq<RowEnv>, p: Parsers)
    requires Supplied(read, envs) && FileOutcome(name, read, envs, p).Raised?
    ensures var sent := FileOutcome(name, read, envs, p).sent;
      if read.Parsed? && |read.rows| > 0 && HeaderFields(read.rows[0]).Some? then
        var vs := Verdicts(HeaderFields(read.rows[0]).value, read.rows[1..], envs, p);
        && ProcessRows(vs).Halted?
        && ProcessRows(vs).position < |vs|
        && |sent| == ProcessRows(vs).position - CountInvalid(vs[..ProcessRows(vs).position])
      else sent == []
  {
    if read.Parsed? && |read.rows| > 0 && HeaderFields(read.rows[0]).Some? {
      HaltedSent(Verdicts(HeaderFields(read.rows[0]).value, read.rows[1..], envs, p));
    }
  }

  /**
   * For a file that was read, the error report lists, after the file name,
   * one entry per failed row, labelled with the row's line number in the CSV.
   */
  lemma FileErrorEntries(name: string, read: ReadOutcome, envs: seq<RowEnv>, p: Parsers)
    requires Supplied(read, envs) && read.Parsed? && FileOutcome(name, read, envs, p).Processed?
    requires FileOutcome(name, read, envs, p).report.errorReport.Some?
    ensures var fields := HeaderFields(read.rows[0]).value;
      FileOutcome(name, read, envs, p).report.errorReport.value
        == name + "\n" + Render(ErrorEntries(Verdicts(fields, read.rows[1..], envs, p)))
  {
    var fields := HeaderFields(read.rows[0]).value;
    CompletedErrors(Verdicts(fields, read.rows[1..], envs, p));
  }

  // ---------------------------------------------------------------- the run

  /** An upload as `run` meets it: its file name, how reading it goes, and its rows' environments. */
  datatype UploadFile = UploadFile(name: string, read: ReadOutcome, envs: seq<RowEnv>)

  predicate AllSupplied(files: seq<UploadFile>)
  {
    forall i :: 0 <= i < |files| ==> Supplied(files[i].read, files[i].envs)
  }

  /**
   * The reports written, in order, whether the run got through every upload,
   * and the documents handed to Solr for the upload that ended the run, for
   * which no report is written.
   */
  datatype RunOutcome = RunOutcome(reports: seq<FileReport>, finished: bool, stranded: seq<Row>)

  function FileNames(files: seq<UploadFile>): (names: seq<string>)
    ensures |names| == |files|
    ensures forall i :: 0 <= i < |files| ==> names[i] == files[i].name
  {
    seq(|files|, i requires 0 <= i < |files| => files[i].name)
  }

  /** What processing each upload on its own would give. */
  function Outcomes(files: seq<UploadFile>, p: Parsers): (outcomes: seq<FileResult>)
    requires AllSupplied(files)
    ensures |outcomes| == |files|
    ensures forall i :: 0 <= i < |files| ==> outcomes[i] == FileOutcome(files[i].name, files[i].read, files[i].envs, p)
    ensures forall i :: 0 <= i < |files| && outcomes[i].Processed? ==> outcomes[i].report.name == files[i].name
  {
    seq(|files|, i requires 0 <= i < |files| && Supplied(files[i].read, files[i].envs) =>
      FileOutcome(files[i].name, files[i].read, files[i].envs, p))
  }

  /**
   * The loop over the listing: an upload without a recognised prefix is
   * skipped, any other is processed, and the first one that raises ends the
   * run. A missing upload directory ends it before any file.
   */
  function RunOver(uploadDirExists: bool, names: seq<string>, outcomes: seq<FileResult>): RunOutcome
    requires |names| == |outcomes|
  {
    if !uploadDirExists then RunOutcome([], false, [])
    else if |names| == 0 then RunOutcome([], true, [])
    else
      var n := |names| - 1;
      var before := RunOver(uploadDirExists, names[..n], outcomes[..n]);
      if !before.finished || FilePrefix(names[n]) == "" then before
      else match outcomes[n]
        case Raised(sent) => RunOutcome(before.reports, false, sent)
        case Processed(r) => RunOutcome(before.reports + [r], true, [])
  }

  /** `run` over the uploads in listing order. */
  function RunFiles(uploadDirExists: bool, files: seq<UploadFile>, p: Parsers): RunOutcome
    requires AllSupplied(files)
  {
    RunOver(uploadDirExists, FileNames(files), Outcomes(files, p))
  }

  /** One more listed upload extends a run that got this far as `RunOver` says. */
  lemma RunOverNext(uploadDirExists: bool, names: seq<string>, outcomes: seq<FileResult>, i: nat)
    requires |names| == |outcomes| && i < |names|
    ensures var before := RunOver(uploadDirExists, names[..i], outcomes[..i]);
      RunOver(uploadDirExists, names[..i + 1], outcomes[..i + 1]) ==
        if !uploadDirExists || !before.finished || FilePrefix(names[i]) == "" then before
        else match outcomes[i]
          case Raised(sent) => RunOutcome(before.reports, false, sent)
          case Processed(r) => RunOutcome(before.reports + [r], true, [])
  {
    assert names[..i + 1][..i] == names[..i];
    assert outcomes[..i + 1][..i] == outcomes[..i];
  }

  /** Once a file has ended the run, no later file is looked at. */
  lemma {:induction false} RunStopsAfterHalt(uploadDirExists: bool, names: seq<string>, outcomes: seq<FileResult>, j: nat)
    requires |names| == |outcomes| && j <= |names|
    requires !RunOver(uploadDirExists, names[..j], outcomes[..j]).finished
    ensures RunOver(uploadDirExists, names, outcomes) == RunOver(uploadDirExists, names[..j], outcomes[..j])
    decreases |names|
  {
    if j < |names| {
      var n := |names| - 1;
      assert names[..n][..j] == names[..j];
      assert outcomes[..n][..j] == outcomes[..j];
      RunStopsAfterHalt(uploadDirExists, names[..n], outcomes[..n], j);
    } else {
      assert names[..j] == names;
      assert outcomes[..j] == outcomes;
    }
  }

  /** `run`: every upload with a recognised prefix is processed, reported and archived. */
  method Run(uploadDirExists: bool, files: seq<UploadFile>, p: Parsers) returns (outcome: RunOutcome)
    requires AllSupplied(files)
    ensures outcome == RunFiles(uploadDirExists, files, p)
  {
    ghost var names := FileNames(files);
    ghost var outcomes := Outcomes(files, p);
    if !uploadDirExists {
      return RunOutcome([], false, []);
    }
    var reports: seq<FileReport> := [];
    var i := 0;
    while i < |files|
      invariant 0 <= i <= |files|
      invariant RunOver(uploadDirExists, names[..i], outcomes[..i]) == RunOutcome(reports, true, [])
    {
      RunOverNext(uploadDirExists, names, outcomes, i);
      var uploadfile := files[i];
      var prefix := FilePrefix(uploadfile.name);
      if |prefix| > 0 {
        var result := IngestFile(uploadfile.name, uploadfile.read, uploadfile.envs, p);
        assert result == outcomes[i];
        if result.Raised? {
          RunStopsAfterHalt(uploadDirExists, names, outcomes, i + 1);
          return RunOutcome(reports, false, result.sent);
        }
        reports := reports + [result.report];
      }
      i := i + 1;
    }
    assert names[..i] == names && outcomes[..i] == outcomes;
    return RunOutcome(reports, true, []);
  }

  function ReportNames(reports: seq<FileReport>): seq<string>
  {
    seq(|reports|, i requires 0 <= i < |reports| => reports[i].name)
  }

  /** One more report adds its name at the end. */
  lemma ReportNamesAppend(reports: seq<FileReport>, r: FileReport)
    ensures ReportNames(reports + [r]) == ReportNames(reports) + [r.name]
  {
    var rs := reports + [r];
    assert forall i :: 0 <= i < |reports| ==> rs[i] == reports[i];
  }

  /** The names with a recognised prefix, in listing order. */
  function RecognisedNames(names: seq<string>): seq<string>
  {
    if |names| == 0 then []
    else
      var n := |names| - 1;
      RecognisedNames(names[..n]) + (if FilePrefix(names[n]) != "" then [names[n]] else [])
  }

  /** Every outcome describes the upload of the same name. */
  predicate NamedAfter(names: seq<string>, outcomes: seq<FileResult>)
    requires |names| == |outcomes|
  {
    forall i :: 0 <= i < |names| && outcomes[i].Processed? ==> outcomes[i].report.name == names[i]
  }

  predicate AllRecognised(reports: seq<FileReport>)
  {
    forall i :: 0 <= i < |reports| ==> FilePrefix(reports[i].name) != ""
  }

  /**
   * Only uploads with a recognised prefix are reported (and hence archived);
   * with the upload directory missing nothing is.
   */
  lemma {:induction false} RunOverOnlyRecognised(uploadDirExists: bool, names: seq<string>, outcomes: seq<FileResult>)
    requires |names| == |outcomes| && NamedAfter(names, outcomes)
    ensures AllRecognised(RunOver(uploadDirExists, names, outcomes).reports)
    ensures !uploadDirExists ==> RunOver(uploadDirExists, names, outcomes) == RunOutcome([], false, [])
    decreases |names|
  {
    if uploadDirExists && |names| > 0 {
      var n := |names| - 1;
      assert NamedAfter(names[..n], outcomes[..n]);
      RunOverOnlyRecognised(uploadDirExists, names[..n], outcomes[..n]);
      var before := RunOver(uploadDirExists, names[..n], outcomes[..n]);
      if before.finished && FilePrefix(names[n]) != "" && outcomes[n].Processed? {
        var reports := before.reports + [outcomes[n].report];
        assert outcomes[n].report.name == names[n];
        forall i | 0 <= i < |reports| ensures FilePrefix(reports[i].name) != "" {
          if i < |before.reports| {
            assert reports[i] == before.reports[i];
          }
        }
      }
    }
  }

  /** A run that gets through every upload reports each recognised one, in listing order. */
  lemma {:induction false} RunOverReportsAll(uploadDirExists: bool, names: seq<string>, outcomes: seq<FileResult>)
    requires |names| == |outcomes| && NamedAfter(names, outcomes)
    ensures var out := RunOver(uploadDirExists, names, outcomes);
      out.finished ==> ReportNames(out.reports) == RecognisedNames(names)
    decreases |names|
  {
    if uploadDirExists && |names| > 0 {
      var n := |names| - 1;
      assert NamedAfter(names[..n], outcomes[..n]);
      RunOverReportsAll(uploadDirExists, names[..n], outcomes[..n]);
      var before := RunOver(uploadDirExists, names[..n], outcomes[..n]);
      var out := RunOver(uploadDirExists, names, outcomes);
      if FilePrefix(names[n]) == "" {
        assert out == before;
        assert RecognisedNames(names) == RecognisedNames(names[..n]) + [];
        assert RecognisedNames(names[..n]) + [] == RecognisedNames(names[..n]);
      } else if before.finished && outcomes[n].Processed? {
        assert outcomes[n].report.name == names[n];
        assert out.reports == before.reports + [outcomes[n].report];
        ReportNamesAppend(before.reports, outcomes[n].report);
        assert RecognisedNames(names) == RecognisedNames(names[..n]) + [names[n]];
      } else {
        assert !out.finished;
      }
    } else {
      assert ReportNames([]) == [];
    }
  }

  /** A run that gets through every upload leaves no document without a report. */
  lemma {:induction false} RunOverFinishedClean(uploadDirExists: bool, names: seq<string>, outcomes: seq<FileResult>)
    requires |names| == |outcomes|
    ensures RunOver(uploadDirExists, names, outcomes).finished ==> RunOver(uploadDirExists, names, outcomes).stranded == []
    decreases |names|
  {
    if uploadDirExists && |names| > 0 {
      var n := |names| - 1;
      RunOverFinishedClean(uploadDirExists, names[..n], outcomes[..n]);
    }
  }

  /**
   * A run that stops does so at a recognised upload that raised, after the
   * uploads already reported; the documents that upload sent are the ones
   * left without a report.
   */
  lemma {:induction false} RunOverStranded(uploadDirExists: bool, names: seq<string>, outcomes: seq<FileResult>)
    requires |names| == |outcomes|
    requires uploadDirExists && !RunOver(uploadDirExists, names, outcomes).finished
    ensures var out := RunOver(uploadDirExists, names, outcomes);
      exists i :: 0 <= i < |names| && FilePrefix(names[i]) != "" && outcomes[i] == Raised(out.stranded)
        && RunOver(uploadDirExists, names[..i], outcomes[..i]) == RunOutcome(out.reports, true, [])
    decreases |names|, 1
  {
    var n := |names| - 1;
    var before := RunOver(uploadDirExists, names[..n], outcomes[..n]);
    if !before.finished {
      RunOverStrandedEarlier(uploadDirExists, names, outcomes);
    } else {
      RunOverFinishedClean(uploadDirExists, names[..n], outcomes[..n]);
      assert FilePrefix(names[n]) != "" && outcomes[n].Raised?;
      assert before == RunOutcome(before.reports, true, []);
    }
  }

  /** RunOverStranded when the run had already stopped before the last upload. */
  lemma {:induction false} RunOverStrandedEarlier(uploadDirExists: bool, names: seq<string>, outcomes: seq<FileResult>)
    requires |names| == |outcomes| && |names| > 0 && uploadDirExists
    requires !RunOver(uploadDirExists, names[..|names| - 1], outcomes[..|names| - 1]).finished
    ensures var out := RunOver(uploadDirExists, names, outcomes);
      exists i :: 0 <= i < |names| && FilePrefix(names[i]) != "" && outcomes[i] == Raised(out.stranded)
        && RunOver(uploadDirExists, names[..i], outcomes[..i]) == RunOutcome(out.reports, true, [])
    decreases |names|, 0
  {
    var n := |names| - 1;
    var ns, os := names[..n], outcomes[..n];
    var before, out := RunOver(uploadDirExists, ns, os), RunOver(uploadDirExists, names, outcomes);
    assert out == before;
    RunOverStranded(uploadDirExists, ns, os);
    var i :| 0 <= i < n && FilePrefix(ns[i]) != "" && os[i] == Raised(before.stranded)
      && RunOver(uploadDirExists, ns[..i], os[..i]) == RunOutcome(before.reports, true, []);
    PrefixOfPrefix(names, n, i);
    PrefixOfPrefix(outcomes, n, i);
    assert ns[i] == names[i] && os[i] == outcomes[i];
    assert RunOver(uploadDirExists, names[..i], outcomes[..i]) == RunOutcome(out.reports, true, []);
  }

  lemma PrefixOfPrefix<T>(s: seq<T>, n: nat, i: nat)
    requires i <= n <= |s|
    ensures s[..n][..i] == s[..i]
  {
  }

  /** The same for `run` over its uploads. */
  lemma RunStranded(uploadDirExists: bool, files: seq<UploadFile>, p: Parsers)
    requires AllSupplied(files)
    ensures var out := RunFiles(uploadDirExists, files, p);
      && (out.finished ==> out.stranded == [])
      && (uploadDirExists && !out.finished ==>
            exists i :: 0 <= i < |files| && FilePrefix(files[i].name) != ""
              && FileOutcome(files[i].name, files[i].read, files[i].envs, p) == Raised(out.stranded))
  {
    var names, outcomes := FileNames(files), Outcomes(files, p);
    RunOverFinishedClean(uploadDirExists, names, outcomes);
    if uploadDirExists && !RunOver(uploadDirExists, names, outcomes).finished {
      RunOverStranded(uploadDirExists, names, outcomes);
    }
  }

  /**
   * For `run` itself: reported (and archived) uploads all carry a recognised
   * prefix, nothing is reported when the upload directory is missing, and a
   * run that finishes reports exactly the recognised uploads, in listing order.
   */
  lemma RunReportsRecognised(uploadDirExists: bool, files: seq<UploadFile>, p: Parsers)
    requires AllSupplied(files)
    ensures var out := RunFiles(uploadDirExists, files, p);
      && AllRecognised(out.reports)
      && (!uploadDirExists ==> out == RunOutcome([], false, []))
      && (out.finished ==> ReportNames(out.reports) == RecognisedNames(FileNames(files)))
  {
    var names, outcomes := FileNames(files), Outcomes(files, p);
    assert NamedAfter(names, outcomes);
    RunOverOnlyRecognised(uploadDirExists, names, outcomes);
    RunOverReportsAll(uploadDirExists, names, outcomes);
  }
}
