# GeoBlacklight CSV ingest, modelled in Dafny

This project models `DataIngest` (`lib/geoblacklight/dataingest.rb`) of the
GeoBlacklight v2 application. `DataIngest` is a batch job that reads CSV uploads
from an upload directory and turns each data row into a Solr document.
It ingests only uploads whose name starts with `dmf_`, `cgit_` or `gdrive_`.
It first checks each row against a fixed table of known fields and reports
problems. A row that passes has its cells sanitized to plain ASCII, its
bounding box rewritten as a Solr `ENVELOPE`, and its references wrapped into
a small JSON map. The row is then stamped with the current time and
submitted. For every recognised upload it gets through, the job writes a log
line with two counters. It writes an error report as well when some row failed
or the file could not be read. An upload without a recognised prefix is skipped
without a log. An upload that ends the run (a nil header cell, an empty CSV, a
read error other than `ArgumentError`, or a row that raises) gets neither a log
nor an error report.

Modules (one file each):

- `Wrappers`: `Option`.
- `RubyText`: the Ruby string operations the source relies on.
  - `String#split(",")`, including the rule that drops trailing empty fields.
  - `blank?`.
  - `start_with?`.
  - Header normalisation (`downcase` and `gsub(" ", "_")`).
  - `Integer#to_s`.
  - Concatenation over a sequence.
- `OrderedHash`: a Ruby `Hash` as a sequence of key/value entries in insertion order.
  - `h[k]`, via `Lookup`.
  - `h[k] = v`, via `Put`.
  - `Hash[*fields.zip(record).flatten]`, via `BuildRow`.
- `FieldSchema`: the `@@fields` table.
- `Sanitizer`: `sanitize_string`.
  - The ASCII transcoding with replacement.
  - Universal newlines.
  - `squish`.
- `Validator`: `validaterecord`, with `is_number?` and `is_valid_url` as parameters.
- `Transformer`: `formatsolrdata`.
- `Ingest`: the rest of the job.
  - `getfileprefix`.
  - The per-row pipeline.
  - The row loop with its counters and error text.
  - The reports for one upload.
  - The loop of `run` over the upload listing.

The code's loops are kept as methods with loop invariants:
`Validator.ValidateRecord`, `Ingest.IngestRows` and `Ingest.Run`.
`Transformer.FormatSolrData` and `Ingest.IngestFile` are methods without a
loop that update their hash or reports step by step.
Each method is proved equal to a specification function. The properties are
then proved about those functions.

The outside world enters as inputs:

- the parsed CSV, or how reading the upload failed (`Ingest.ReadOutcome`);
- for each data row, the clock reading and Solr's answer to add-and-commit (`Ingest.RowEnv`);
- whether the upload directory exists;
- the two parsing predicates `is_number?` and `is_valid_url` (`Validator.Parsers`).

An exception the source does not rescue ends the whole run:

- `formatsolrdata` on a row without a usable `solr_geom`;
- `formatsolrdata` on a row whose `dct_references_s` is non-nil (even empty) while
  `dc_identifier_s` is absent (a string plus `nil`, line 64; `Transformer.CanFormat`);
- a `nil` header cell;
- an empty CSV;
- a read error other than `ArgumentError`.

The model represents this as `Halted` (inside the row loop), `Raised` (for one
file) or `finished == false` (for the run). Each of these keeps the documents
already handed to Solr before the exception, because the earlier rows' `add`
and `commit` (lines 185-186) are not undone: `Ingest.HaltedSent`,
`Ingest.FileRaisedSent` and `Ingest.RunStranded` state what they are.

Points of the code's behaviour worth knowing:

- Only `ArgumentError` is rescued around the CSV parse (lines 168-173); any
  other exception while reading ends the run, and the model does the same.
- The validator only inspects the columns the file has. Every row of a file
  without a `solr_geom` column is rejected or raises in `formatsolrdata`;
  none is ingested (`Ingest.NoGeometryColumnNeverIngests`). A one-column row
  whose only cell is filled and is neither the identifier nor the geometry
  passes validation and then raises (`Ingest.SingleColumnRaises`).
- `formatsolrdata` builds the references map from the sanitized cells, without JSON escaping.
  The model does the same.

## Model

| member | source | states |
|---|---|---|
| FieldSchema.RequiredExactly | lib/geoblacklight/dataingest.rb:11-35 | The required fields are exactly the seven flagged `required: true`; a name missing from the table is never required. |
| FieldSchema.OptionalKnown | lib/geoblacklight/dataingest.rb:11-35 | The sixteen other names are known and optional; `dct_references_s` and `layer_modified_dt` are among them. |
| Ingest.FilePrefix | lib/geoblacklight/dataingest.rb:47-57 | The prefix is one of `dmf_`, `cgit_`, `gdrive_` or empty. A non-empty prefix starts the file name. It is empty exactly when the name starts with none of the three. |
| RubyText.BlankCases | lib/geoblacklight/dataingest.rb:101 | Sample checks of `blank?`: nil, `""` and `" \t\n"` are blank; `"x"` and `" x "` are not. |
| RubyText.SplitAll | lib/geoblacklight/dataingest.rb:66 | Splitting at every comma yields at least one piece, and no piece contains a comma. |
| RubyText.DropTrailingEmpty | lib/geoblacklight/dataingest.rb:66 | Ruby's `split` keeps a prefix of the pieces: it ends in a non-empty piece, and everything dropped is empty. |
| RubyText.JoinSplitAll | lib/geoblacklight/dataingest.rb:66 | Joining the comma-separated pieces with commas gives back the string. |
| RubyText.SplitAllCons | lib/geoblacklight/dataingest.rb:66 | A comma-free first field followed by a comma is split off as the first piece. |
| RubyText.SplitAllSingle | lib/geoblacklight/dataingest.rb:66 | A comma-free string is a single piece. |
| RubyText.SplitFour | lib/geoblacklight/dataingest.rb:66 | Four comma-free fields, the last non-empty, joined by commas, split back into exactly those four. |
| RubyText.SplitDropsTrailingEmpty | lib/geoblacklight/dataingest.rb:107 | `"1,2,3,".split(",")` has three tokens, so a trailing comma does not count as a fourth field. |
| RubyText.SplitOnlyCommas | lib/geoblacklight/dataingest.rb:107 | A string of commas, or the empty string, splits into no tokens. |
| RubyText.SplitKeepsLeadingEmpty | lib/geoblacklight/dataingest.rb:107 | A leading empty field is kept as an empty token. |
| RubyText.ConcatMapAppend | lib/geoblacklight/dataingest.rb:99-117 | Appending results over two concatenated sequences is the concatenation of the two results. |
| RubyText.ConcatMapSplit | lib/geoblacklight/dataingest.rb:99-117 | The accumulated text splits at any position into the text of the part before and the part after. |
| RubyText.ConcatMapCons | lib/geoblacklight/dataingest.rb:99-117 | The accumulated text starts with the first element's text. |
| RubyText.ConcatMapAt | lib/geoblacklight/dataingest.rb:99-117 | Each element's text sits between the texts of the elements before and after it. |
| RubyText.HeaderKey | lib/geoblacklight/dataingest.rb:175 | A normalised header keeps its length. Each space becomes `_`, each letter A–Z is downcased, and no space or letter A–Z remains. |
| RubyText.NatToString | lib/geoblacklight/dataingest.rb:181 | `to_s` of a count is a non-empty string of digits without a leading zero. |
| RubyText.NatToStringValue | lib/geoblacklight/dataingest.rb:181 | Reading the decimal digits back gives the number. |
| RubyText.NatToStringInjective | lib/geoblacklight/dataingest.rb:181 | Distinct row numbers get distinct labels. |
| OrderedHash.IndexFrom | lib/geoblacklight/dataingest.rb:61-69 | Finds the first entry at or after a position with the given key, or -1 when there is none. |
| OrderedHash.IndexOf | lib/geoblacklight/dataingest.rb:61-69 | Finds the first entry with the given key, or -1 when the key is absent. |
| OrderedHash.IndexOfSameKeys | lib/geoblacklight/dataingest.rb:61 | Two hashes with the same key list find every key at the same position. |
| OrderedHash.LookupPresent | lib/geoblacklight/dataingest.rb:63-66 | `h[k]` is non-nil only for a key the hash has. |
| OrderedHash.Put | lib/geoblacklight/dataingest.rb:64-69 | After `h[k] = v`, `h[k]` is `v`. |
| OrderedHash.PutKeys | lib/geoblacklight/dataingest.rb:64-69 | `h[k] = v` keeps an existing key's position and appends a new key at the end. |
| OrderedHash.PutUnique | lib/geoblacklight/dataingest.rb:64-69 | `h[k] = v` keeps distinct keys distinct. |
| OrderedHash.PutOther | lib/geoblacklight/dataingest.rb:64-69 | `h[k] = v` leaves every other key's cell as it was. |
| OrderedHash.IndexOfAppend | lib/geoblacklight/dataingest.rb:67-69 | After an append, a key is found where it was before. Otherwise it is found at the new entry when the entry has that key. |
| OrderedHash.BuildPrefixUnique | lib/geoblacklight/dataingest.rb:176 | Every prefix of the zipped row has no repeated key. |
| OrderedHash.BuildRowUnique | lib/geoblacklight/dataingest.rb:176 | The zipped row has no repeated key, whatever the header repeats. |
| OrderedHash.BuildRowSingle | lib/geoblacklight/dataingest.rb:176 | A one-column header zips a record into the single entry of its cell. |
| OrderedHash.BuildPrefixKeySet | lib/geoblacklight/dataingest.rb:176 | The first `m` pairs give the keys of the first `m` header fields, with no more entries than fields. |
| OrderedHash.BuildRowKeySet | lib/geoblacklight/dataingest.rb:176 | The row's keys are exactly the header's fields, with no more entries than fields. |
| OrderedHash.BuildPrefixLookup | lib/geoblacklight/dataingest.rb:176 | Among the first `m` pairs, the last occurrence of a header field decides its cell. |
| OrderedHash.BuildRowLookup | lib/geoblacklight/dataingest.rb:176 | A header field's cell is the record's cell at the last column of that name, or nil when the record is shorter. |
| OrderedHash.BuildPrefixKeys | lib/geoblacklight/dataingest.rb:176 | With distinct fields, the first `m` pairs give `m` entries whose keys are those fields, in order. |
| OrderedHash.BuildRowKeys | lib/geoblacklight/dataingest.rb:176 | With distinct header fields, the row's keys are the header, in order. |
| Sanitizer.UniversalNewlineNoCR | lib/geoblacklight/dataingest.rb:126 | After the universal-newline conversion no carriage return is left. |
| Sanitizer.ToAsciiShape | lib/geoblacklight/dataingest.rb:122-128 | Transcoding keeps the length and yields only ASCII: each ASCII character stays as it is, and each other character becomes one space in its place. |
| Sanitizer.DropSpaces | lib/geoblacklight/dataingest.rb:128 | Dropping leading whitespace never lengthens the string. |
| Sanitizer.DropSpacesShape | lib/geoblacklight/dataingest.rb:128 | It removes a whitespace prefix and stops at the first non-space character. |
| Sanitizer.CollapseShape | lib/geoblacklight/dataingest.rb:128 | Collapsing whitespace runs leaves single plain spaces and no other whitespace. It only keeps characters of the input, and it preserves emptiness and a non-space first character. |
| Sanitizer.DropSpacesAppend | lib/geoblacklight/dataingest.rb:128 | Dropping leading whitespace from `x + y` only touches `x` when `x` ends in a non-space, and leaves that last character. |
| Sanitizer.DropSpacesRun | lib/geoblacklight/dataingest.rb:128 | A whitespace run in front of a string that starts with a non-space is dropped whole, and nothing more. |
| Sanitizer.CollapseAppend | lib/geoblacklight/dataingest.rb:128 | A part that is empty or ends in a non-space is collapsed on its own: no whitespace run crosses its end. |
| Sanitizer.CollapseAppendRun | lib/geoblacklight/dataingest.rb:128 | The same when that part starts with whitespace. |
| Sanitizer.CollapseAppendInk | lib/geoblacklight/dataingest.rb:128 | The same when that part starts with a non-space. |
| Sanitizer.CollapseLeadingRun | lib/geoblacklight/dataingest.rb:128 | A leading whitespace run in front of a non-space, or of nothing, becomes one space. |
| Sanitizer.CollapseRun | lib/geoblacklight/dataingest.rb:128 | Each whitespace run, between parts that do not border on whitespace, becomes exactly one space in its place: `Collapse(a + (w + b)) == Collapse(a) + (" " + Collapse(b))`. |
| Sanitizer.LStripShape | lib/geoblacklight/dataingest.rb:128 | `lstrip` removes exactly the strippable prefix. |
| Sanitizer.RStripShape | lib/geoblacklight/dataingest.rb:128 | `rstrip` removes exactly the strippable suffix. |
| Sanitizer.Sanitize | lib/geoblacklight/dataingest.rb:120-133 | nil stays nil and a string stays a string. |
| Sanitizer.SanitizeClean | lib/geoblacklight/dataingest.rb:120-133 | A sanitized string is ASCII, has no leading or trailing blank, and has no whitespace other than single spaces. |
| Sanitizer.StripSlice | lib/geoblacklight/dataingest.rb:128 | `strip` returns a contiguous slice of its input whose two ends are not strippable. |
| Sanitizer.StripClean | lib/geoblacklight/dataingest.rb:128 | Stripping an ASCII string with single plain spaces yields a clean string. |
| Sanitizer.SliceKeepsShape | lib/geoblacklight/dataingest.rb:128 | A slice of an ASCII string with single plain spaces is ASCII and keeps single plain spaces. |
| Sanitizer.UniversalNewlineFixed | lib/geoblacklight/dataingest.rb:126 | A string without carriage returns passes the newline conversion unchanged. |
| Sanitizer.ToAsciiFixed | lib/geoblacklight/dataingest.rb:122-128 | An ASCII string passes transcoding unchanged. |
| Sanitizer.CollapseFixed | lib/geoblacklight/dataingest.rb:128 | A string with only single plain spaces passes the whitespace collapse unchanged. |
| Sanitizer.CleanFixed | lib/geoblacklight/dataingest.rb:120-133 | A clean string is its own sanitization. |
| Sanitizer.UniversalNewlineChars | lib/geoblacklight/dataingest.rb:126 | The newline conversion writes only LF and characters of its input. |
| Sanitizer.BlankSanitizesEmpty | lib/geoblacklight/dataingest.rb:120-133 | A cell that `blank?` (line 101) accepts and that is not nil sanitizes to the empty string. |
| Sanitizer.SanitizeIdempotent | lib/geoblacklight/dataingest.rb:120-133 | Sanitizing twice is the same as sanitizing once. |
| Sanitizer.InkOfAppend | lib/geoblacklight/dataingest.rb:128 | The ink characters (ASCII other than whitespace and NUL) of a concatenation are those of the parts, in order. |
| Sanitizer.InkOfBlank | lib/geoblacklight/dataingest.rb:128 | A string without ink characters has an empty ink sequence. |
| Sanitizer.InkOfUniversalNewline | lib/geoblacklight/dataingest.rb:126 | Newline conversion keeps the ink characters. |
| Sanitizer.InkOfToAscii | lib/geoblacklight/dataingest.rb:122-128 | Transcoding keeps the ink characters. |
| Sanitizer.InkOfCollapse | lib/geoblacklight/dataingest.rb:128 | Collapsing whitespace keeps the ink characters. |
| Sanitizer.InkOfLStrip | lib/geoblacklight/dataingest.rb:128 | `lstrip` keeps the ink characters. |
| Sanitizer.InkOfRStrip | lib/geoblacklight/dataingest.rb:128 | `rstrip` keeps the ink characters. |
| Sanitizer.SanitizeKeepsInk | lib/geoblacklight/dataingest.rb:120-133 | Sanitizing removes or replaces only whitespace, NUL and non-ASCII characters. The ink characters survive, in order. |
| Validator.ValidateRecord | lib/geoblacklight/dataingest.rb:93-118 | The loop over the entries returns the row's validation text. |
| Validator.EmptyRowOnly | lib/geoblacklight/dataingest.rb:94-96 | The row gets "Row does not contain record." exactly when it has no entries. |
| Validator.RequiredBlankWins | lib/geoblacklight/dataingest.rb:101-102 | A required field that is blank gets the "is required but empty" message, however wrong its content might also be. |
| Validator.OptionalSilent | lib/geoblacklight/dataingest.rb:101-112 | An optional or unknown key never gets a message, in particular not the "required" one. |
| Validator.IdentifierRule | lib/geoblacklight/dataingest.rb:104-105 | A filled-in `dc_identifier_s` gets the URL message exactly when it is not an HTTP(S) URL. |
| Validator.GeometryRule | lib/geoblacklight/dataingest.rb:107-111 | A filled-in `solr_geom` is flagged for a token count other than four, else for a non-number token, else not at all. |
| Validator.OtherRequiredRule | lib/geoblacklight/dataingest.rb:101-102 | Any other required field is only checked for being blank. |
| Validator.FieldMessageShape | lib/geoblacklight/dataingest.rb:102-111 | Every message the chain can produce ends in ". ". |
| Validator.MessagesShape | lib/geoblacklight/dataingest.rb:98-117 | A row's messages are empty or end in ". ". |
| Validator.MessagesAppend | lib/geoblacklight/dataingest.rb:99-116 | The messages of two concatenated rows are those of the first row, then those of the second, so they follow the keys' order. |
| Validator.MessageAt | lib/geoblacklight/dataingest.rb:99-116 | Each entry contributes at most one message, placed between the messages of the earlier and the later entries. |
| Validator.PassesIff | lib/geoblacklight/dataingest.rb:93-118 | A non-empty row validates to "" exactly when no rule fires for any entry. |
| Validator.AllSilentIff | lib/geoblacklight/dataingest.rb:98-117 | The accumulated messages are empty exactly when every entry is silent. |
| Validator.FiredMessageAppears | lib/geoblacklight/dataingest.rb:99-116 | The message of a field that fires appears in the result. |
| Transformer.SanitizeRow | lib/geoblacklight/dataingest.rb:61 | The `merge` keeps the keys and their order, and keeps them distinct. |
| Transformer.SanitizeRowLookup | lib/geoblacklight/dataingest.rb:61 | Each cell after the `merge` is the original cell, sanitized. |
| Transformer.WithReferencesOther | lib/geoblacklight/dataingest.rb:63-65 | Wrapping the references cell leaves every other cell as it was. |
| Transformer.WithReferencesKeys | lib/geoblacklight/dataingest.rb:63-65 | Wrapping the references cell keeps the keys and their order. |
| Transformer.SanitizedFormattable | lib/geoblacklight/dataingest.rb:61-67 | A row `formatsolrdata` accepts has a sanitized hash its rewriting steps accept. |
| Transformer.FormatSolrData | lib/geoblacklight/dataingest.rb:59-72 | The step-by-step updates of the sanitized hash give the Solr document. |
| Transformer.ReformatKeys | lib/geoblacklight/dataingest.rb:63-69 | The rewriting keeps the keys and their order, appending `layer_modified_dt` only when it was missing. |
| Transformer.ReformatCells | lib/geoblacklight/dataingest.rb:63-69 | After the rewriting, `layer_modified_dt` holds the time stamp and `solr_geom` the envelope. `dct_references_s` holds the reference map, or stays absent when it was absent. |
| Transformer.ReformatOther | lib/geoblacklight/dataingest.rb:63-69 | The rewriting leaves every other cell as it was. |
| Transformer.ReformatUnique | lib/geoblacklight/dataingest.rb:63-69 | The rewriting keeps distinct keys distinct. |
| Transformer.SolrDocumentShape | lib/geoblacklight/dataingest.rb:59-72 | The document keeps the row's keys in order and adds `layer_modified_dt` at the end when missing; that cell holds the time stamp. `solr_geom` holds the envelope of the sanitized box. `dct_references_s` holds the map built from the sanitized identifier and references, or stays absent when there was none. Every other cell is the row's own cell, sanitized. |
| Transformer.SolrDocumentUnique | lib/geoblacklight/dataingest.rb:59-72 | Formatting keeps the keys distinct. |
| Transformer.EnvelopeOrder | lib/geoblacklight/dataingest.rb:66-67 | A box `a,b,c,d` becomes `ENVELOPE(b,d,c,a)`. |
| Transformer.EnvelopeExample | lib/geoblacklight/dataingest.rb:66-67 | `10,20,30,40` becomes `ENVELOPE(20,40,30,10)`. |
| Transformer.EnvelopeArguments | lib/geoblacklight/dataingest.rb:67 | The envelope is `ENVELOPE(`…`)` around the first four tokens in the order second, fourth, third, first. |
| Ingest.IngestedIff | lib/geoblacklight/dataingest.rb:179-187 | A row is ingested exactly when it validates, can be formatted, and Solr commits it. |
| Ingest.NoGeometryColumnNeverIngests | lib/geoblacklight/dataingest.rb:101-112 | In a file without a `solr_geom` column, every row is rejected or raises; none is ingested. |
| Ingest.SingleColumnRaises | lib/geoblacklight/dataingest.rb:66-67 | A file whose only column is filled in and is neither the identifier nor `solr_geom` (such as `dc_title_s`) passes validation and then raises in `formatsolrdata`. |
| Ingest.HaltedSent | lib/geoblacklight/dataingest.rb:177-195 | A loop that halts at row `r` keeps the documents the first `r` rows sent, one per row among them that passed validation. |
| Ingest.HaltedStays | lib/geoblacklight/dataingest.rb:177-195 | After an exception has left the row loop, later rows change nothing. |
| Ingest.ProcessRowsNext | lib/geoblacklight/dataingest.rb:177-195 | Each further row extends the completed loop by one step, or halts it at that row. |
| Ingest.ProcessRecord | lib/geoblacklight/dataingest.rb:179-191 | The loop body validates, formats and submits one record, and yields its verdict. |
| Ingest.Account | lib/geoblacklight/dataingest.rb:180-194 | The counter and error-text updates for one row are one step of the loop. |
| Ingest.IngestRows | lib/geoblacklight/dataingest.rb:160-195 | The row loop, with its counters, its error text and its submissions, gives the loop's outcome over the rows' verdicts. |
| Ingest.CountIngested | lib/geoblacklight/dataingest.rb:187 | The committed rows never outnumber the rows. |
| Ingest.CountInvalid | lib/geoblacklight/dataingest.rb:180-181 | The rejected rows never outnumber the rows. |
| Ingest.EntryFor | lib/geoblacklight/dataingest.rb:181-189 | A rejected or uncommitted row contributes exactly one entry, under its label; other rows contribute none. |
| Ingest.HaltsAtFirstRaise | lib/geoblacklight/dataingest.rb:177-195 | The loop completes exactly when no row raises. When it halts, it halts at the first row that raises. |
| Ingest.CompletedCounts | lib/geoblacklight/dataingest.rb:187-193 | `totalrecs` is the number of data rows and `ingestedrecs` the number of committed rows, so `ingestedrecs <= totalrecs`. One document goes to Solr per row that passed validation. |
| Ingest.CompletedErrors | lib/geoblacklight/dataingest.rb:181-189 | The error text is the rendering of the error entries, in row order. |
| Ingest.EntriesPointToFailures | lib/geoblacklight/dataingest.rb:181-189 | Each entry is labelled with the CSV line of a failed row: its position plus two, so the labels run from "row 2" on. |
| Ingest.EntriesIncreasing | lib/geoblacklight/dataingest.rb:181-194 | The labels strictly increase. |
| Ingest.FailuresHaveEntries | lib/geoblacklight/dataingest.rb:181-189 | Every rejected or uncommitted row has its entry. |
| Ingest.EntriesCount | lib/geoblacklight/dataingest.rb:180-193 | When no row raises, there is one entry per row not ingested. |
| Ingest.CompletedMismatchIff | lib/geoblacklight/dataingest.rb:204 | `totalrecs != ingestedrecs` after the loop exactly when some row failed. |
| Ingest.HeaderFields | lib/geoblacklight/dataingest.rb:175 | The header is usable exactly when no cell is nil. There is then one field name per column, the column's cell normalised, and no field name contains a space or a letter A–Z. |
| Ingest.FileOutcome | lib/geoblacklight/dataingest.rb:160-207 | A processed upload's report carries its file name. |
| Ingest.FileRaisedSent | lib/geoblacklight/dataingest.rb:168-195 | An upload that ends the run has handed Solr one document per row before the raising row that passed validation; when it raises before the row loop, none. |
| Ingest.IngestFile | lib/geoblacklight/dataingest.rb:160-207 | Reading the file (with the `ArgumentError` rescue), the row loop, the log and the error report give the file's outcome. |
| Ingest.FileReportFacts | lib/geoblacklight/dataingest.rb:160-207 | The log line reports the two counters, with `ingestedrecs <= totalrecs`. `totalrecs` is the number of data rows. The file error is set exactly on an `ArgumentError`. An error report starting with the file name is written exactly when `totalrecs != ingestedrecs` or the file could not be read. |
| Ingest.FileHaltsIff | lib/geoblacklight/dataingest.rb:168-195 | A file ends the run exactly when one of these holds: reading raises something other than `ArgumentError`; the CSV is empty; a header cell is nil; or some row raises in `formatsolrdata`. |
| Ingest.FileErrorEntries | lib/geoblacklight/dataingest.rb:204-206 | The error report of a file that was read is the file name, a newline, and the entries of its failed rows. |
| Ingest.RunOverNext | lib/geoblacklight/dataingest.rb:155-215 | Each further upload is skipped, processed, or ends the run. |
| Ingest.RunStopsAfterHalt | lib/geoblacklight/dataingest.rb:155-215 | Once an upload has ended the run, later uploads change nothing. |
| Ingest.Run | lib/geoblacklight/dataingest.rb:144-216 | The loop of `run` over the listing gives the run's outcome. |
| Ingest.RunOverFinishedClean | lib/geoblacklight/dataingest.rb:155-215 | A run that gets through every upload leaves no document without a report. |
| Ingest.RunOverStranded | lib/geoblacklight/dataingest.rb:155-215 | A run that stops does so at a recognised upload that raised, after the uploads already reported; the documents that upload sent are the ones left without a report. |
| Ingest.RunOverStrandedEarlier | lib/geoblacklight/dataingest.rb:155-215 | The same, when the run had already stopped before the last upload. |
| Ingest.RunStranded | lib/geoblacklight/dataingest.rb:144-216 | For `run` itself: no document is left without a report when it finishes; when it stops, those left are the ones sent by a recognised upload that raised. |
| Ingest.RunOverOnlyRecognised | lib/geoblacklight/dataingest.rb:152-158 | Only uploads with a recognised prefix are reported. Nothing is reported when the upload directory is missing. |
| Ingest.ReportNamesAppend | lib/geoblacklight/dataingest.rb:155-215 | One more report adds its file name at the end of the reported names. |
| Ingest.RunOverReportsAll | lib/geoblacklight/dataingest.rb:155-215 | A run that gets through the listing reports each recognised upload, in listing order. |
| Ingest.RunReportsRecognised | lib/geoblacklight/dataingest.rb:144-216 | The same three facts, stated for `run` over its uploads. |

## Left out

- File-system work is not modelled, because the model starts from what it produces or needs:
  - reading the directory listing and the files;
  - `createreport`;
  - the report file names with their time stamps;
  - `FileUtils.mv` to the archive;
  - the configured base path.
  The model takes the listing and each file's read result as inputs. It yields each report's content instead of writing it.
- `CSV::parse` is an input: its result is `Ingest.ReadOutcome`, the rows of optional cells or the way it failed.
- Time is an input.
  - `Time.now` in `formatsolrdata`, with its `strftime` format, is a string supplied per row.
  - The time stamps in report names are not modelled.
- The Solr connection (`add` and `commit`) is not modelled, because it is a network call. Its outcome per row is an input, and the model keeps the documents handed to it, including those of an upload that later raises.
- `is_number?` (Kernel#Float) and `URI.parse` are uninterpreted predicates (`Validator.Parsers`).
  The model does not define Ruby's float syntax or URI grammar.
- `dirMissing` writes a log message and raises `IOError`.
  The model keeps only the effect: the run ends with nothing reported. The message text is not modelled.
- The `puts` and `Rails.logger` output is not modelled.
- The `rescue` in `validaterecord` (lines 113-115) catches exceptions raised by the rules.
  The model's rules cannot raise: `is_number?` and `is_valid_url` rescue their own errors, and a nil content is handled explicitly. So no branch corresponds to this rescue.
- Transcoding in `sanitize_string` differs from Ruby's in two ways:
  - Each non-ASCII character becomes one space, without byte sequences: strings are sequences of characters.
  - Invalid UTF-8 input is not represented.
- Header normalisation downcases only the letters A-Z. Unicode case mapping is not modelled.
- SanitizeKeepsInk: states only what survives sanitizing (whitespace, NUL and non-ASCII characters may be removed or replaced; every other character survives, in order), not the character-by-character result; `ToAsciiShape`, `CollapseRun` and the strip lemmas state the steps one by one.
- Exceptions outside `StandardError` raised by the Solr client are not modelled, because nothing in the source rescues them. A `StandardError` is the `SubmitError` answer.
- The helpers of the web application that display the references map are not part of this model.
