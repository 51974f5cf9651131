/**
 * `formatsolrdata`: turn a validated row into the Solr document that is
 * submitted: every cell sanitized, the references cell wrapped into a
 * two-entry JSON-shaped map, the bounding box rewritten as an ENVELOPE, and
 * the modification time stamped.
 */
module Transformer {
  import opened Wrappers
  import opened RubyText
  import opened OrderedHash
  import opened Sanitizer

  const IdentifierKey: string := "dc_identifier_s"
  const ReferencesKey: string := "dct_references_s"
  const GeomKey: string := "solr_geom"
  const ModifiedKey: string := "layer_modified_dt"

  /** The row merged with itself, every cell passed through the sanitizer: same keys, same order, every cell sanitized. */
  function SanitizeRow(row: Row): (r: Row)
    ensures Keys(r) == Keys(row)
  {
    var r := seq(|row|, i requires 0 <= i < |row| => Entry(row[i].key, Sanitize(row[i].value)));
    assert Keys(r) == Keys(row);
    r
  }

  /** Each cell of the sanitized row is the row's cell sanitized (a missing one stays missing). */
  lemma SanitizeRowLookup(row: Row, k: string)
    ensures Lookup(SanitizeRow(row), k) == Sanitize(Lookup(row, k))
  {
    IndexOfSameKeys(SanitizeRow(row), row, k);
  }

  /** The reference map: the identifier as the download URL, the original cell as the WCS service. */
  function References(identifier: string, references: string): string
  {
    "{\"http://schema.org/downloadUrl\":\"" + identifier
      + "\",\"http://www.opengis.net/def/serviceType/ogc/wcs\":\"" + references + "\"}"
  }

  /** The Solr envelope of the geometry cell: its second, fourth, third and first numbers, in that order. */
  function Envelope(gdata: seq<string>): string
    requires |gdata| >= 4
  {
    "ENVELOPE(" + gdata[1] + "," + gdata[3] + "," + gdata[2] + "," + gdata[0] + ")"
  }

  /**
   * What `formatsolrdata` needs of its row not to raise: a non-nil
   * bounding box of at least four tokens once sanitized (else `nil.split` or
   * `+ nil`), and an identifier whenever there is a references cell.
   */
  predicate CanFormat(row: Row)
  {
    && Lookup(row, GeomKey).Some?
    && |Split(Sanitize(Lookup(row, GeomKey)).value)| >= 4
    && (Lookup(row, ReferencesKey).Some? ==> Lookup(row, IdentifierKey).Some?)
  }

  /** Lines 63-65: wrap a present references cell into the reference map around the identifier. */
  function WithReferences(content: Row): Row
    requires Lookup(content, ReferencesKey).Some? ==> Lookup(content, IdentifierKey).Some?
  {
    if Lookup(content, ReferencesKey).Some? then
      Put(content, ReferencesKey, Some(References(Lookup(content, IdentifierKey).value, Lookup(content, ReferencesKey).value)))
    else content
  }

  /** Wrapping the references cell touches no other cell. */
  lemma WithReferencesOther(content: Row, k: string)
    requires Lookup(content, ReferencesKey).Some? ==> Lookup(content, IdentifierKey).Some?
    requires k != ReferencesKey
    ensures Lookup(WithReferences(content), k) == Lookup(content, k)
  {
    if Lookup(content, ReferencesKey).Some? {
      PutOther(content, ReferencesKey, Some(References(Lookup(content, IdentifierKey).value, Lookup(content, ReferencesKey).value)), k);
    }
  }

  /** Wrapping the references cell keeps the keys. */
  lemma WithReferencesKeys(content: Row)
    requires Lookup(content, ReferencesKey).Some? ==> Lookup(content, IdentifierKey).Some?
    ensures Keys(WithReferences(content)) == Keys(content)
  {
    if Lookup(content, ReferencesKey).Some? {
      PutKeys(content, ReferencesKey, Some(References(Lookup(content, IdentifierKey).value, Lookup(content, ReferencesKey).value)));
    }
  }

  /** Lines 66-67: replace the bounding box by its ENVELOPE. */
  function WithEnvelope(content: Row): Row
    requires Lookup(content, GeomKey).Some? && |Split(Lookup(content, GeomKey).value)| >= 4
  {
    Put(content, GeomKey, Some(Envelope(Split(Lookup(content, GeomKey).value))))
  }

  /** What lines 63-69 need of the sanitized hash not to raise. */
  predicate Formattable(content: Row)
  {
    && Lookup(content, GeomKey).Some?
    && |Split(Lookup(content, GeomKey).value)| >= 4
    && (Lookup(content, ReferencesKey).Some? ==> Lookup(content, IdentifierKey).Some?)
  }

  /** Lines 63-69 on the sanitized hash: references, envelope, time stamp. */
  function Reformat(content: Row, now: string): Row
    requires Formattable(content)
  {
    WithReferencesOther(content, GeomKey);
    Put(WithEnvelope(WithReferences(content)), ModifiedKey, Some(now))
  }

  /** A row that can be formatted has a sanitized hash the rewriting steps accept. */
  lemma SanitizedFormattable(row: Row)
    requires CanFormat(row)
    ensures Formattable(SanitizeRow(row))
  {
    SanitizeRowLookup(row, GeomKey);
    SanitizeRowLookup(row, ReferencesKey);
    SanitizeRowLookup(row, IdentifierKey);
  }

  /** The document `formatsolrdata` returns for `row` when the clock reads `now`. */
  function SolrDocument(row: Row, now: string): Row
    requires CanFormat(row)
  {
    SanitizedFormattable(row);
    Reformat(SanitizeRow(row), now)
  }

  /** `formatsolrdata`, overwriting the special cells of the sanitized hash one after another. */
  method FormatSolrData(row: Row, now: string) returns (content: Row)
    requires CanFormat(row)
    ensures content == SolrDocument(row, now)
  {
    content := SanitizeRow(row);
    SanitizedFormattable(row);
    WithReferencesOther(content, GeomKey);
    if Lookup(content, ReferencesKey).Some? {
      var refs := References(Lookup(content, IdentifierKey).value, Lookup(content, ReferencesKey).value);
      content := Put(content, ReferencesKey, Some(refs));
    }
    var gdata := Split(Lookup(content, GeomKey).value);
    content := Put(content, GeomKey, Some(Envelope(gdata)));
    content := Put(content, ModifiedKey, Some(now));
  }

  /** The rewriting keeps the keys and their order, appending `layer_modified_dt` when it was missing. */
  lemma ReformatKeys(content: Row, now: string)
    requires Formattable(content)
    ensures Keys(Reformat(content, now)) == Keys(content) + (if ModifiedKey in Keys(content) then [] else [ModifiedKey])
  {
    WithReferencesOther(content, GeomKey);
    WithReferencesKeys(content);
    var withRefs := WithReferences(content);
    assert GeomKey in Keys(withRefs);
    PutKeys(withRefs, GeomKey, Some(Envelope(Split(Lookup(withRefs, GeomKey).value))));
    assert Keys(WithEnvelope(withRefs)) == Keys(content);
    PutKeys(WithEnvelope(withRefs), ModifiedKey, Some(now));
    assert Keys(content) + [] == Keys(content);
  }

  /** The three rewritten cells hold the time stamp, the envelope and the reference map. */
  lemma ReformatCells(content: Row, now: string)
    requires Formattable(content)
    ensures var doc := Reformat(content, now);
      && Lookup(doc, ModifiedKey) == Some(now)
      && Lookup(doc, GeomKey) == Some(Envelope(Split(Lookup(content, GeomKey).value)))
      && Lookup(doc, ReferencesKey) ==
           (if Lookup(content, ReferencesKey).None? then None
            else Some(References(Lookup(content, IdentifierKey).value, Lookup(content, ReferencesKey).value)))
  {
    WithReferencesOther(content, GeomKey);
    var withRefs := WithReferences(content);
    var withGeom := WithEnvelope(withRefs);
    PutOther(withGeom, ModifiedKey, Some(now), GeomKey);
    PutOther(withGeom, ModifiedKey, Some(now), ReferencesKey);
    PutOther(withRefs, GeomKey, Some(Envelope(Split(Lookup(withRefs, GeomKey).value))), ReferencesKey);
  }

  /** Every other cell is left as it was. */
  lemma ReformatOther(content: Row, now: string, k: string)
    requires Formattable(content)
    requires k != ModifiedKey && k != GeomKey && k != ReferencesKey
    ensures Lookup(Reformat(content, now), k) == Lookup(content, k)
  {
    WithReferencesOther(content, GeomKey);
    var withRefs := WithReferences(content);
    PutOther(WithEnvelope(withRefs), ModifiedKey, Some(now), k);
    PutOther(withRefs, GeomKey, Some(Envelope(Split(Lookup(withRefs, GeomKey).value))), k);
    WithReferencesOther(content, k);
  }

  /** The rewriting keeps the keys distinct. */
  lemma ReformatUnique(content: Row, now: string)
    requires Formattable(content) && UniqueKeys(content)
    ensures UniqueKeys(Reformat(content, now))
  {
    WithReferencesOther(content, GeomKey);
    var withRefs := WithReferences(content);
    if Lookup(content, ReferencesKey).Some? {
      PutUnique(content, ReferencesKey, Some(References(Lookup(content, IdentifierKey).value, Lookup(content, ReferencesKey).value)));
    }
    PutUnique(withRefs, GeomKey, Some(Envelope(Split(Lookup(withRefs, GeomKey).value))));
    PutUnique(WithEnvelope(withRefs), ModifiedKey, Some(now));
  }

  /**
   * The document has the row's keys in the row's order, plus
   * `layer_modified_dt` at the end when the row lacked it; the time stamp,
   * the envelope and the reference map are in their cells, and every other
   * cell is the row's own cell sanitized.
   */
  lemma SolrDocumentShape(row: Row, now: string)
    requires CanFormat(row)
    ensures var doc := SolrDocument(row, now);
      && Keys(doc) == Keys(row) + (if ModifiedKey in Keys(row) then [] else [ModifiedKey])
      && Lookup(doc, ModifiedKey) == Some(now)
      && Lookup(doc, GeomKey) == Some(Envelope(Split(Sanitize(Lookup(row, GeomKey)).value)))
      && Lookup(doc, ReferencesKey) ==
           (if Lookup(row, ReferencesKey).None? then None
            else Some(References(Sanitize(Lookup(row, IdentifierKey)).value, Sanitize(Lookup(row, ReferencesKey)).value)))
      && forall k :: k != ModifiedKey && k != GeomKey && k != ReferencesKey ==> Lookup(doc, k) == Sanitize(Lookup(row, k))
  {
    var content := SanitizeRow(row);
    SanitizedFormattable(row);
    SanitizeRowLookup(row, GeomKey);
    SanitizeRowLookup(row, ReferencesKey);
    SanitizeRowLookup(row, IdentifierKey);
    ReformatKeys(content, now);
    ReformatCells(content, now);
    forall k | k != ModifiedKey && k != GeomKey && k != ReferencesKey
      ensures Lookup(SolrDocument(row, now), k) == Sanitize(Lookup(row, k))
    {
      ReformatOther(content, now, k);
      SanitizeRowLookup(row, k);
    }
  }

  /** Formatting keeps a row's keys distinct. */
  lemma SolrDocumentUnique(row: Row, now: string)
    requires CanFormat(row) && UniqueKeys(row)
    ensures UniqueKeys(SolrDocument(row, now))
  {
    var content := SanitizeRow(row);
    SanitizedFormattable(row);
    assert forall i :: 0 <= i < |row| ==> content[i].key == Keys(content)[i] == Keys(row)[i] == row[i].key;
    ReformatUnique(content, now);
  }

  /** Four comma-free tokens, the last non-empty, are reordered as (second, fourth, third, first). */
  lemma EnvelopeOrder(g0: string, g1: string, g2: string, g3: string)
    requires ',' !in g0 && ',' !in g1 && ',' !in g2 && ',' !in g3 && g3 != ""
    ensures var gdata := Split(g0 + "," + g1 + "," + g2 + "," + g3);
      |gdata| == 4 && Envelope(gdata) == "ENVELOPE(" + g1 + "," + g3 + "," + g2 + "," + g0 + ")"
  {
    SplitFour(g0, g1, g2, g3);
  }

  /** The worked example: "10,20,30,40" becomes "ENVELOPE(20,40,30,10)". */
  lemma EnvelopeExample(geom: string)
    requires geom == "10,20,30,40"
    ensures |Split(geom)| == 4 && Envelope(Split(geom)) == "ENVELOPE(20,40,30,10)"
  {
    var g0, g1, g2, g3 := "10", "20", "30", "40";
    assert geom == g0 + "," + g1 + "," + g2 + "," + g3;
    EnvelopeOrder(g0, g1, g2, g3);
  }

  /** The envelope's arguments, split again, are the first four tokens in the order 1, 3, 2, 0. */
  lemma EnvelopeArguments(gdata: seq<string>)
    requires |gdata| >= 4 && gdata[0] != ""
    requires forall i :: 0 <= i < 4 ==> ',' !in gdata[i]
    ensures var e := Envelope(gdata);
      |e| >= 10 && e[..9] == "ENVELOPE(" && e[|e| - 1] == ')'
      && Split(e[9..|e| - 1]) == [gdata[1], gdata[3], gdata[2], gdata[0]]
  {
    var inner := gdata[1] + "," + gdata[3] + "," + gdata[2] + "," + gdata[0];
    var e := Envelope(gdata);
    assert e == "ENVELOPE(" + inner + ")";
    assert e[9..|e| - 1] == inner;
    SplitFour(gdata[1], gdata[3], gdata[2], gdata[0]);
  }
}
