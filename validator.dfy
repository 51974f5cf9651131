/**
 * `validaterecord`: walk a row's entries in order and, for each one, append
 * the message of the first rule that fires.
 */
module Validator {
  import opened Wrappers
  import opened RubyText
  import opened OrderedHash
  import opened FieldSchema

  /**
   * The two library checks the validator consults, left uninterpreted:
   * `isNumber` is `is_number?` (Kernel#Float accepts the string) and
   * `isHttpUrl` says URI.parse yields a URI::HTTP or URI::HTTPS.
   */
  datatype Parsers = Parsers(isNumber: string -> bool, isHttpUrl: string -> bool)

  /** `is_valid_url`: URI.parse(nil) raises, and the rescue answers false. */
  predicate IsValidUrl(content: Option<string>, p: Parsers)
  {
    content.Some? && p.isHttpUrl(content.value)
  }

  predicate AllNumbers(tokens: seq<string>, p: Parsers)
  {
    forall i :: 0 <= i < |tokens| ==> p.isNumber(tokens[i])
  }

  const EmptyRowMessage: string := "Row does not contain record."
  const UrlMessage: string := "dc_identifier_s field is not a valid URL. "
  const GeomCountMessage: string := "solr_geom field is incorrect. "
  const GeomNumbersMessage: string := "solr_geom field should be all numbers. "

  function RequiredMessage(key: string): string
  {
    key + " is required but empty. "
  }

  /** The `if`/`elsif` chain for one entry: the first rule that fires, if any. */
  function FieldMessage(key: string, content: Option<string>, p: Parsers): Option<string>
  {
    if IsRequired(key) && Blank(content) then Some(RequiredMessage(key))
    else if key == "dc_identifier_s" && !IsValidUrl(content, p) then Some(UrlMessage)
    else if key == "solr_geom" && (content.None? || |Split(content.value)| != 4) then Some(GeomCountMessage)
    else if key == "solr_geom" && (content.None? || !AllNumbers(Split(content.value), p)) then Some(GeomNumbersMessage)
    else None
  }

  /** What one entry adds to the result string. */
  function EntryText(e: Entry, p: Parsers): string
  {
    match FieldMessage(e.key, e.value, p)
    case None => ""
    case Some(m) => m
  }

  function EntryTextOf(p: Parsers): Entry -> string
  {
    e => EntryText(e, p)
  }

  /** The messages of a row's entries, concatenated in entry order. */
  function Messages(row: Row, p: Parsers): string
  {
    ConcatMap(row, EntryTextOf(p))
  }

  /** The string `validaterecord` returns: empty when the row passes. */
  function Validation(row: Row, p: Parsers): string
  {
    if |row| == 0 then EmptyRowMessage else Messages(row, p)
  }

  /** `validaterecord`, as the loop that appends one entry's message at a time. */
  method ValidateRecord(row: Row, p: Parsers) returns (result: string)
    ensures result == Validation(row, p)
  {
    if |row| == 0 {
      return EmptyRowMessage;
    }
    result := "";
    var i := 0;
    while i < |row|
      invariant 0 <= i <= |row|
      invariant result == Messages(row[..i], p)
    {
      var key, content := row[i].key, row[i].value;
      if IsRequired(key) && Blank(content) {
        result := result + RequiredMessage(key);
      } else if key == "dc_identifier_s" && !IsValidUrl(content, p) {
        result := result + UrlMessage;
      } else if key == "solr_geom" && (content.None? || |Split(content.value)| != 4) {
        result := result + GeomCountMessage;
      } else if key == "solr_geom" && (content.None? || !AllNumbers(Split(content.value), p)) {
        result := result + GeomNumbersMessage;
      }
      assert row[..i + 1][..i] == row[..i];
      i := i + 1;
    }
    assert row[..i] == row;
  }

  /** A row with no entries gets exactly the one "no record" message. */
  lemma EmptyRowOnly(row: Row, p: Parsers)
    ensures Validation(row, p) == EmptyRowMessage <==> |row| == 0
  {
    if |row| > 0 {
      MessagesShape(row, p);
    }
  }

  /** A required field left blank gets the "required" message, whatever else is wrong with it. */
  lemma RequiredBlankWins(key: string, content: Option<string>, p: Parsers)
    requires IsRequired(key) && Blank(content)
    ensures FieldMessage(key, content, p) == Some(RequiredMessage(key))
  {
  }

  /** An optional or unknown field never gets any message, and in particular not the "required" one. */
  lemma OptionalSilent(key: string, content: Option<string>, p: Parsers)
    requires !IsRequired(key)
    ensures FieldMessage(key, content, p) == None
  {
    RequiredExactly("dc_identifier_s");
    RequiredExactly("solr_geom");
  }

  /** A filled-in identifier is flagged exactly when it is not an absolute HTTP or HTTPS URL. */
  lemma IdentifierRule(content: Option<string>, p: Parsers)
    requires !Blank(content)
    ensures FieldMessage("dc_identifier_s", content, p) == if IsValidUrl(content, p) then None else Some(UrlMessage)
  {
  }

  /** A filled-in `solr_geom`: a token count other than four, else a non-number, else nothing. */
  lemma GeometryRule(content: Option<string>, p: Parsers)
    requires !Blank(content)
    ensures var tokens := Split(content.value);
      FieldMessage("solr_geom", content, p) ==
        if |tokens| != 4 then Some(GeomCountMessage)
        else if !AllNumbers(tokens, p) then Some(GeomNumbersMessage)
        else None
  {
  }

  /** The other required fields are only checked for being blank. */
  lemma OtherRequiredRule(key: string, content: Option<string>, p: Parsers)
    requires IsRequired(key) && key != "dc_identifier_s" && key != "solr_geom"
    ensures FieldMessage(key, content, p) == if Blank(content) then Some(RequiredMessage(key)) else None
  {
  }

  predicate EndsWithStop(s: string)
  {
    |s| >= 2 && s[|s| - 2..] == ". "
  }

  /** Every message a field can produce is non-empty and ends in ". ". */
  lemma FieldMessageShape(key: string, content: Option<string>, p: Parsers)
    ensures FieldMessage(key, content, p).Some? ==> EndsWithStop(FieldMessage(key, content, p).value)
  {
    var m := RequiredMessage(key);
    assert m[|m| - 2..] == ". ";
  }

  /** The messages of a row are empty or end in ". ". */
  lemma {:induction false} MessagesShape(row: Row, p: Parsers)
    ensures Messages(row, p) == "" || EndsWithStop(Messages(row, p))
    decreases |row|
  {
    if |row| > 0 {
      var n := |row| - 1;
      MessagesShape(row[..n], p);
      FieldMessageShape(row[n].key, row[n].value, p);
      var a, b := Messages(row[..n], p), EntryText(row[n], p);
      if b != "" {
        assert (a + b)[|a + b| - 2..] == b[|b| - 2..];
      } else {
        assert a + b == a;
      }
    }
  }

  /** Validating two halves of a row and concatenating gives the row's messages: they come in key order. */
  lemma MessagesAppend(a: Row, b: Row, p: Parsers)
    ensures Messages(a + b, p) == Messages(a, p) + Messages(b, p)
  {
    ConcatMapAppend(a, b, EntryTextOf(p));
  }

  /** Each entry's message sits between those of the entries before it and after it. */
  lemma MessageAt(row: Row, i: nat, p: Parsers)
    requires i < |row|
    ensures Messages(row, p) == Messages(row[..i], p) + EntryText(row[i], p) + Messages(row[i + 1..], p)
  {
    ConcatMapAt(row, i, EntryTextOf(p));
  }

  /** A non-empty row passes, with result "", exactly when no rule fires for any of its entries. */
  lemma {:induction false} PassesIff(row: Row, p: Parsers)
    requires |row| > 0
    ensures Validation(row, p) == "" <==> forall i :: 0 <= i < |row| ==> FieldMessage(row[i].key, row[i].value, p).None?
  {
    AllSilentIff(row, p);
  }

  lemma {:induction false} AllSilentIff(row: Row, p: Parsers)
    ensures Messages(row, p) == "" <==> forall i :: 0 <= i < |row| ==> FieldMessage(row[i].key, row[i].value, p).None?
    decreases |row|
  {
    if |row| > 0 {
      var n := |row| - 1;
      AllSilentIff(row[..n], p);
      FieldMessageShape(row[n].key, row[n].value, p);
      assert forall i :: 0 <= i < n ==> row[..n][i] == row[i];
    }
  }

  /** A field that fires contributes its message to the result. */
  lemma FiredMessageAppears(row: Row, i: nat, p: Parsers)
    requires i < |row| && FieldMessage(row[i].key, row[i].value, p).Some?
    ensures var m := FieldMessage(row[i].key, row[i].value, p).value;
      exists pre, post :: Validation(row, p) == pre + m + post
  {
    MessageAt(row, i, p);
    var m := FieldMessage(row[i].key, row[i].value, p).value;
    assert Validation(row, p) == Messages(row[..i], p) + m + Messages(row[i + 1..], p);
  }
}
