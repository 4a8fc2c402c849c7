/** `parseCSV` (app/csvtojson/page.tsx): the whole conversion from pasted text to
    records, with the two errors it throws as error values. */
module Converter {
  import opened Results
  import opened Text
  import opened Sniffer
  import opened Tokenizer
  import opened RowTrimming
  import opened Headers
  import opened RecordBuilding

  /** The two `Error`s `parseCSV` throws. */
  datatype ParseError =
    | NoHeaderRow     // "CSV must have at least a header row"
    | EmptyHeaderRow  // "Header row is empty"

  const ByteOrderMark: char := '\U{FEFF}'

  /** The text with one leading byte order mark removed. */
  function StripBom(raw: string): (csv: string)
    ensures |csv| <= |raw|
  {
    if raw != [] && raw[0] == ByteOrderMark then raw[1..] else raw
  }

  /** The rows left once the text is tokenized with its sniffed delimiter and blank
      rows are trimmed from both ends. */
  function TrimmedRows(csv: string): seq<seq<string>> {
    TrimBlankRows(Tokenize(csv, Sniff(csv)))
  }

  /** What `parseCSV` returns or throws for `raw`. */
  function Parse(raw: string): (r: Result<seq<Record>, ParseError>)
    ensures r.Err? ==> r.error == NoHeaderRow
  {
    if IsBlank(raw) then Ok([])
    else
      var rows := TrimmedRows(StripBom(raw));
      if rows == [] then Err(NoHeaderRow)
      else
        // The first kept row is not blank, so it has a cell and a header name.
        TrimBlankRowsSpec(Tokenize(StripBom(raw), Sniff(StripBom(raw))));
        assert !BlankRow(rows[0]);
        var headers := HeaderNames(rows[0]);
        if headers == [] then Err(EmptyHeaderRow) else Ok(Records(headers, rows))
  }

  /** `parseCSV` step by step: blank test, byte order mark, sniffing, tokenizing,
      trimming, headers, records. */
  method ParseCsv(raw: string) returns (result: Result<seq<Record>, ParseError>)
    ensures result == Parse(raw)
  {
    BlankIffTrimsToEmpty(raw);
    if raw == [] || Trim(raw) == [] {
      return Ok([]);
    }
    var csv := if raw[0] == ByteOrderMark then raw[1..] else raw;
    var delimiter := SniffDelimiter(csv);
    var rows := TokenizeRows(csv, delimiter);
    rows := TrimRows(rows);
    if |rows| < 1 {
      return Err(NoHeaderRow);
    }
    var headers := CleanHeaders(rows[0]);
    if |headers| < 1 {
      return Err(EmptyHeaderRow);
    }
    var out := BuildRecords(headers, rows);
    return Ok(out);
  }

  // ---------------------------------------------------------------------------
  // Properties of the whole conversion.

  /** Empty or whitespace-only text gives no records and no error. */
  lemma BlankInputGivesNoRecords(raw: string)
    requires IsBlank(raw)
    ensures Parse(raw) == Ok([])
  {
  }

  /** The blank test runs before the byte order mark is removed, and the mark is
      whitespace to `trim`: a lone mark gives no records rather than an error. */
  lemma LoneByteOrderMark()
    ensures Parse([ByteOrderMark]) == Ok([])
  {
  }

  /** Parsing fails exactly when the text is not blank but every row it tokenizes
      into is blank, and then with "CSV must have at least a header row". */
  lemma ParseFailsIff(raw: string)
    ensures Parse(raw).Err? <==>
            !IsBlank(raw) && AllBlank(Tokenize(StripBom(raw), Sniff(StripBom(raw))))
    ensures Parse(raw).Err? ==> Parse(raw).error == NoHeaderRow
  {
    TrimBlankRowsEmptyIff(Tokenize(StripBom(raw), Sniff(StripBom(raw))));
  }

  /** A lone empty quoted field is not blank text, but tokenizes into no rows at
      all, whichever delimiter is sniffed: parsing it fails. */
  lemma EmptyQuotesFail()
    ensures Parse("\"\"") == Err(NoHeaderRow)
  {
    var csv := "\"\"";
    assert !IsWhitespace(csv[0]);
    var d := Sniff(csv);
    QuotedField("", "", d);
    assert "\"" + "" + "\"" + "" == csv;
    assert Tokenize(csv, d) == [];
  }

  /** Every record produced keeps a value that is not empty, and all its keys are
      non-empty names other than `__proto__`. */
  lemma ParsedRecords(raw: string)
    requires Parse(raw).Ok?
    ensures forall i :: 0 <= i < |Parse(raw).value| ==>
              !AllEmpty(Parse(raw).value[i]) &&
              forall k :: k in Parse(raw).value[i] ==> k != [] && k != Proto
  {
    if !IsBlank(raw) {
      var rows := TrimmedRows(StripBom(raw));
      RecordsShape(HeaderNames(rows[0]), rows);
    }
  }
}
