/**
 * The CSV loader: one document per CSV record, whose text lists each column
 * as `header:value`, the columns separated by the two characters `\` and `n`,
 * and whose metadata says where the record came from. Parsing the CSV text is
 * not modelled: the parser's outcome (header names, records, and where it
 * throws) is a parameter.
 */
module Csv {
  import opened Wrappers
  import opened JavaStrings
  import opened Documents

  /** The column separator in a record's text: a backslash and an `n`, not a line break. */
  const ColumnSeparator: string := "\\n"

  /**
   * What the parser yields: nothing (the file or URL cannot be opened, or the
   * header cannot be read), or the header names and the records, possibly
   * throwing when asked for the record at index `breaksAt`.
   */
  datatype Parse =
    | Unreadable
    | Parsed(headers: seq<string>, records: seq<seq<string>>, breaksAt: Option<nat>)

  /** Where the records come from: a local file, or a link and the file part of its URL. */
  datatype Origin =
    | FileOrigin(name: string, absolutePath: string, length: nat)
    | LinkOrigin(link: string, urlFile: string)

  /** `header:value` for each column, in header order. */
  function Fields(headers: seq<string>, values: seq<string>): (fields: seq<string>)
    requires |headers| <= |values|
    ensures |fields| == |headers|
    ensures forall i :: 0 <= i < |headers| ==> fields[i] == headers[i] + ":" + values[i]
  {
    seq(|headers|, i requires 0 <= i < |headers| => headers[i] + ":" + values[i])
  }

  /** A record's text: its fields separated by `\n` (backslash, n). */
  function RecordText(headers: seq<string>, values: seq<string>): string
    requires |headers| <= |values|
  {
    Join(Fields(headers, values), ColumnSeparator)
  }

  /**
   * The text loop for one record. `record.get(header)` throws when the record
   * has fewer values than there are headers; the values are read by header
   * position.
   */
  method SerializeRecord(headers: seq<string>, values: seq<string>) returns (r: Option<string>)
    ensures r.None? <==> |values| < |headers|
    ensures r.Some? ==> r.value == RecordText(headers, values)
  {
    var totalColumns := |headers|;
    var documentText := "";
    ghost var fields: seq<string> := [];
    for i := 0 to totalColumns
      invariant i < totalColumns || totalColumns == 0
      invariant i <= |values| && |fields| == i
      invariant forall j :: 0 <= j < i ==> fields[j] == headers[j] + ":" + values[j]
      invariant documentText == Terminated(fields, ColumnSeparator)
    {
      documentText := documentText + headers[i] + ":";
      if i >= |values| {
        return None;
      }
      ghost var field := headers[i] + ":" + values[i];
      if i == totalColumns - 1 {
        JoinSnoc(fields, field, ColumnSeparator);
        documentText := documentText + values[i];
        assert documentText == Join(fields + [field], ColumnSeparator);
        assert fields + [field] == Fields(headers, values);
        return Some(documentText);
      } else {
        TerminatedSnoc(fields, field, ColumnSeparator);
        documentText := documentText + (values[i] + "\\n");
        fields := fields + [field];
      }
    }
    assert Fields(headers, values) == [];
    return Some(documentText);
  }

  /** The metadata of the record with the given 1-based record number. */
  function RowMetadata(origin: Origin, recordNumber: nat): (metadata: Metadata)
    ensures metadata.Keys == {"FileName", "Source", "FileSize", "Row"}
    ensures metadata["Row"] == NatToString(recordNumber)
    ensures origin.FileOrigin? ==> metadata["FileName"] == origin.name && metadata["Source"] == origin.absolutePath
    ensures origin.FileOrigin? ==> metadata["FileSize"] == NatToString(origin.length)
    ensures origin.LinkOrigin? ==> metadata["FileName"] == origin.urlFile && metadata["Source"] == origin.link
    ensures origin.LinkOrigin? ==> metadata["FileSize"] == NatToString(|origin.urlFile|)
  {
    match origin
    case FileOrigin(name, absolutePath, length) =>
      map["FileName" := name, "Source" := absolutePath, "FileSize" := NatToString(length), "Row" := NatToString(recordNumber)]
    case LinkOrigin(link, urlFile) =>
      map["FileName" := urlFile, "Source" := link, "FileSize" := NatToString(|urlFile|), "Row" := NatToString(recordNumber)]
  }

  /** How many records are read before the first exception: a short record or the parser's own. */
  function Readable(headers: seq<string>, records: seq<seq<string>>, breaksAt: Option<nat>): (n: nat)
    ensures n <= |records|
    ensures forall i :: 0 <= i < n ==> |headers| <= |records[i]|
    ensures breaksAt.Some? ==> n <= breaksAt.value
    ensures n < |records| ==> |records[n]| < |headers| || breaksAt == Some(n)
    decreases |records|
  {
    if |records| == 0 || breaksAt == Some(0) || |records[0]| < |headers| then 0
    else
      var rest := match breaksAt case None => None case Some(k) => Some(k - 1);
      1 + Readable(headers, records[1..], rest)
  }

  /** The documents `readData` returns: one per record read, in record order. */
  function CsvDocuments(origin: Origin, parse: Parse): (docs: seq<Doc>)
    ensures parse.Unreadable? ==> docs == []
    ensures parse.Parsed? ==> |docs| == Readable(parse.headers, parse.records, parse.breaksAt)
    ensures parse.Parsed? ==> forall i :: 0 <= i < |docs| ==>
              docs[i] == Doc(RecordText(parse.headers, parse.records[i]), RowMetadata(origin, i + 1))
  {
    match parse
    case Unreadable => []
    case Parsed(headers, records, breaksAt) =>
      var n := Readable(headers, records, breaksAt);
      seq(n, i requires 0 <= i < n => Doc(RecordText(headers, records[i]), RowMetadata(origin, i + 1)))
  }

  /**
   * Both `readData` overloads: each record read becomes a new document; the
   * first exception ends the loop, is caught, and the documents built so far
   * are returned.
   */
  method ReadData(origin: Origin, parse: Parse) returns (documents: seq<Document>)
    ensures Values(documents) == CsvDocuments(origin, parse)
    ensures forall d :: d in documents ==> fresh(d)
  {
    documents := [];
    if parse.Unreadable? {
      return;
    }
    ghost var expected := CsvDocuments(origin, parse);
    var headers := parse.headers;
    var recordNumber := 0;
    while recordNumber < |parse.records|
      invariant recordNumber <= |expected|
      invariant Values(documents) == expected[..recordNumber]
      invariant forall d :: d in documents ==> fresh(d)
      decreases |parse.records| - recordNumber
    {
      if parse.breaksAt == Some(recordNumber) {
        StopsAtReadable(origin, parse, recordNumber);
        return;
      }
      var record := parse.records[recordNumber];
      var documentText := SerializeRecord(headers, record);
      if documentText.None? {
        StopsAtReadable(origin, parse, recordNumber);
        return;
      }
      var metadata := RowMetadata(origin, recordNumber + 1);
      var newDocument := new Document(Some(documentText.value), Some(metadata));
      ValuesAppend(documents, [newDocument]);
      ReadStep(origin, parse, recordNumber);
      documents := documents + [newDocument];
      recordNumber := recordNumber + 1;
    }
    StopsAtReadable(origin, parse, recordNumber);
  }

  /** A record read without an exception: its document follows the ones before it. */
  lemma ReadStep(origin: Origin, parse: Parse, recordNumber: nat)
    requires parse.Parsed? && recordNumber <= |CsvDocuments(origin, parse)|
    requires recordNumber < |parse.records| && parse.breaksAt != Some(recordNumber)
    requires |parse.headers| <= |parse.records[recordNumber]|
    ensures recordNumber < |CsvDocuments(origin, parse)|
    ensures CsvDocuments(origin, parse)[..recordNumber + 1] == CsvDocuments(origin, parse)[..recordNumber] +
              [Doc(RecordText(parse.headers, parse.records[recordNumber]), RowMetadata(origin, recordNumber + 1))]
  {
  }

  /** Wherever the loop stops, it has read exactly the readable records. */
  lemma StopsAtReadable(origin: Origin, parse: Parse, recordNumber: nat)
    requires parse.Parsed? && recordNumber <= |CsvDocuments(origin, parse)|
    requires || recordNumber == |parse.records|
             || parse.breaksAt == Some(recordNumber)
             || (recordNumber < |parse.records| && |parse.records[recordNumber]| < |parse.headers|)
    ensures CsvDocuments(origin, parse)[..recordNumber] == CsvDocuments(origin, parse)
  {
  }


  /** The records' text never holds a line break unless a header or a value does. */
  lemma RecordTextSingleLine(headers: seq<string>, values: seq<string>)
    requires |headers| <= |values|
    requires forall i :: 0 <= i < |headers| ==> '\n' !in headers[i] && '\n' !in values[i]
    ensures '\n' !in RecordText(headers, values)
  {
    var fields := Fields(headers, values);
    forall i | 0 <= i < |fields| ensures '\n' !in fields[i] {
      CountCharAbsent(headers[i], '\n');
      CountCharAbsent(values[i], '\n');
      CountCharAbsent(":", '\n');
      CountCharAppend(headers[i], ":", '\n');
      CountCharAppend(headers[i] + ":", values[i], '\n');
      CountCharZero(fields[i], '\n');
    }
    CountCharAbsent(ColumnSeparator, '\n');
    CountCharJoin(fields, ColumnSeparator, '\n');
    SumCountAbsent(fields, '\n');
    CountCharZero(RecordText(headers, values), '\n');
  }

  /** With no header columns every record's text is empty. */
  lemma NoHeadersEmptyText(values: seq<string>)
    ensures RecordText([], values) == ""
  {
  }

  /** A record's `Row` metadata reads back as its record number, and its `FileSize` as the size recorded. */
  lemma RowMetadataReadsBack(origin: Origin, recordNumber: nat)
    ensures ParseNat(RowMetadata(origin, recordNumber)["Row"]) == recordNumber
    ensures origin.FileOrigin? ==> ParseNat(RowMetadata(origin, recordNumber)["FileSize"]) == origin.length
    ensures origin.LinkOrigin? ==> ParseNat(RowMetadata(origin, recordNumber)["FileSize"]) == |origin.urlFile|
  {
    ParseNatToString(recordNumber);
    match origin
    case FileOrigin(_, _, length) => ParseNatToString(length);
    case LinkOrigin(_, urlFile) => ParseNatToString(|urlFile|);
  }

  /** When every record is complete and the parser never throws, every record gives a document. */
  lemma {:induction false} AllRecordsRead(headers: seq<string>, records: seq<seq<string>>)
    requires forall i :: 0 <= i < |records| ==> |headers| <= |records[i]|
    ensures Readable(headers, records, None) == |records|
    decreases |records|
  {
    if |records| > 0 {
      AllRecordsRead(headers, records[1..]);
    }
  }
}
