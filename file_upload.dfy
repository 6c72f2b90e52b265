/**
 * The upload component: validation of the chosen file, extraction of the
 * trades from the parsed document, construction of the stored record, and
 * the insert / mark-Completed / mark-Failed sequence against the store.
 */
module FileUpload {

  import opened Wrappers
  import opened Numbers
  import opened Strings
  import opened Xml
  import opened Store

  /** 50 MiB: the largest accepted file, in bytes. */
  const MaxFileSize: nat := 50 * 1024 * 1024

  /** The browser's File: its name, its size in bytes and its text. */
  datatype UploadFile = UploadFile(name: string, size: nat, content: string)

  /** The errors an upload can end with; `Message` gives the text shown to the user. */
  datatype UploadError =
    | NotXmlFile
    | TooLarge
    | InvalidXml
    | TableNotConfigured
    | Rejected(err: StoreError)
    | NoInsertedRow

  function Message(e: UploadError): string
  {
    match e
    case NotXmlFile => "Only XML files are accepted"
    case TooLarge => "File size exceeds 50MB limit"
    case InvalidXml => "Invalid XML file format"
    case TableNotConfigured => "Database table not properly configured. Please contact support."
    case Rejected(err) => err.message
    case NoInsertedRow => "Cannot read properties of undefined (reading 'id')"
  }

  // ------------------------------------------------------------- validation

  /** `validateXMLFile`: the first check that fails, or None when the file is accepted. */
  function ValidateXmlFile(f: UploadFile): (r: Option<UploadError>)
    ensures r.None? <==> EndsWith(f.name, ".xml") && f.size <= MaxFileSize
    ensures !EndsWith(f.name, ".xml") ==> r == Some(NotXmlFile)
    ensures EndsWith(f.name, ".xml") && f.size > MaxFileSize ==> r == Some(TooLarge)
  {
    if !EndsWith(f.name, ".xml") then Some(NotXmlFile)
    else if f.size > 50 * 1024 * 1024 then Some(TooLarge)
    else None
  }

  /** Names of the form `<stem>.xml` pass the extension check; a file of exactly 50 MiB passes the size check. */
  lemma {:induction false} AcceptedFiles(stem: string, content: string)
    ensures ValidateXmlFile(UploadFile(stem + ".xml", MaxFileSize, content)).None?
    ensures ValidateXmlFile(UploadFile(stem + ".xml", MaxFileSize + 1, content)) == Some(TooLarge)
  {
    EndsWithIffStem(stem + ".xml", ".xml");
  }

  /** The extension check is case-sensitive and comes before the size check. */
  lemma UpperCaseExtensionRejected(size: nat, content: string)
    ensures ValidateXmlFile(UploadFile("trades.XML", size, content)) == Some(NotXmlFile)
  {
    var name := "trades.XML";
    assert name[|name| - 4..] != ".xml" by {
      assert name[|name| - 4..][1] == 'X';
    }
  }

  // ------------------------------------------------------------- extraction

  /** `doc.getElementsByTagName("parsererror").length > 0`. */
  predicate HasParserError(doc: Document)
  {
    ElementsByTagName(doc.children, "parsererror") != []
  }

  /** `text || '0'`: the text, unless it is missing or empty. */
  function TextOrZero(t: Option<string>): string
  {
    if t.Some? && t.value != "" then t.value else "0"
  }

  /** The record read from one `trade` element: six fields, each the first match at any depth. */
  function ParseTrade(e: Node): Trade
    requires e.Element?
  {
    Trade(
      FirstTextContent(e, "date"),
      FirstTextContent(e, "symbol"),
      FirstTextContent(e, "type"),
      ParseInt(TextOrZero(FirstTextContent(e, "quantity"))),
      ParseFloat(TextOrZero(FirstTextContent(e, "price"))),
      FirstTextContent(e, "counterparty"))
  }

  /**
   * A missing field gives `undefined` for the string fields and 0 for the
   * quantity and the price; a present field gives the text of its first
   * occurrence in document order, at any depth below the trade, parsed for
   * the two numbers (an empty text also gives 0).
   */
  lemma TradeFields(e: Node)
    requires e.Element?
    ensures var es := Named(PreOrder(e.children), "date");
      ParseTrade(e).date == if es == [] then None else Some(TextContent(es[0]))
    ensures var es := Named(PreOrder(e.children), "symbol");
      ParseTrade(e).symbol == if es == [] then None else Some(TextContent(es[0]))
    ensures var es := Named(PreOrder(e.children), "type");
      ParseTrade(e).kind == if es == [] then None else Some(TextContent(es[0]))
    ensures var es := Named(PreOrder(e.children), "counterparty");
      ParseTrade(e).counterparty == if es == [] then None else Some(TextContent(es[0]))
    ensures var q := Named(PreOrder(e.children), "quantity");
      ParseTrade(e).quantity == if q == [] || TextContent(q[0]) == "" then Fin(0.0) else ParseInt(TextContent(q[0]))
    ensures var p := Named(PreOrder(e.children), "price");
      ParseTrade(e).price == if p == [] || TextContent(p[0]) == "" then Fin(0.0) else ParseFloat(TextContent(p[0]))
  {
    ParseIntZero();
    ParseFloatZero();
    ElementsByTagNameIsFilteredPreOrder(e.children, "date");
    ElementsByTagNameIsFilteredPreOrder(e.children, "symbol");
    ElementsByTagNameIsFilteredPreOrder(e.children, "type");
    ElementsByTagNameIsFilteredPreOrder(e.children, "counterparty");
    ElementsByTagNameIsFilteredPreOrder(e.children, "quantity");
    ElementsByTagNameIsFilteredPreOrder(e.children, "price");
  }

  /** `Array.from(getElementsByTagName("trade")).map(...)`. */
  function ExtractTrades(doc: Document): (ts: seq<Trade>)
    ensures |ts| == |ElementsByTagName(doc.children, "trade")|
  {
    var es := ElementsByTagName(doc.children, "trade");
    seq(|es|, i requires 0 <= i < |es| => ParseTrade(es[i]))
  }

  /** One trade per `trade` element, in document order, wherever the element sits. */
  lemma ExtractTradesInDocumentOrder(doc: Document)
    ensures var es := Named(PreOrder(doc.children), "trade");
      |ExtractTrades(doc)| == |es| &&
      forall i | 0 <= i < |es| :: es[i].Element? && ExtractTrades(doc)[i] == ParseTrade(es[i])
  {
    ElementsByTagNameIsFilteredPreOrder(doc.children, "trade");
  }

  // ---------------------------------------------------- record construction

  /** `` `${(size / 1024).toFixed(2)} KB` ``. */
  function FileSizeText(bytes: nat): string
  {
    Fixed2ToString(KiloHundredths(bytes)) + " KB"
  }

  /** Removing " KB" and parsing gives back the size in KB, to the nearest hundredth. */
  lemma FileSizeRoundTrip(bytes: nat)
    ensures ParseFloat(RemoveFirst(FileSizeText(bytes), " KB")) == Fin(KiloHundredths(bytes) as real / 100.0)
    ensures var kb := ParseFloat(RemoveFirst(FileSizeText(bytes), " KB")).v;
      kb - 0.005 <= (bytes as real) / 1024.0 < kb + 0.005
  {
    var h := KiloHundredths(bytes);
    var text := Fixed2ToString(h);
    Fixed2HasNoSpace(h);
    RemoveFirstAppended(text, " KB");
    assert RemoveFirst(FileSizeText(bytes), " KB") == text;
    ParseFloatOfFixed2(h);
  }

  /** The row inserted for an accepted upload. */
  function NewRecord(f: UploadFile, doc: Document, now: string): (r: FileRecord)
    ensures r.status == Processing && r.fileType == "xml"
    ensures r.filename == f.name && r.fileContent == f.content && r.uploadDate == now
    ensures r.trades == |r.sampleTrades| == |ElementsByTagName(doc.children, "trade")|
    ensures r.sampleTrades == ExtractTrades(doc)
    ensures r.fileSize == FileSizeText(f.size)
  {
    FileRecord(
      filename := f.name,
      status := Processing,
      fileType := "xml",
      fileSize := FileSizeText(f.size),
      fileContent := f.content,
      trades := |ElementsByTagName(doc.children, "trade")|,
      sampleTrades := ExtractTrades(doc),
      uploadDate := now)
  }

  /** The size stored in a new record reads back as the file's size in KB, to the nearest hundredth. */
  lemma NewRecordSizeReadsBack(f: UploadFile, doc: Document, now: string)
    ensures ParseFloat(RemoveFirst(NewRecord(f, doc, now).fileSize, " KB")) == Fin(KiloHundredths(f.size) as real / 100.0)
  {
    FileSizeRoundTrip(f.size);
  }

  // --------------------------------------------------------- the upload itself

  /** The error raised for a rejected insert: the table-missing code gets a fixed message. */
  function InsertError(err: StoreError): UploadError
  {
    if err.code == "42P01" then TableNotConfigured else Rejected(err)
  }

  /** How `handleFileUpload` ends: `onUploadComplete()` was called, or an error is shown. */
  datatype UploadResult = Uploaded | UploadFailed(error: UploadError)

  predicate Accepted(f: UploadFile, doc: Document)
  {
    ValidateXmlFile(f).None? && !HasParserError(doc)
  }

  /**
   * `handleFileUpload`: validate, insert a Processing row, mark it Completed;
   * if anything fails once the insert has returned a row, mark that row Failed
   * (whether that last write succeeds is not checked).
   */
  method HandleFileUpload(
    store: RecordStore, file: UploadFile, doc: Document, now: string,
    insertOutcome: InsertOutcome, completeOutcome: WriteOutcome, failOutcome: WriteOutcome)
    returns (result: UploadResult)
    requires store.Valid()
    modifies store
    ensures store.Valid()
    ensures !Accepted(file, doc) ==>
      && result == UploadFailed(if ValidateXmlFile(file).Some? then ValidateXmlFile(file).value else InvalidXml)
      && store.records == old(store.records) && store.calls == old(store.calls)
    ensures Accepted(file, doc) ==> old(store.nextId) !in old(store.records)
    ensures Accepted(file, doc) && insertOutcome.InsertRejected? ==>
      && result == UploadFailed(InsertError(insertOutcome.err))
      && store.records == old(store.records)
      && store.calls == old(store.calls) + [InsertCall(NewRecord(file, doc, now))]
    ensures Accepted(file, doc) && insertOutcome.InsertedUnreadable? ==>
      && result == UploadFailed(NoInsertedRow)
      && store.records == old(store.records)[old(store.nextId) := NewRecord(file, doc, now)]
      && store.calls == old(store.calls) + [InsertCall(NewRecord(file, doc, now))]
    ensures Accepted(file, doc) && insertOutcome.Inserted? && completeOutcome.Written? ==>
      && result == Uploaded
      && store.records == old(store.records)[old(store.nextId) := NewRecord(file, doc, now).(status := Completed)]
      && store.calls == old(store.calls) + [InsertCall(NewRecord(file, doc, now)),
                                            UpdateStatusCall(old(store.nextId), Completed)]
    ensures Accepted(file, doc) && insertOutcome.Inserted? && completeOutcome.WriteRejected? ==>
      && result == UploadFailed(Rejected(completeOutcome.err))
      && store.records == old(store.records)[old(store.nextId) :=
           NewRecord(file, doc, now).(status := if failOutcome.Written? then Failed else Processing)]
      && store.calls == old(store.calls) + [InsertCall(NewRecord(file, doc, now)),
                                            UpdateStatusCall(old(store.nextId), Completed),
                                            UpdateStatusCall(old(store.nextId), Failed)]
  {
    var data: Option<seq<Id>> := None;
    var thrown := ValidateXmlFile(file);
    if thrown.None? && HasParserError(doc) {
      thrown := Some(InvalidXml);
    }
    if thrown.None? {
      var record := NewRecord(file, doc, now);
      var reply := store.Insert(record, insertOutcome);
      data := if reply.Rows? then Some(reply.ids) else None;
      if reply.InsertFailed? {
        thrown := Some(InsertError(reply.err));
      } else if reply.ids == [] {
        // `data[0].id` on an empty reply throws
        thrown := Some(NoInsertedRow);
      } else {
        var updateError := store.UpdateStatus(reply.ids[0], Completed, completeOutcome);
        if updateError.Some? {
          thrown := Some(Rejected(updateError.value));
        }
      }
    }
    if thrown.Some? {
      // the catch block: `data?.[0]?.id`
      if data.Some? && data.value != [] && data.value[0] != 0 {
        var _ := store.UpdateStatus(data.value[0], Failed, failOutcome);
      }
      return UploadFailed(thrown.value);
    }
    return Uploaded;
  }
}
