/**
 * The conversation: five states plus "no conversation", the per-user record
 * `context.user_data`, and one handler per kind of update. Each handler is a
 * method of `Session` that updates the record in place; its effect is stated
 * by a transition function on values, about which the lemmas speak.
 * Everything the handlers learn from outside (HTTP responses, the PDF
 * library, the file system, the clock, fresh uuids) arrives in a `World`.
 */
module Conversation {
  import opened Wrappers
  import opened Text
  import opened Paths
  import opened Limits
  import opened Filenames
  import opened PageRange
  import opened Extraction
  import opened Download
  import opened Tokens
  import opened Storage

  /** `ConversationHandler.END` (also "no conversation yet") and the five states. */
  datatype State = Ended | UploadPdf | GetUrl | ConfirmDownload | GetPageRange | SelectLocalPdf

  /** `context.user_data`: each key present or absent. */
  datatype UserData = UserData(
    pdfPath: Option<string>,
    numPages: Option<nat>,
    downloadUrl: Option<string>,
    fileName: Option<string>,
    pendingRange: Option<(int, int)>)

  /** A Telegram document as the bot reads it. */
  datatype Document = Document(isPdf: bool, fileSize: Option<int>, fileName: Option<string>, senderId: int)

  /** An inbound update. */
  datatype Event =
    | StartCommand
    | CancelCommand
    | OtherCommand                  // `/list_pdfs`, `/clear_pdfs` and any other command
    | Callback(data: string)        // an inline-button press
    | TextMessage(text: string)     // a text message that is not a command
    | DocumentMessage(doc: Document)

  /** A page of a source PDF, known by its position there. */
  datatype Page = Page(number: nat)

  /** What PyPDF2 reads from a file: its pages and the ones it cannot copy. */
  datatype PdfFile = PdfFile(pages: seq<Page>, broken: set<int>)

  /** The answer to `requests.head(url)`: an exception, or status and headers. */
  datatype Head =
    | HeadFailed
    | HeadOk(status: int, contentType: Option<string>, contentLength: Option<string>, disposition: Option<string>)

  /** The streamed `requests.get(url)`: an exception before the body, or the `content-length` header and the chunks. */
  datatype Fetch = FetchFailed | Fetched(contentLength: Option<string>, chunks: seq<Chunk>)

  /** The outside world as one update sees it. */
  datatype World = World(
    listing: seq<string>,          // glob("stored_pdfs/*.pdf"), in glob's order
    existing: set<string>,         // paths for which os.path.exists holds
    pdfs: map<string, PdfFile>,    // what PdfReader reads at a path (absent: it raises)
    head: Head,
    fetch: Fetch,
    transferOk: bool,              // whether get_file + download_to_drive succeed
    outputSize: nat,               // os.path.getsize of the written output
    publicUrl: string,             // PUBLIC_URL
    now: int,                      // time.time(), whole seconds
    copyId: string,                // the uuid4 naming the served copy
    token: string)                 // the uuid4 naming the download token

  /** What the handler of `handle_url` concludes. */
  datatype UrlOutcome =
    | NotHttp                               // not http:// or https://, nothing stored
    | HeadError                             // RequestException
    | BadStatus(status: int)                // status other than 200
    | NotPdf                                // content type and path both say "not a PDF"
    | TooLarge(megabytes: int)              // Content-Length over 2 GiB
    | BadLength                             // int(Content-Length) raises ValueError
    | Confirm(name: string, sizeInfo: string)

  /** What `process_page_range` concludes. */
  datatype RangeOutcome =
    | BadFormat
    | BadRange(numPages: nat)
    | ReadFailed                                        // the input PDF cannot be read
    | PageFailed(page: int, progress: seq<int>)         // "Error processing page {page}"
    | SentInline(name: string, written: seq<Page>, progress: seq<int>, next: seq<string>)
    | SentLink(name: string, url: string, progress: seq<int>, next: seq<string>)
    | NotPublic(progress: seq<int>)                     // the link would point at localhost

  /** What the user sees, as far as the model follows it. */
  datatype Reply =
    | Unhandled                             // no handler of the conversation takes the update
    | NoReply                               // the button press is acknowledged and nothing is shown
    | Crashed                               // an exception escapes to `error_handler`
    | Menu(buttons: seq<string>)            // a message with buttons carrying this callback data
    | Prompt                                // instructions, a cancellation or a plain apology
    | FileGone                              // the selected stored file no longer exists
    | Analysed(numPages: nat)               // the PDF is read: asks for a range
    | AnalysisFailed(menu: seq<string>)     // the stored PDF cannot be read: the listing again
    | DownloadFailed(progress: seq<int>)
    | Downloaded(progress: seq<int>, numPages: nat)
    | UploadRefused                         // over 50 MiB
    | UploadFailed
    | UrlReply(probe: UrlOutcome)
    | RangeReply(result: RangeOutcome)

  /** The effect of one update: next state, next record, reply, and a token issued on the way. */
  datatype Step = Step(state: State, data: UserData, reply: Reply, issued: Option<(string, TokenEntry)>)

  /** The buttons of the welcome message. */
  const StartButtons: seq<string> := ["upload", "url", "local"]

  /**
   * What every state reached through a handler promises: the page-range
   * state is entered only with both the input path and its page count known.
   */
  predicate Consistent(state: State, d: UserData) {
    state == GetPageRange ==> d.pdfPath.Some? && d.numPages.Some?
  }

  // ---------------------------------------------------------------- routing

  /** Which handler the `ConversationHandler` of `main` picks. */
  datatype Handler = NoHandler | OnStart | OnCancel | OnButton | OnPdf | OnUrl | OnRange

  /**
   * `/start` is the entry point and, with re-entry allowed, wins in every
   * state; outside a conversation nothing else is handled; inside one, the
   * state's own handlers are tried, then the `/cancel` fallback.
   */
  function Route(state: State, event: Event): (h: Handler)
    ensures state == Ended && h != NoHandler ==> h == OnStart
  {
    if event.StartCommand? then OnStart
    else if state == Ended then NoHandler
    else match event
      case Callback(_) =>
        if state == UploadPdf || state == ConfirmDownload || state == SelectLocalPdf then OnButton else NoHandler
      case DocumentMessage(doc) => if state == UploadPdf && doc.isPdf then OnPdf else NoHandler
      case TextMessage(_) =>
        if state == GetUrl then OnUrl else if state == GetPageRange then OnRange else NoHandler
      case CancelCommand => OnCancel
      case _ => NoHandler
  }

  // ------------------------------------------------------ transition functions

  /** `list_local_pdfs`: the state it returns. */
  function ListState(listing: seq<string>): State {
    if listing == [] then UploadPdf else SelectLocalPdf
  }

  /** The `select_pdf:` branch of `button_handler`. */
  function SelectSpec(name: string, d: UserData, w: World): (r: Step)
    ensures r.data.pendingRange == d.pendingRange && r.issued.None?
  {
    var path := Join(StorageDir, name);
    if path !in w.existing then Step(UploadPdf, d, FileGone, None)
    else
      var d1 := d.(pdfPath := Some(path));
      if path in w.pdfs then
        var n := |w.pdfs[path].pages|;
        Step(GetPageRange, d1.(numPages := Some(n)), Analysed(n), None)
      else Step(ListState(w.listing), d1, AnalysisFailed(LocalPdfMenu(w.listing)), None)
  }

  /** The `confirm_download` branch of `button_handler`. */
  function DownloadSpec(d: UserData, w: World): (r: Step)
    ensures r.data.pendingRange == d.pendingRange && r.issued.None?
  {
    if d.downloadUrl.None? || d.downloadUrl.value == [] then Step(Ended, d, Prompt, None)
    else
      var safe := Basename(d.fileName.GetOr("downloaded.pdf"));
      var path := Join(StorageDir, safe);
      match w.fetch
      case FetchFailed => Step(Ended, d, DownloadFailed([]), None)
      case Fetched(header, chunks) =>
        match ContentLength(header)
        case None => Step(Ended, d, DownloadFailed([]), None)
        case Some(total) =>
          if !EntryName(safe) then Step(Ended, d, DownloadFailed([]), None)
          else StoreSpec(d, path, total, chunks, w)
  }

  /** The end of a confirmed download once the body can be written to `path`: stream it, then analyse. */
  function StoreSpec(d: UserData, path: string, total: int, chunks: seq<Chunk>, w: World): Step {
    if path !in w.pdfs then Step(Ended, d, DownloadFailed(Marks(total, chunks)), None)
    else
      var n := |w.pdfs[path].pages|;
      Step(GetPageRange, d.(numPages := Some(n), pdfPath := Some(path)), Downloaded(Marks(total, chunks), n), None)
  }

  /** `button_handler`, branch by branch. */
  function ButtonSpec(data: string, d: UserData, w: World): (r: Step)
    ensures r.data.pendingRange == d.pendingRange && r.issued.None?
  {
    if data == "upload" then Step(UploadPdf, d, Prompt, None)
    else if data == "url" then Step(GetUrl, d, Prompt, None)
    else if data == "local" then Step(ListState(w.listing), d, Menu(LocalPdfMenu(w.listing)), None)
    else if data == "back_to_start" then Step(UploadPdf, d, Menu(StartButtons), None)
    else if StartsWith(data, SelectPrefix) then
      assert data[10] == ':';
      SelectSpec(AfterFirstColon(data).value, d, w)
    else if data == "confirm_download" then DownloadSpec(d, w)
    else if data == "cancel_download" then Step(Ended, d, Prompt, None)
    else Step(UploadPdf, d, NoReply, None)
  }

  /** The name an upload is stored under, before sanitising. */
  function UploadName(doc: Document): string {
    if doc.fileName.Some? && doc.fileName.value != [] then doc.fileName.value
    else "telegram_" + IntToString(doc.senderId) + ".pdf"
  }

  /** `handle_pdf`; `state` is kept when the handler raises. */
  function UploadSpec(state: State, doc: Document, d: UserData, w: World): (r: Step)
    ensures r.data.pendingRange == d.pendingRange && r.issued.None?
  {
    match doc.fileSize
    case None => Step(state, d, Crashed, None)
    case Some(size) =>
      if UploadTooLarge(size) then Step(UploadPdf, d, UploadRefused, None)
      else
        var safe := Basename(UploadName(doc));
        var path := Join(StorageDir, safe);
        if !w.transferOk || !EntryName(safe) then Step(UploadPdf, d, UploadFailed, None)
        else
          var d1 := d.(pdfPath := Some(path));
          if path in w.pdfs then
            var n := |w.pdfs[path].pages|;
            Step(GetPageRange, d1.(numPages := Some(n)), Analysed(n), None)
          else Step(UploadPdf, d1, UploadFailed, None)
  }

  /** The checks of `handle_url`, in the order the handler makes them. */
  function ProbeUrl(text: string, head: Head): (r: UrlOutcome)
    ensures r.NotHttp? <==> !(StartsWith(Strip(text), "http://") || StartsWith(Strip(text), "https://"))
    ensures r.Confirm? ==> head.HeadOk? && head.status == 200 && r.name == FilenameFromUrl(Strip(text), head.disposition)
  {
    var url := Strip(text);
    if !(StartsWith(url, "http://") || StartsWith(url, "https://")) then NotHttp
    else match head
      case HeadFailed => HeadError
      case HeadOk(status, contentType, contentLength, disposition) =>
        var ctype := Lower(contentType.GetOr(""));
        if status != 200 then BadStatus(status)
        else if ctype != [] && !Contains(ctype, "pdf") && !EndsWith(Lower(UrlPath(url)), ".pdf") then NotPdf
        else if contentLength.Some? && contentLength.value != [] then
          match ParseInt(contentLength.value)
          case None => BadLength
          case Some(n) =>
            if DownloadTooLarge(n) then TooLarge(n / MiB)
            else Confirm(FilenameFromUrl(url, disposition), SizeLabel(n))
        else Confirm(FilenameFromUrl(url, disposition), "Unknown size")
  }

  /** `handle_url`: the URL is stored as soon as it passes the scheme check. */
  function UrlSpec(state: State, text: string, d: UserData, w: World): (r: Step)
    ensures r.data.pendingRange == d.pendingRange && r.issued.None?
  {
    var outcome := ProbeUrl(text, w.head);
    var d1 := if outcome.NotHttp? then d else d.(downloadUrl := Some(Strip(text)));
    match outcome
    case BadLength => Step(state, d1, Crashed, None)
    case Confirm(name, _) => Step(ConfirmDownload, d1.(fileName := Some(name)), UrlReply(outcome), None)
    case _ => Step(GetUrl, d1, UrlReply(outcome), None)
  }

  /** The buttons offered after a successful extraction. */
  function NextButtons(inputPath: string): seq<string> {
    ["back_to_start", SelectPrefix + Basename(inputPath), "cancel_download"]
  }

  /** The link under which an oversized output is served. */
  function DownloadLink(publicUrl: string, token: string): string {
    publicUrl + "/download/" + token
  }

  /** A link that points at this machine is not reachable by the user, so it is withheld. */
  predicate LocalLink(link: string) {
    Contains(link, "localhost") || Contains(link, "127.0.0.1")
  }

  /** The reply for an output served by link. */
  function LinkOutcome(link: string, name: string, progress: seq<int>, next: seq<string>): (r: RangeOutcome)
    ensures r.NotPublic? || r.SentLink?
    ensures r.NotPublic? <==> LocalLink(link)
    ensures r.SentLink? ==> r.url == link && r.name == name
    ensures r.progress == progress
  {
    if LocalLink(link) then NotPublic(progress) else SentLink(name, link, progress, next)
  }

  /** `process_page_range` once the range is known: read, copy, deliver. */
  function DeliverSpec(state: State, d: UserData, start: int, end: int, w: World): (r: Step)
    ensures r.data == d
    ensures r.state == state || r.state == UploadPdf || r.state == GetPageRange
  {
    if d.pdfPath.None? then Step(state, d, Crashed, None)
    else
      var input := d.pdfPath.value;
      if input !in w.pdfs then Step(UploadPdf, d, RangeReply(ReadFailed), None)
      else
        var pdf := w.pdfs[input];
        match ExtractSpec(pdf.pages, pdf.broken, start, end)
        case CopyFailed(page, progress) => Step(GetPageRange, d, RangeReply(PageFailed(page, progress)), None)
        case Extracted(written, progress) =>
          var name := OutputName(input, start, end);
          if SendInline(w.outputSize) then
            Step(UploadPdf, d, RangeReply(SentInline(name, written, progress, NextButtons(input))), None)
          else LinkSpec(d, input, name, progress, w)
  }

  /**
   * An output over 50 MiB: a copy in `web_serve` is registered under the
   * token for a day, and the link to it is offered.
   */
  function LinkSpec(d: UserData, input: string, name: string, progress: seq<int>, w: World): (r: Step)
    ensures r.data == d && r.state == UploadPdf
    ensures r.issued == Some((w.token, TokenEntry(Join(WebServeDir, w.copyId + "_" + name), name, None, w.now + FileExpirationTime)))
  {
    var entry := TokenEntry(Join(WebServeDir, w.copyId + "_" + name), name, None, w.now + FileExpirationTime);
    var outcome := LinkOutcome(DownloadLink(w.publicUrl, w.token), name, progress, NextButtons(input));
    Step(UploadPdf, d, RangeReply(outcome), Some((w.token, entry)))
  }

  /** `process_page_range`. */
  function RangeSpec(state: State, text: string, d: UserData, w: World): (r: Step)
    ensures r.data == d || r.data == d.(pendingRange := None)
    ensures r.state == state || r.state == UploadPdf || r.state == GetPageRange
  {
    DecisionSpec(state, DecideRange(text, d.pendingRange, d.numPages), AfterConfirmation(text, d), w)
  }

  /** The record once a "yes" has consumed the pending range, if there was one. */
  function AfterConfirmation(text: string, d: UserData): (r: UserData)
    ensures r == d || r == d.(pendingRange := None)
    ensures r.pendingRange.Some? ==> r == d
  {
    if IsConfirmation(Strip(text)) && d.pendingRange.Some? then d.(pendingRange := None) else d
  }

  /** What `process_page_range` does with its decision: the two refusals stay, a range goes on. */
  function DecisionSpec(state: State, decision: Decision, d: UserData, w: World): (r: Step)
    ensures r.data == d
    ensures r.state == state || r.state == UploadPdf || r.state == GetPageRange
    ensures !decision.Proceed? ==> r.state == GetPageRange && r.issued.None?
  {
    match decision
    case FormatError => Step(GetPageRange, d, RangeReply(BadFormat), None)
    case OutOfRange(n) => Step(GetPageRange, d, RangeReply(BadRange(n)), None)
    case Proceed(start, end) => DeliverSpec(state, d, start, end, w)
  }


  /** One update of the conversation. */
  function Transition(state: State, d: UserData, event: Event, w: World): (r: Step)
    ensures r.data.pendingRange == d.pendingRange || r.data.pendingRange.None?
  {
    match Route(state, event)
    case NoHandler => Step(state, d, Unhandled, None)
    case OnStart => Step(UploadPdf, d, Menu(StartButtons), None)
    case OnCancel => Step(Ended, d, Prompt, None)
    case OnButton => ButtonSpec(event.data, d, w)
    case OnPdf => UploadSpec(state, event.doc, d, w)
    case OnUrl => UrlSpec(state, event.text, d, w)
    case OnRange => RangeSpec(state, event.text, d, w)
  }

  // ------------------------------------------------------------------ lemmas

  /** `/start` restarts from every state and keeps the record. */
  lemma StartAlwaysRestarts(state: State, d: UserData, w: World)
    ensures Transition(state, d, StartCommand, w) == Step(UploadPdf, d, Menu(StartButtons), None)
  {
  }

  /** `/cancel` ends every conversation; outside one it is not handled. */
  lemma CancelEndsConversation(state: State, d: UserData, w: World)
    ensures var s := Transition(state, d, CancelCommand, w);
      s.state == Ended && s.data == d && s.issued.None?
      && (s.reply == Unhandled <==> state == Ended)
  {
  }

  /** Button presses are handled exactly in the three menu states. */
  lemma CallbacksOnlyInMenuStates(state: State, data: string)
    ensures Route(state, Callback(data)) == OnButton <==> state in {UploadPdf, ConfirmDownload, SelectLocalPdf}
    ensures Route(state, Callback(data)) in {OnButton, NoHandler}
  {
  }

  /** Text is handled exactly while a URL or a page range is awaited. */
  lemma TextOnlyWhenAwaited(state: State, text: string)
    ensures Route(state, TextMessage(text)) == (if state == GetUrl then OnUrl else if state == GetPageRange then OnRange else NoHandler)
  {
  }

  /** An update no handler takes changes nothing. */
  lemma UnhandledChangesNothing(state: State, d: UserData, event: Event, w: World)
    requires Route(state, event) == NoHandler
    ensures Transition(state, d, event, w) == Step(state, d, Unhandled, None)
  {
  }

  /** A button never reaches the page-range state without a path and a page count. */
  lemma ButtonKeepsConsistent(data: string, d: UserData, w: World)
    ensures var s := ButtonSpec(data, d, w); Consistent(s.state, s.data)
  {
    if StartsWith(data, SelectPrefix) {
      assert data[10] == ':';
      var s := SelectSpec(AfterFirstColon(data).value, d, w);
      assert Consistent(s.state, s.data);
    } else if data == "confirm_download" {
      var s := DownloadSpec(d, w);
      assert Consistent(s.state, s.data);
    }
  }

  /** An upload reaches the page-range state only with both keys written. */
  lemma UploadKeepsConsistent(state: State, doc: Document, d: UserData, w: World)
    requires Consistent(state, d)
    ensures var s := UploadSpec(state, doc, d, w); Consistent(s.state, s.data)
  {
  }

  /** `handle_url` never enters the page-range state. */
  lemma UrlKeepsConsistent(state: State, text: string, d: UserData, w: World)
    requires Consistent(state, d)
    ensures var s := UrlSpec(state, text, d, w); Consistent(s.state, s.data)
  {
  }

  /** `process_page_range` keeps both keys it was entered with. */
  lemma RangeKeepsConsistent(text: string, d: UserData, w: World)
    requires Consistent(GetPageRange, d)
    ensures var s := RangeSpec(GetPageRange, text, d, w); Consistent(s.state, s.data)
  {
  }

  /** Every handler leaves the record consistent with the state it returns. */
  lemma TransitionKeepsConsistent(state: State, d: UserData, event: Event, w: World)
    requires Consistent(state, d)
    ensures var s := Transition(state, d, event, w); Consistent(s.state, s.data)
  {
    match Route(state, event)
    case OnButton => ButtonKeepsConsistent(event.data, d, w);
    case OnPdf => UploadKeepsConsistent(state, event.doc, d, w);
    case OnUrl => UrlKeepsConsistent(state, event.text, d, w);
    case OnRange => RangeKeepsConsistent(event.text, d, w);
    case _ =>
  }

  /** The key `pending_range` is never written, so from a record without it the "yes" confirmation can never apply. */
  lemma PendingRangeNeverSet(state: State, d: UserData, event: Event, w: World)
    requires d.pendingRange.None?
    ensures Transition(state, d, event, w).data.pendingRange.None?
  {
  }

  /** The fixed buttons of `button_handler` and the fall-through for unknown data. */
  lemma ButtonTable(d: UserData, w: World, data: string)
    ensures ButtonSpec("upload", d, w) == Step(UploadPdf, d, Prompt, None)
    ensures ButtonSpec("url", d, w) == Step(GetUrl, d, Prompt, None)
    ensures ButtonSpec("back_to_start", d, w) == Step(UploadPdf, d, Menu(StartButtons), None)
    ensures ButtonSpec("cancel_download", d, w) == Step(Ended, d, Prompt, None)
    ensures ButtonSpec("local", d, w).state == (if w.listing == [] then UploadPdf else SelectLocalPdf)
    ensures (data !in {"upload", "url", "local", "back_to_start", "confirm_download", "cancel_download"}
             && !StartsWith(data, SelectPrefix)) ==> ButtonSpec(data, d, w) == Step(UploadPdf, d, NoReply, None)
  {
    assert !StartsWith("cancel_download", SelectPrefix) by { assert "cancel_download"[0] != SelectPrefix[0]; }
  }

  /** A `select_pdf:` button selects exactly the name it carries, `:` included. */
  lemma SelectButtonCarriesName(name: string, d: UserData, w: World)
    ensures ButtonSpec(SelectPrefix + name, d, w) == SelectSpec(name, d, w)
  {
    var data := SelectPrefix + name;
    assert data[..|SelectPrefix|] == SelectPrefix;
    assert data[0] == 's';
    assert data != "confirm_download" && data != "cancel_download" by {
      assert |data| >= 11;
      if |data| == 16 { assert data[1] == 'e' != "confirm_download"[1]; }
      if |data| == 15 { assert data[1] == 'e' != "cancel_download"[1]; }
    }
    SelectRoundTrip(name);
  }

  /**
   * Selecting a stored file: a vanished file changes nothing but the state;
   * a readable one sets both path and page count; an unreadable one sets the
   * path, keeps the old page count and shows the listing again.
   */
  lemma SelectOutcomes(name: string, d: UserData, w: World)
    ensures var s := SelectSpec(name, d, w);
      var path := Join(StorageDir, name);
      && (path !in w.existing ==> s.state == UploadPdf && s.data == d)
      && (path in w.existing && path in w.pdfs ==>
            s.state == GetPageRange && s.data == d.(pdfPath := Some(path), numPages := Some(|w.pdfs[path].pages|)))
      && (path in w.existing && path !in w.pdfs ==>
            s.state == ListState(w.listing) && s.data == d.(pdfPath := Some(path)))
  {
  }

  /**
   * The "Use same PDF" button offered after an extraction from
   * `stored_pdfs/<name>` selects that same path again.
   */
  lemma UseSamePdf(name: string, d: UserData, w: World)
    requires '/' !in name && StoredPath(name) in w.existing
    ensures ButtonSpec(NextButtons(StoredPath(name))[1], d, w).data.pdfPath == Some(StoredPath(name))
  {
    BasenameOfJoin(StorageDir, name);
    assert NextButtons(StoredPath(name))[1] == SelectPrefix + name;
    SelectButtonCarriesName(name, d, w);
  }

  /** `confirm_download` without a stored URL ends the conversation and changes nothing else. */
  lemma ConfirmWithoutUrl(d: UserData, w: World)
    requires d.downloadUrl.None? || d.downloadUrl.value == []
    ensures ButtonSpec("confirm_download", d, w) == Step(Ended, d, Prompt, None)
  {
    assert !StartsWith("confirm_download", SelectPrefix) by { assert "confirm_download"[0] != SelectPrefix[0]; }
  }

  /**
   * A confirmed download reaches the page-range state exactly when a URL is
   * stored, the GET succeeds with a readable `content-length`, the basename
   * of the file name is a usable entry name and the stored file reads as a
   * PDF; it then records `stored_pdfs/<basename>` and its page count and
   * reports the progress marks. Every other case ends the conversation with
   * the record unchanged.
   */
  lemma DownloadOutcomes(d: UserData, w: World)
    ensures var s := DownloadSpec(d, w);
      var name := Basename(d.fileName.GetOr("downloaded.pdf"));
      var path := StorageDir + "/" + name;
      var ok := && d.downloadUrl.Some? && d.downloadUrl.value != []
                && w.fetch.Fetched? && ContentLength(w.fetch.contentLength).Some?
                && EntryName(name) && path in w.pdfs;
      && (s.state == GetPageRange <==> ok)
      && (ok ==> '/' !in name
                 && s.data == d.(pdfPath := Some(path), numPages := Some(|w.pdfs[path].pages|))
                 && s.reply == Downloaded(Marks(ContentLength(w.fetch.contentLength).value, w.fetch.chunks), |w.pdfs[path].pages|))
      && (!ok ==> s.state == Ended && s.data == d && !s.reply.Downloaded?)
  {
    var name := Basename(d.fileName.GetOr("downloaded.pdf"));
    JoinPlain(StorageDir, name);
  }

  /** Without a `content-length` header, a download sends no progress update. */
  lemma DownloadWithoutLengthIsSilent(d: UserData, w: World)
    requires w.fetch.Fetched? && w.fetch.contentLength.None?
    ensures DownloadSpec(d, w).reply.Downloaded? ==> DownloadSpec(d, w).reply.progress == []
  {
    NoLengthNoUpdates(0, w.fetch.chunks);
  }

  /** An upload over 50 MiB is refused before anything is transferred; one at most that size is not refused. */
  lemma UploadGate(state: State, doc: Document, d: UserData, w: World, size: int)
    requires doc.fileSize == Some(size)
    ensures UploadTooLarge(size) ==> UploadSpec(state, doc, d, w) == Step(UploadPdf, d, UploadRefused, None)
    ensures !UploadTooLarge(size) ==> UploadSpec(state, doc, d, w).reply != UploadRefused
  {
  }

  /**
   * An upload is stored directly inside `stored_pdfs` under the basename of
   * its name, whatever directories the client put in that name; a basename
   * that is empty, "." or ".." names no file there, so nothing is recorded.
   */
  lemma UploadStaysInStorage(state: State, doc: Document, d: UserData, w: World)
    ensures var s := UploadSpec(state, doc, d, w);
      var safe := Basename(UploadName(doc));
      s.data.pdfPath != d.pdfPath ==>
        s.data.pdfPath == Some(StorageDir + "/" + safe) && EntryName(safe) && '/' !in safe
  {
    var safe := Basename(UploadName(doc));
    JoinPlain(StorageDir, safe);
  }

  /**
   * `handle_url` moves on to the confirmation exactly when the URL is http
   * or https, the HEAD status is 200, the content type is absent, mentions
   * "pdf" or the path ends in ".pdf", and any Content-Length reads as an
   * integer of at most 2 GiB.
   */
  lemma UrlAcceptedIff(text: string, head: Head)
    ensures var url := Strip(text);
      ProbeUrl(text, head).Confirm? <==>
        && (StartsWith(url, "http://") || StartsWith(url, "https://"))
        && head.HeadOk? && head.status == 200
        && (var ctype := Lower(head.contentType.GetOr(""));
            ctype == [] || Contains(ctype, "pdf") || EndsWith(Lower(UrlPath(url)), ".pdf"))
        && (head.contentLength.None? || head.contentLength.value == []
            || (ParseInt(head.contentLength.value).Some? && ParseInt(head.contentLength.value).value <= MaxDownloadSize))
  {
  }

  /** The size shown is "Unknown size" exactly when no Content-Length is given, else its whole mebibytes. */
  lemma UrlSizeInfo(text: string, head: Head)
    requires ProbeUrl(text, head).Confirm?
    ensures var info := ProbeUrl(text, head).sizeInfo;
      if head.contentLength.None? || head.contentLength.value == [] then info == "Unknown size"
      else info == SizeLabel(ParseInt(head.contentLength.value).value)
  {
  }

  /**
   * Once the URL passes the scheme check it is stored, even when a later
   * check refuses it; `file_name` is written only on acceptance.
   */
  lemma UrlStoredOnceHttp(state: State, text: string, d: UserData, w: World)
    ensures var s := UrlSpec(state, text, d, w);
      var url := Strip(text);
      && (!(StartsWith(url, "http://") || StartsWith(url, "https://")) ==> s.state == GetUrl && s.data == d)
      && ((StartsWith(url, "http://") || StartsWith(url, "https://")) ==> s.data.downloadUrl == Some(url))
      && (s.data.fileName != d.fileName ==> s.state == ConfirmDownload)
  {
  }

  /**
   * A format error (outside the confirmation case) keeps the state and the
   * record as they are.
   */
  lemma FormatErrorChangesNothing(state: State, text: string, d: UserData, w: World)
    requires !(IsConfirmation(Strip(text)) && d.pendingRange.Some?)
    requires ParseRange(Strip(text)).None?
    ensures RangeSpec(state, text, d, w) == Step(GetPageRange, d, RangeReply(BadFormat), None)
  {
  }

  /** A parsed range outside `1..num_pages` (0 when unknown) is refused with the record unchanged. */
  lemma RangeRefused(state: State, text: string, d: UserData, w: World, start: int, end: int)
    requires !(IsConfirmation(Strip(text)) && d.pendingRange.Some?)
    requires ParseRange(Strip(text)) == Some((start, end))
    requires !(1 <= start <= end <= d.numPages.GetOr(0))
    ensures RangeSpec(state, text, d, w) == Step(GetPageRange, d, RangeReply(BadRange(d.numPages.GetOr(0))), None)
  {
    DecideParsed(text, d.pendingRange, d.numPages, start, end);
    assert AfterConfirmation(text, d) == d;
  }

  /** A parsed range inside `1..num_pages` goes on to the extraction, with the record unchanged. */
  lemma RangeAccepted(state: State, text: string, d: UserData, w: World, start: int, end: int)
    requires !(IsConfirmation(Strip(text)) && d.pendingRange.Some?)
    requires ParseRange(Strip(text)) == Some((start, end))
    requires 1 <= start <= end <= d.numPages.GetOr(0)
    ensures RangeSpec(state, text, d, w) == DeliverSpec(state, d, start, end, w)
  {
    DecideParsed(text, d.pendingRange, d.numPages, start, end);
    assert AfterConfirmation(text, d) == d;
  }


  /** "yes" with a pending range consumes it and extracts that range without checking it again. */
  lemma PendingRangeConsumed(state: State, text: string, d: UserData, w: World, start: int, end: int)
    requires IsConfirmation(Strip(text)) && d.pendingRange == Some((start, end))
    ensures RangeSpec(state, text, d, w) == DeliverSpec(state, d.(pendingRange := None), start, end, w)
  {
    ConfirmationUsesPending(text, start, end, d.numPages);
  }

  /**
   * For a range inside the input PDF with no broken page and an output of
   * at most 50 MiB, the user receives exactly pages `start..end` as an
   * attachment, no token is issued, and the session returns to the state of
   * the start menu.
   */
  lemma InlineDelivery(state: State, d: UserData, start: int, end: int, w: World)
    requires d.pdfPath.Some? && d.pdfPath.value in w.pdfs && SendInline(w.outputSize)
    requires var pdf := w.pdfs[d.pdfPath.value];
      1 <= start <= end <= |pdf.pages| && forall k :: start - 1 <= k < end ==> k !in pdf.broken
    ensures var s := DeliverSpec(state, d, start, end, w);
      && s.state == UploadPdf && s.data == d && s.issued.None?
      && s.reply.RangeReply? && s.reply.result.SentInline?
      && s.reply.result.written == w.pdfs[d.pdfPath.value].pages[start - 1..end]
      && s.reply.result.name == OutputName(d.pdfPath.value, start, end)
  {
    var pdf := w.pdfs[d.pdfPath.value];
    ExtractValidRange(pdf.pages, pdf.broken, start, end);
  }

  /**
   * A page that cannot be copied stops the request in the page-range state:
   * the first failing index `p` of the range is reported as page `p + 1`,
   * nothing is delivered, no token is issued and the record is unchanged.
   */
  lemma CopyFailureStays(state: State, d: UserData, start: int, end: int, w: World)
    requires d.pdfPath.Some? && d.pdfPath.value in w.pdfs
    requires var pdf := w.pdfs[d.pdfPath.value]; ExtractSpec(pdf.pages, pdf.broken, start, end).CopyFailed?
    ensures var pdf := w.pdfs[d.pdfPath.value];
      var s := DeliverSpec(state, d, start, end, w);
      && s.state == GetPageRange && s.data == d && s.issued.None?
      && s.reply.RangeReply? && s.reply.result.PageFailed?
      && start <= s.reply.result.page <= end
      && CopyFails(pdf.pages, pdf.broken, s.reply.result.page - 1)
      && forall k :: start - 1 <= k < s.reply.result.page - 1 ==> !CopyFails(pdf.pages, pdf.broken, k)
  {
  }

  /**
   * With an output over 50 MiB the pages are served by link instead: a token
   * for a copy directly inside `web_serve`, delivered under the output name,
   * expiring a day after `now`; the link is sent unless it points at this
   * machine.
   */
  lemma LinkDelivery(state: State, d: UserData, start: int, end: int, w: World)
    requires d.pdfPath.Some? && d.pdfPath.value in w.pdfs && !SendInline(w.outputSize) && '/' !in w.copyId
    requires var pdf := w.pdfs[d.pdfPath.value];
      1 <= start <= end <= |pdf.pages| && forall k :: start - 1 <= k < end ==> k !in pdf.broken
    ensures var s := DeliverSpec(state, d, start, end, w);
      var name := OutputName(d.pdfPath.value, start, end);
      && s.state == UploadPdf && s.data == d
      && s.issued == Some((w.token, TokenEntry(WebServeDir + "/" + w.copyId + "_" + name, name, None, w.now + FileExpirationTime)))
      && s.reply.RangeReply?
      && (s.reply.result.NotPublic? <==> LocalLink(DownloadLink(w.publicUrl, w.token)))
      && (s.reply.result.SentLink? ==> s.reply.result.url == DownloadLink(w.publicUrl, w.token))
  {
    var input := d.pdfPath.value;
    var pdf := w.pdfs[input];
    AllPagesCopied(pdf, start, end);
    DeliverByLink(state, d, start, end, w);
    OutputNameShape(input, start, end);
    LinkIssued(d, input, OutputName(input, start, end), ExtractSpec(pdf.pages, pdf.broken, start, end).checkpoints, w);
  }

  /** The token entry and the reply of the link branch, for a copy id and a name without `/`. */
  lemma LinkIssued(d: UserData, input: string, name: string, progress: seq<int>, w: World)
    requires '/' !in w.copyId && '/' !in name
    ensures var s := LinkSpec(d, input, name, progress, w);
      && s.issued == Some((w.token, TokenEntry(WebServeDir + "/" + w.copyId + "_" + name, name, None, w.now + FileExpirationTime)))
      && s.reply.RangeReply?
      && (s.reply.result.NotPublic? <==> LocalLink(DownloadLink(w.publicUrl, w.token)))
      && (s.reply.result.SentLink? ==> s.reply.result.url == DownloadLink(w.publicUrl, w.token))
  {
    CopyPath(w.copyId, name);
  }

  /** A range inside the document with no broken page is copied in full. */
  lemma AllPagesCopied(pdf: PdfFile, start: int, end: int)
    requires 1 <= start <= end <= |pdf.pages| && forall k :: start - 1 <= k < end ==> k !in pdf.broken
    ensures ExtractSpec(pdf.pages, pdf.broken, start, end).Extracted?
  {
    ExtractValidRange(pdf.pages, pdf.broken, start, end);
  }

  /** Once every page is copied, an output over 50 MiB goes by link. */
  lemma DeliverByLink(state: State, d: UserData, start: int, end: int, w: World)
    requires d.pdfPath.Some? && d.pdfPath.value in w.pdfs && !SendInline(w.outputSize)
    requires var pdf := w.pdfs[d.pdfPath.value]; ExtractSpec(pdf.pages, pdf.broken, start, end).Extracted?
    ensures var input := d.pdfPath.value;
      var pdf := w.pdfs[input];
      DeliverSpec(state, d, start, end, w) ==
        LinkSpec(d, input, OutputName(input, start, end), ExtractSpec(pdf.pages, pdf.broken, start, end).checkpoints, w)
  {
  }

  /** The copy served by link lies directly inside `web_serve`. */
  lemma CopyPath(copyId: string, name: string)
    requires '/' !in copyId && '/' !in name
    ensures Join(WebServeDir, copyId + "_" + name) == WebServeDir + "/" + copyId + "_" + name
  {
    JoinPlain(WebServeDir, copyId + "_" + name);
    assert WebServeDir + "/" + (copyId + "_" + name) == WebServeDir + "/" + copyId + "_" + name;
  }
}
