/**
 * The per-user session as the bot keeps it: the conversation state and the
 * `context.user_data` keys as fields that each handler updates in place.
 */
module Bot {
  import opened Wrappers
  import opened Text
  import opened Paths
  import opened Limits
  import opened Filenames
  import opened PageRange
  import opened Extraction
  import opened Download
  import opened Tokens
  import opened Storage
  import opened Conversation

  /** The token table after a step that may have issued one token. */
  function Issue(tokens: map<string, TokenEntry>, issued: Option<(string, TokenEntry)>): (r: map<string, TokenEntry>)
    ensures issued.None? ==> r == tokens
    ensures issued.Some? ==> issued.value.0 in r && r[issued.value.0] == issued.value.1
    ensures forall t :: t in tokens && (issued.None? || t != issued.value.0) ==> t in r && r[t] == tokens[t]
  {
    if issued.None? then tokens else tokens[issued.value.0 := issued.value.1]
  }

  class Session {
    var state: State
    var pdfPath: Option<string>
    var numPages: Option<nat>
    var downloadUrl: Option<string>
    var fileName: Option<string>
    var pendingRange: Option<(int, int)>

    /** The record as a value. */
    function Data(): UserData
      reads this
    {
      UserData(pdfPath, numPages, downloadUrl, fileName, pendingRange)
    }

    predicate Valid()
      reads this
    {
      Consistent(state, Data())
    }

    /** A user the bot has not met: no conversation, empty record. */
    constructor ()
      ensures state == Ended && Data() == UserData(None, None, None, None, None) && Valid()
    {
      state := Ended;
      pdfPath, numPages, downloadUrl, fileName, pendingRange := None, None, None, None, None;
    }

    /** `start`: the welcome menu, from any state. */
    method Start() returns (reply: Reply)
      modifies this`state
      ensures state == UploadPdf && reply == Menu(StartButtons)
    {
      state := UploadPdf;
      reply := Menu(StartButtons);
    }

    /** `cancel`. */
    method Cancel() returns (reply: Reply)
      modifies this`state
      ensures state == Ended && reply == Prompt
    {
      state := Ended;
      reply := Prompt;
    }

    /** `list_local_pdfs`: the menu of stored files, or of the other sources when none is stored. */
    method ListLocalPdfs(listing: seq<string>) returns (buttons: seq<string>)
      modifies this`state
      ensures state == ListState(listing) && buttons == LocalPdfMenu(listing)
    {
      buttons := LocalPdfMenu(listing);
      if listing == [] {
        state := UploadPdf;
      } else {
        state := SelectLocalPdf;
      }
    }

    /** The `select_pdf:` branch of `button_handler`. */
    method SelectStored(name: string, w: World) returns (reply: Reply)
      modifies this
      ensures var s := SelectSpec(name, old(Data()), w);
        state == s.state && Data() == s.data && reply == s.reply
    {
      var path := Join(StorageDir, name);
      if path !in w.existing {
        state := UploadPdf;
        return FileGone;
      }
      pdfPath := Some(path);
      if path in w.pdfs {
        var n := |w.pdfs[path].pages|;
        numPages := Some(n);
        state := GetPageRange;
        reply := Analysed(n);
      } else {
        var menu := ListLocalPdfs(w.listing);
        reply := AnalysisFailed(menu);
      }
    }

    /** The `confirm_download` branch of `button_handler`: fetch, count, analyse. */
    method DownloadConfirmed(w: World) returns (reply: Reply)
      modifies this
      ensures var s := DownloadSpec(old(Data()), w);
        state == s.state && Data() == s.data && reply == s.reply
    {
      if downloadUrl.None? || downloadUrl.value == [] {
        state := Ended;
        return Prompt;
      }
      var safe := Basename(fileName.GetOr("downloaded.pdf"));
      var path := Join(StorageDir, safe);
      state := Ended;
      reply := DownloadFailed([]);
      if w.fetch.FetchFailed? {
        return;
      }
      var total := ContentLength(w.fetch.contentLength);
      if total.None? || !EntryName(safe) {
        return;
      }
      reply := Store(path, total.value, w.fetch.chunks, w);
    }

    /** Stream the body to `path`, then count the pages of what was written. */
    method Store(path: string, total: int, chunks: seq<Chunk>, w: World) returns (reply: Reply)
      modifies this
      ensures var s := StoreSpec(old(Data()), path, total, chunks, w);
        state == s.state && Data() == s.data && reply == s.reply
    {
      var downloaded, last, updates := Stream(total, chunks);
      state := Ended;
      if path !in w.pdfs {
        return DownloadFailed(updates);
      }
      var n := |w.pdfs[path].pages|;
      numPages := Some(n);
      pdfPath := Some(path);
      state := GetPageRange;
      reply := Downloaded(updates, n);
    }

    /** `button_handler`. */
    method ButtonHandler(data: string, w: World) returns (reply: Reply)
      modifies this
      ensures var s := ButtonSpec(data, old(Data()), w);
        state == s.state && Data() == s.data && reply == s.reply
    {
      if data == "upload" {
        state := UploadPdf;
        reply := Prompt;
      } else if data == "url" {
        state := GetUrl;
        reply := Prompt;
      } else if data == "local" {
        var menu := ListLocalPdfs(w.listing);
        reply := Menu(menu);
      } else if data == "back_to_start" {
        reply := Start();
      } else if StartsWith(data, SelectPrefix) {
        assert data[10] == ':';
        reply := SelectStored(AfterFirstColon(data).value, w);
      } else if data == "confirm_download" {
        reply := DownloadConfirmed(w);
      } else if data == "cancel_download" {
        state := Ended;
        reply := Prompt;
      } else {
        state := UploadPdf;
        reply := NoReply;
      }
    }

    /** `handle_pdf`. */
    method HandlePdf(doc: Document, w: World) returns (reply: Reply)
      modifies this
      ensures var s := UploadSpec(old(state), doc, old(Data()), w);
        state == s.state && Data() == s.data && reply == s.reply
    {
      if doc.fileSize.None? {
        return Crashed;
      }
      state := UploadPdf;
      if UploadTooLarge(doc.fileSize.value) {
        return UploadRefused;
      }
      var safe := Basename(UploadName(doc));
      var path := Join(StorageDir, safe);
      if !w.transferOk || !EntryName(safe) {
        return UploadFailed;
      }
      pdfPath := Some(path);
      if path !in w.pdfs {
        return UploadFailed;
      }
      var n := |w.pdfs[path].pages|;
      numPages := Some(n);
      state := GetPageRange;
      reply := Analysed(n);
    }

    /** `handle_url`. */
    method HandleUrl(text: string, w: World) returns (reply: Reply)
      modifies this
      ensures var s := UrlSpec(old(state), text, old(Data()), w);
        state == s.state && Data() == s.data && reply == s.reply
    {
      var outcome := ProbeUrl(text, w.head);
      if outcome.NotHttp? {
        state := GetUrl;
        return UrlReply(outcome);
      }
      downloadUrl := Some(Strip(text));
      if outcome.BadLength? {
        return Crashed;
      }
      if outcome.Confirm? {
        fileName := Some(outcome.name);
        state := ConfirmDownload;
      } else {
        state := GetUrl;
      }
      reply := UrlReply(outcome);
    }

    /** `process_page_range`; an oversized output gets a token in `tokens`. */
    method ProcessPageRange(text: string, w: World, tokens: TokenTable) returns (reply: Reply)
      modifies this, tokens
      ensures var s := RangeSpec(old(state), text, old(Data()), w);
        && state == s.state && Data() == s.data && reply == s.reply
        && tokens.tokens == Issue(old(tokens.tokens), s.issued)
    {
      var decision := DecideRange(text, pendingRange, numPages);
      if IsConfirmation(Strip(text)) && pendingRange.Some? {
        pendingRange := None;
      }
      assert Data() == AfterConfirmation(text, old(Data()));
      reply := Decide(decision, w, tokens);
    }

    /** Act on the decision: refuse with the reason, or extract and deliver the range. */
    method Decide(decision: Decision, w: World, tokens: TokenTable) returns (reply: Reply)
      modifies this`state, tokens
      ensures Data() == old(Data())
      ensures var s := DecisionSpec(old(state), decision, Data(), w);
        && state == s.state && reply == s.reply
        && tokens.tokens == Issue(old(tokens.tokens), s.issued)
    {
      match decision {
        case FormatError =>
          state := GetPageRange;
          reply := RangeReply(BadFormat);
        case OutOfRange(n) =>
          state := GetPageRange;
          reply := RangeReply(BadRange(n));
        case Proceed(start, end) =>
          reply := Deliver(start, end, w, tokens);
      }
    }

    /** The extraction and delivery half of `process_page_range`, for a range that passed the checks. */
    method Deliver(start: int, end: int, w: World, tokens: TokenTable) returns (reply: Reply)
      modifies this`state, tokens
      ensures var s := DeliverSpec(old(state), Data(), start, end, w);
        && state == s.state && Data() == s.data && reply == s.reply
        && tokens.tokens == Issue(old(tokens.tokens), s.issued)
    {
      if pdfPath.None? {
        return Crashed;
      }
      var input := pdfPath.value;
      if input !in w.pdfs {
        state := UploadPdf;
        return RangeReply(ReadFailed);
      }
      var pdf := w.pdfs[input];
      var copied := Extract(pdf.pages, pdf.broken, start, end);
      if copied.CopyFailed? {
        state := GetPageRange;
        return RangeReply(PageFailed(copied.page, copied.checkpoints));
      }
      var name := OutputName(input, start, end);
      state := UploadPdf;
      if SendInline(w.outputSize) {
        reply := RangeReply(SentInline(name, copied.written, copied.checkpoints, NextButtons(input)));
      } else {
        reply := Offer(input, name, copied.checkpoints, w, tokens);
      }
    }

    /** The oversized-output branch: register the copy under the token and offer its link. */
    method Offer(input: string, name: string, progress: seq<int>, w: World, tokens: TokenTable) returns (reply: Reply)
      modifies this`state, tokens
      ensures var s := LinkSpec(Data(), input, name, progress, w);
        && state == s.state && reply == s.reply
        && tokens.tokens == Issue(old(tokens.tokens), s.issued)
    {
      state := UploadPdf;
      tokens.Generate(w.token, Join(WebServeDir, w.copyId + "_" + name), name, None, w.now);
      reply := RangeReply(LinkOutcome(DownloadLink(w.publicUrl, w.token), name, progress, NextButtons(input)));
    }

    /** One update, routed as the `ConversationHandler` routes it. */
    method Receive(event: Event, w: World, tokens: TokenTable) returns (reply: Reply)
      modifies this, tokens
      ensures var s := Transition(old(state), old(Data()), event, w);
        && state == s.state && Data() == s.data && reply == s.reply
        && tokens.tokens == Issue(old(tokens.tokens), s.issued)
      ensures old(Valid()) ==> Valid()
    {
      ghost var before := Data();
      ghost var from := state;
      match Route(state, event) {
        case NoHandler => reply := Unhandled;
        case OnStart => reply := Start();
        case OnCancel => reply := Cancel();
        case OnButton => reply := ButtonHandler(event.data, w);
        case OnPdf => reply := HandlePdf(event.doc, w);
        case OnUrl => reply := HandleUrl(event.text, w);
        case OnRange => reply := ProcessPageRange(event.text, w, tokens);
      }
      if Consistent(from, before) {
        TransitionKeepsConsistent(from, before, event, w);
      }
    }
  }
}
