# PDF page-range bot, modelled in Dafny

`app.py` is a Telegram bot that cuts a page range out of a PDF. A user
starts a conversation with `/start` and chooses where the PDF comes from:
an upload, a URL, or a file already in `stored_pdfs`. The bot reads the
page count and asks for a range, either `start-end` or a single page.
It copies those pages into a new document. An output of at most 50 MiB is
sent back as an attachment. A larger one is copied into `web_serve` and
offered as a link, guarded by a download token that expires after a day.
`/clear_pdfs confirm` empties the store.

This project models the decision logic of the bot. Everything the bot
learns from outside is an input: HTTP answers, what the PDF library reads,
which files exist, the clock and fresh uuids.

- **`Conversation`** has the six states (five, plus "no conversation").
  - It has the `context.user_data` record and the routing of the
    `ConversationHandler`.
  - Each handler is one transition function on values, returning the next
    state, the next record, the reply and any token issued.
  - The lemmas about the conversation are stated on these functions.
- **`Bot.Session`** is the per-user session as a class.
  - Its fields are the state and the record's keys.
  - There is one method per handler, and each updates the fields in place.
  - Each method's `ensures` ties the new fields, the reply and the token
    table to the transition function.
  - `Receive` keeps the invariant that the page-range state is entered
    only with a path and a page count.
- **The imperative loops are methods proved against specification
  functions:**
  - `Extraction.Extract` is the page-copying loop;
  - `Download.Stream` is the byte-counting loop with its progress throttle;
  - `Storage.ClearStoredPdfs` is the removal loop of `/clear_pdfs`;
  - `Tokens.TokenTable` is the `file_tokens` dictionary.
- **Pure parts are functions with lemmas:**
  - `PageRange`: parsing and checking the typed range;
  - `Filenames`: `get_filename_from_url`, the output name and the size label;
  - `Paths`: `os.path.basename`, `join` and `splitext`;
  - `Text`: `strip`, `lower`, `split`, `int`, `str`;
  - `Limits`: the size gates.

Where the code departs from what its own comments and branches suggest, the
model follows the code:
- The branch at app.py:539-541 reads the key `pending_range`, but no handler
  ever writes it. So there is no confirmation step for ranges over 100 pages,
  and "yes" is only ever a format error (`Conversation.PendingRangeNeverSet`).
- A single page number is accepted as a one-page range.
- `MAX_DOWNLOAD_SIZE` is checked against the HEAD answer only (app.py:466).
  The streaming loop does not check it.
- `/clear_pdfs` goes on past a failed removal and reports only the successes.
- The comment "Update at most 10 times" at app.py:582 does not hold: a
  19-page range sends 18 progress updates.

## Model

| member | source | states |
|---|---|---|
| Text.StripSpan | app.py:425 | the stripped text is the slice of the input left after removing white space, and only white space, from both ends |
| Text.Split | app.py:547 | `split('-')` gives one more field than there are separators, and no field holds the separator |
| Text.SplitJoin | app.py:547 | two separator-free texts joined by one separator split back into exactly those two fields |
| Text.FindLeftmost | app.py:511 | the search finds the leftmost occurrence, and finds nothing exactly when there is no occurrence |
| Text.ParseIntRoundTrip | app.py:547 | `int(str(i)) == i` for every integer, negative ones included |
| Paths.Basename | app.py:385 | the basename holds no `/`, ends the path, and is preceded there by a `/` whenever it is shorter than the path |
| Paths.Join | app.py:239 | joining an absolute name gives that name, discarding the directory |
| Paths.JoinPlain | app.py:291 | a name without `/` is joined as `dir/name` |
| Paths.BasenameOfJoin | app.py:239 | the basename of `join(dir, name)` is `name` for a name without `/` |
| Paths.StemDropsExtension | app.py:614 | for a name not starting with `.`, `splitext` drops exactly the text from the last `.` on: the stem of `s.ext` is `s` |
| Limits.GateBoundaries | app.py:362 | the upload gate, the inline-send gate (line 619) and the download gate (line 466) are inclusive: exactly 50 MiB passes both 50 MiB gates, exactly 2 GiB may be fetched, and one byte more fails |
| Filenames.DispositionFilename | app.py:509-513 | a name is captured exactly when the header contains `filename=`, and the captured name never holds `"` |
| Filenames.DispositionQuoted | app.py:509-513 | after text holding no `filename=`, `filename="n"` yields exactly `n`, whatever follows the closing quote |
| Filenames.DispositionUnquoted | app.py:509-513 | after text holding no `filename=`, an unquoted `filename=n` at the end yields exactly `n` |
| Filenames.UrlPathOf | app.py:516-517 | the path of `http(s)://host/path?query#fragment` is exactly `/path`, without host, query or fragment |
| Filenames.NameFromSegment | app.py:518-528 | an empty segment gives "document.pdf"; a segment ending in ".pdf" in any case is kept as it is, and any other gets ".pdf" appended |
| Filenames.FilenameFromHeader | app.py:509-513 | with `filename=` in a non-empty header, the name is the header's capture as written: possibly empty, not forced to end in ".pdf" |
| Filenames.FilenameFromPath | app.py:516-528 | without `filename=`, the name is "document.pdf" for an empty last path segment, the segment itself when it ends in ".pdf" in any case, and the segment plus ".pdf" otherwise |
| Filenames.RangeSuffix | app.py:614 | `_pages_{start}_to_{end}.pdf` holds no `/` and ends in ".pdf" |
| Filenames.OutputNameShape | app.py:613-614 | the output name starts with the stem of the input's basename, ends in ".pdf" and holds no `/` |
| Filenames.OutputNameOfStored | app.py:613-614 | extracting pages `start`-`end` from `stored_pdfs/s.ext` names the output `s_pages_start_to_end.pdf` |
| Filenames.SizeLabelReadsBack | app.py:474-477 | the size label ends in "MB", and its number reads back as the length in whole mebibytes, rounded down |
| Filenames.ThreeMebibyteLabel | app.py:477 | a length of 3145728 bytes is shown as "3MB" |
| PageRange.ParseRange | app.py:546-550 | a parsed pair never holds a negative number, and text without `-` gives start = end |
| PageRange.RangeRoundTrip | app.py:547 | `str(start) + "-" + str(end)` parses back to `(start, end)` |
| PageRange.SinglePageRoundTrip | app.py:550 | a bare page number parses to the one-page range |
| PageRange.HyphenAtEdgeRejected | app.py:544-556 | a `-` at either end (e.g. "-5", "5-") is a format error |
| PageRange.SeveralHyphensRejected | app.py:544-556 | two or more `-` (e.g. "1-2-3") are a format error |
| PageRange.DecideRange | app.py:539-565 | outside the confirmation case, a range proceeds only when 1 <= start <= end <= the page count; a refusal reports that page count, 0 when none is recorded |
| PageRange.ProceedIffValid | app.py:558-565 | outside the confirmation case, the range proceeds exactly when it parses and 1 <= start <= end <= the page count |
| PageRange.DecideParsed | app.py:558-565 | a parsed range proceeds when it lies in the document, and is refused with the page count otherwise |
| PageRange.NoPageCountRejectsAll | app.py:559-560 | with no page count recorded (the default is 0), no typed range proceeds |
| PageRange.ConfirmationUsesPending | app.py:539-541 | "yes" in any letter case, with a pending range, proceeds with that range as stored, without checking it |
| PageRange.ConfirmationWithoutPendingIsFormatError | app.py:539-556 | without a pending range, "yes" is parsed as a range and is a format error |
| PageRange.TwelvePagesTooFar | app.py:560-565 | on a 12-page document "5-20" is refused with the page count 12 |
| PageRange.TwelvePagesWithin | app.py:558-567 | on a 12-page document "5-12" proceeds with pages 5 to 12 |
| Extraction.PyIndex | app.py:590 | `pages[k]` is the k-th page for an index in range; it raises exactly when k is outside `-len .. len-1` |
| Extraction.ProgressInterval | app.py:582 | `max(1, total // 10)` is at least 1 |
| Extraction.FirstFailure | app.py:588-605 | the failure reported is the first index of the range whose copy fails; when none is reported, every page of the range copies |
| Extraction.Extract | app.py:581-605 | the loop's outcome, written pages and progress updates are those of the specification `ExtractSpec` |
| Extraction.ExtractValidRange | app.py:588-605 | for a range inside the document, copying succeeds exactly when no page of the range is broken; then the writer holds exactly pages start..end (end-start+1 of them), in order; otherwise the page reported is the first broken one |
| Extraction.CheckpointsMembership | app.py:593 | a progress update follows counter i exactly when 0 < i < pages copied and i is a multiple of the interval |
| Extraction.CheckpointsIncreasing | app.py:588-597 | progress updates come in strictly increasing order |
| Extraction.CheckpointsCount | app.py:582-593 | after n >= 1 pages there have been `(n - 1) // interval` updates |
| Extraction.CheckpointsAtMostEighteen | app.py:582 | a successful request sends at most 18 progress updates, not the 10 the comment promises |
| Extraction.NineteenPagesEighteenUpdates | app.py:582 | a 19-page range sends exactly 18 updates |
| Download.ContentLength | app.py:297 | an absent `content-length` counts as 0; a blank one is a `ValueError` |
| Download.Stream | app.py:297-324 | `downloaded` is the total of the chunk lengths; the updates are the byte counts of the specification `Marks`; `last_update_time` ends as the last of them |
| Download.NoLengthNoUpdates | app.py:311 | with no usable length (absent, 0 or negative), no progress update is sent |
| Download.MarksBounds | app.py:305-315 | update byte counts are positive, strictly increasing and at most the bytes received |
| Download.ThrottleGap | app.py:311-313 | while no chunk arrives after ten seconds, consecutive updates are more than 5 % of the length apart |
| Download.GapsAccumulate | app.py:311-315 | under the same condition, 20 times the last update's byte count is at least the number of updates times (length + 1) |
| Download.UpdateCountBound | app.py:309-315 | when the body is no longer than advertised and no chunk arrives after ten seconds, at most 19 updates are sent |
| Download.SlowFirstChunkFires | app.py:313 | the clock clause compares seconds with a byte count, so any first chunk after ten seconds triggers an update |
| Tokens.Serve | app.py:86-105 | a token is served exactly when it is known, not expired (`now <= expire_time`) and its file exists; then its file is served under its recorded name |
| Tokens.TokenTable.constructor | app.py:77 | the table starts empty |
| Tokens.TokenTable.Generate | app.py:107-122 | the new token maps to the file, the name and an expiry `FILE_EXPIRATION_TIME` seconds from now; every other entry is unchanged |
| Tokens.TokenTable.Expire | app.py:120 | the timer removes the token and only it |
| Tokens.TokenTable.Lookup | app.py:88-97 | a lookup succeeds only for a known token whose file exists |
| Tokens.ServedWithinLifetime | app.py:88-117 | a token created at time t is served at every `now <= t + 86400` and refused after that |
| Tokens.OtherTokensUnaffected | app.py:112-117 | creating a token does not change what any other token serves |
| Tokens.ExpiredTokenRefused | app.py:120 | once removed, a token serves nothing |
| Storage.Shown | app.py:193 | at most ten stored files get a button, taken from the front of the listing in order; all of them when there are ten or fewer |
| Storage.LocalPdfMenu | app.py:175-202 | with no stored file the menu is exactly "upload" and "url"; otherwise it holds `select_pdf:<basename>` for each shown file, in listing order, then "back_to_start" |
| Storage.AfterFirstColon | app.py:238 | a name is recovered exactly when the data holds a `:`; it is everything after the first `:` |
| Storage.SelectRoundTrip | app.py:198-238 | a `select_pdf:` button gives back exactly its name, also when the name holds `:` |
| Storage.MenuSelectsShownFile | app.py:193-239 | pressing the button of a shown `stored_pdfs/<name>` selects that same path |
| Storage.Kept | app.py:751-756 | the files kept and the successful removals add up to the listing |
| Storage.ClearStoredPdfs | app.py:733-758 | without "confirm" (any letter case) as the first argument nothing is deleted; with an empty store nothing is deleted; otherwise the count is the number of successful removals, at most the number of files |
| Storage.AllRemoved | app.py:750-756 | when every removal succeeds, every listed file is counted and none is kept |
| Storage.KeptMembership | app.py:751-756 | the files kept are exactly the listed files whose removal failed |
| Conversation.Route | app.py:816-839 | outside a conversation only `/start` is handled |
| Conversation.ProbeUrl | app.py:425-497 | the URL is refused for its scheme exactly when it starts with neither `http://` nor `https://`; an accepted URL had status 200 and is named by `get_filename_from_url` |
| Conversation.LinkOutcome | app.py:659-679 | the link is withheld exactly when it contains "localhost" or "127.0.0.1"; otherwise this link is sent |
| Conversation.StartAlwaysRestarts | app.py:816-837 | `/start` restarts from every state with the welcome menu and keeps the record |
| Conversation.CancelEndsConversation | app.py:760-765 | `/cancel` ends the conversation with the record unchanged; only outside a conversation is it unhandled |
| Conversation.CallbacksOnlyInMenuStates | app.py:819-834 | a button press is handled exactly in `UPLOAD_PDF`, `CONFIRM_DOWNLOAD` and `SELECT_LOCAL_PDF` |
| Conversation.TextOnlyWhenAwaited | app.py:823-831 | text goes to `handle_url` in `GET_URL`, to `process_page_range` in `GET_PAGE_RANGE`, and is unhandled elsewhere |
| Conversation.UnhandledChangesNothing | app.py:816-839 | an update no handler takes changes neither state nor record |
| Conversation.ButtonKeepsConsistent | app.py:214-354 | no button reaches `GET_PAGE_RANGE` without both a path and a page count |
| Conversation.UploadKeepsConsistent | app.py:356-421 | an upload reaches `GET_PAGE_RANGE` only with both keys written |
| Conversation.UrlKeepsConsistent | app.py:423-504 | `handle_url` keeps the record consistent with its state |
| Conversation.RangeKeepsConsistent | app.py:530-713 | `process_page_range` keeps both keys it was entered with |
| Conversation.TransitionKeepsConsistent | app.py:816-839 | every handler leaves the record consistent with the state it returns |
| Conversation.PendingRangeNeverSet | app.py:539-541 | no handler writes `pending_range`, so a record without it never gains it |
| Conversation.ButtonTable | app.py:219-354 | "upload" -> `UPLOAD_PDF`, "url" -> `GET_URL`, "back_to_start" -> `UPLOAD_PDF`, "cancel_download" -> END, unknown data -> `UPLOAD_PDF` with the press acknowledged and nothing shown; each with the record unchanged; "local" -> `UPLOAD_PDF` or `SELECT_LOCAL_PDF` as the store is empty or not |
| Conversation.SelectButtonCarriesName | app.py:236-239 | a `select_pdf:` button selects exactly the name it carries |
| Conversation.SelectOutcomes | app.py:236-276 | a vanished file changes only the state; a readable one sets path and page count and moves to `GET_PAGE_RANGE`; an unreadable one sets the path, keeps the old page count and shows the listing again |
| Conversation.UseSamePdf | app.py:688-692 | "Use same PDF" after extracting from `stored_pdfs/<name>` selects that same path |
| Conversation.ConfirmWithoutUrl | app.py:277-282 | `confirm_download` without a stored URL ends the conversation and changes nothing else |
| Conversation.DownloadOutcomes | app.py:277-349 | a confirmed download reaches `GET_PAGE_RANGE` exactly when a URL is stored, the GET succeeds with a readable `content-length`, the basename is a usable entry name and the stored file reads as a PDF; it then records `stored_pdfs/<basename>` and its page count and reports the progress marks; otherwise the conversation ends with the record unchanged |
| Conversation.DownloadWithoutLengthIsSilent | app.py:297-313 | without a `content-length` header a download sends no progress update |
| Conversation.UploadGate | app.py:362-374 | an upload over 50 MiB is refused before any transfer, with the record unchanged; one of at most 50 MiB is not refused |
| Conversation.UploadStaysInStorage | app.py:384-395 | an upload is recorded only directly inside `stored_pdfs`, under the basename of its name, and only when that basename is not empty, "." or ".." |
| Conversation.UrlAcceptedIff | app.py:425-497 | the URL is accepted for download exactly when the scheme is http or https, the status is 200, the content type is absent or says PDF or the path ends in ".pdf", and any Content-Length is an integer of at most 2 GiB |
| Conversation.UrlSizeInfo | app.py:473-477 | the size shown is "Unknown size" exactly when no Content-Length is given, else its whole mebibytes |
| Conversation.UrlStoredOnceHttp | app.py:428-481 | a URL with a valid scheme is stored even if a later check refuses it; `file_name` is written only on acceptance |
| Conversation.FormatErrorChangesNothing | app.py:544-556 | a format error stays in `GET_PAGE_RANGE` and changes no field |
| Conversation.RangeRefused | app.py:558-565 | a range outside the document stays in `GET_PAGE_RANGE`, reporting the page count, with the record unchanged |
| Conversation.RangeAccepted | app.py:558-570 | a range inside the document goes on to the extraction with the record unchanged |
| Conversation.PendingRangeConsumed | app.py:539-541 | "yes" with a pending range deletes the key and extracts that range |
| Conversation.InlineDelivery | app.py:581-633 | a valid range, with no broken page and an output of at most 50 MiB, sends exactly pages start..end as an attachment under the output name; no token is issued and the state returns to `UPLOAD_PDF` |
| Conversation.CopyFailureStays | app.py:588-605 | a page that cannot be copied keeps `GET_PAGE_RANGE`, reports the first failing page of the range, delivers nothing and issues no token |
| Conversation.LinkDelivery | app.py:634-679 | a larger output gets a token for a copy directly inside `web_serve`, delivered under the output name and expiring a day after now; the link is sent unless it points at this machine |
| Conversation.LinkIssued | app.py:641-666 | the token entry names `web_serve/<uuid>_<name>`, and the link is withheld exactly when it is local |
| Conversation.AllPagesCopied | app.py:588-605 | a range inside the document with no broken page is copied in full |
| Conversation.DeliverByLink | app.py:612-651 | once every page is copied, an output over 50 MiB goes by link |
| Conversation.CopyPath | app.py:642-643 | the served copy lies directly inside `web_serve` |
| Bot.Issue | app.py:112-117 | the new token maps to its entry, and every other entry is kept |
| Bot.Session.constructor | app.py:816-838 | a new user has no conversation and an empty record |
| Bot.Session.Start | app.py:141-163 | `start` shows the welcome menu and returns `UPLOAD_PDF` |
| Bot.Session.Cancel | app.py:760-765 | `cancel` ends the conversation |
| Bot.Session.ListLocalPdfs | app.py:165-212 | `list_local_pdfs` shows the menu of stored files and returns `UPLOAD_PDF` when none is stored, else `SELECT_LOCAL_PDF` |
| Bot.Session.SelectStored | app.py:236-276 | the `select_pdf:` branch updates state and record as `SelectSpec` says |
| Bot.Session.DownloadConfirmed | app.py:277-349 | the `confirm_download` branch fails on a failed GET, an unreadable length or an unusable name (empty, "." or ".."), and otherwise streams, counts and analyses as `DownloadSpec` says |
| Bot.Session.Store | app.py:303-349 | streams the body with progress reported at the `Marks` counts; a file that reads as a PDF has its path and page count recorded and moves to `GET_PAGE_RANGE`, any other ends the conversation with the record unchanged |
| Bot.Session.ButtonHandler | app.py:214-354 | `button_handler` updates state and record as `ButtonSpec` says |
| Bot.Session.HandlePdf | app.py:356-421 | `handle_pdf` refuses over 50 MiB, fails on a failed transfer or an unusable name (empty, "." or ".."), and otherwise stores and analyses as `UploadSpec` says |
| Bot.Session.HandleUrl | app.py:423-504 | `handle_url` updates state and record as `UrlSpec` says |
| Bot.Session.ProcessPageRange | app.py:530-713 | `process_page_range` updates state, record and token table as `RangeSpec` says |
| Bot.Session.Decide | app.py:552-570 | a refusal stays in `GET_PAGE_RANGE` with no token issued; a range goes on to the extraction |
| Bot.Session.Deliver | app.py:567-713 | reading, copying and delivering update the state and the token table as `DeliverSpec` says |
| Bot.Session.Offer | app.py:641-679 | the link branch registers the copy under the token and offers the link |
| Bot.Session.Receive | app.py:816-839 | one update, routed as the `ConversationHandler` routes it, has the effect `Transition` gives it; the page-range state is never entered without a path and a page count |

## Left out

- Telegram I/O is not modelled: the wording of messages, editing of status messages and inline keyboards as UI. A reply is an abstract value that names the outcome and carries the callback data of its buttons.
- The network is not modelled: `requests.head` and `requests.get` become the `Head` and `Fetch` inputs of a `World`. Timeouts, redirects and `raise_for_status` fold into `HeadFailed`/`FetchFailed`. `get_public_ip` and the detection of `PUBLIC_URL` (app.py:44-74) are replaced by the `publicUrl` input.
- PyPDF2 is not modelled. A file is its page sequence plus the set of page indices that `add_page` cannot copy. A file it cannot read is one absent from `World.pdfs`. Writing the output is left out, and the output's size is an input.
- Filesystem effects are not modelled: writing, copying, temporary files and removals. The stored directory is the listing `glob` returns, in whatever order it returns it. `os.path.exists` is a set of paths, and each `os.remove` outcome is a boolean input.
- The `threading.Timer` that pops a token, and the hourly `cleanup_expired_files` thread (app.py:120-139), are not modelled as threads. Popping a token is the explicit method `Tokens.TokenTable.Expire`.
- The Flask route's `send_file` response is left out; `Tokens.Serve` returns the file and name it would send.
- The clock is an integer number of seconds, not a float from `time.time()`.
- Download.Fires: the 5 % test compares float quotients in the source. The model uses the exact integer form `20 * (downloaded - last) > total`, so float rounding at the boundary is not captured.
- Percentages and the `.1f` megabyte figures of progress messages and listings are left out (app.py:195, 316, 321, 594, 728). Progress is reported as the byte counts and page counters at which updates fire.
- uuid4 values are inputs (`copyId`, `token`) assumed fresh.
- Conversation.LinkDelivery: assumes the uuid holds no `/`. Every real uuid4 meets this.
- `error_handler` (app.py:767-797) and its message matching are left out. An exception that escapes a handler is the reply `Crashed`, with the state kept.
- `list_stored_pdfs` (app.py:715-731) only formats the listing as text, so it is left out.
- `main`'s application setup and polling are not modelled; only the routing of its `ConversationHandler` is.
- Text.ParseInt: the model accepts surrounding ASCII white space, an optional sign and decimal digits. It does not model the underscores or non-ASCII digits that Python's `int()` also accepts.
- Text.Strip and Text.Lower: only ASCII white space and ASCII letters are modelled, so Unicode white space and case mapping are not.
- Filenames.UrlPath: a simplification of `urlparse(url).path`; `Filenames.UrlPathOf` states it for `http` and `https` URLs only. The path starts at the first `/` after the host and stops at `?` or `#`; `;params` are not split off.
- Filenames.DispositionFilename: the regular expression is modelled by its capture: the leftmost `filename=`, one optional `"`, then text up to the next `"`.
