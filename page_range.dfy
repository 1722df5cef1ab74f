/**
 * Reading the page range a user types while the bot waits for one: either
 * `start-end` or a single page number, then the check against the page
 * count, with the "yes" reply that would confirm a stored pending range.
 */
module PageRange {
  import opened Wrappers
  import opened Text

  /**
   * The text (already stripped) as a pair of page numbers. With a `-`, it
   * must split into exactly two fields that each read as an integer; without
   * one, the whole text is one integer, used as both start and end.
   */
  function ParseRange(t: string): (r: Option<(int, int)>)
    ensures r.Some? ==> r.value.0 >= 0 && r.value.1 >= 0
    ensures r.Some? && '-' !in t ==> r.value.0 == r.value.1
  {
    if '-' in t then
      var fields := Split(t, '-');
      if |fields| != 2 then None
      else match (ParseInt(fields[0]), ParseInt(fields[1]))
        case (Some(a), Some(b)) => Some((a, b))
        case _ => None
    else match ParseInt(t)
      case Some(v) => Some((v, v))
      case None => None
  }

  /** `start-end` written with `str` reads back as that pair. */
  lemma RangeRoundTrip(start: nat, end: nat)
    ensures ParseRange(IntToString(start) + "-" + IntToString(end)) == Some((start, end))
  {
    var a, b := IntToString(start), IntToString(end);
    var t := a + "-" + b;
    assert '-' !in a && '-' !in b;
    assert t[|a|] == '-';
    assert a + "-" + b == a + ['-'] + b;
    SplitJoin(a, '-', b);
    ParseIntRoundTrip(start);
    ParseIntRoundTrip(end);
  }

  /** A bare page number reads back as a one-page range. */
  lemma SinglePageRoundTrip(page: nat)
    ensures ParseRange(IntToString(page)) == Some((page, page))
  {
    var t := IntToString(page);
    assert '-' !in t by {
      forall k | 0 <= k < |t| ensures t[k] != '-' {
        assert IsDigit(t[k]);
      }
    }
    ParseIntRoundTrip(page);
  }

  /** A `-` at either end leaves an empty field, so "-5" and "5-" are format errors. */
  lemma HyphenAtEdgeRejected(t: string)
    requires |t| > 0 && (t[0] == '-' || t[|t| - 1] == '-')
    ensures ParseRange(t) == None
  {
    var fields := Split(t, '-');
    if |fields| == 2 {
      if t[0] == '-' {
        SplitLeadingSeparator(t, '-');
        assert Strip(fields[0]) == [];
      } else {
        SplitTrailingSeparator(t, '-');
        assert Strip(fields[1]) == [];
      }
    }
  }

  /** Two or more `-` give three or more fields, so "1-2-3" is a format error. */
  lemma SeveralHyphensRejected(t: string)
    requires Occurrences(t, '-') >= 2
    ensures ParseRange(t) == None
  {
    assert |Split(t, '-')| >= 3;
    if '-' !in t {
      SplitNone(t, '-');
    }
  }

  /** What `process_page_range` does with the text it receives. */
  datatype Decision =
    | Proceed(start: int, end: int)   // extract pages start..end
    | FormatError                     // "Invalid format!", stay in GET_PAGE_RANGE
    | OutOfRange(numPages: nat)       // "Invalid page range!", stay in GET_PAGE_RANGE

  /** The confirmation reply: "yes" in any letter case. */
  predicate IsConfirmation(t: string) {
    Lower(t) == "yes"
  }

  /**
   * The decision for a message: a confirmation while a range is pending
   * proceeds with that range as stored; anything else is parsed, and a
   * parsed range proceeds only when 1 <= start <= end <= the page count
   * (0 when none is recorded).
   */
  function DecideRange(text: string, pending: Option<(int, int)>, numPages: Option<nat>): (r: Decision)
    ensures r.Proceed? && !(IsConfirmation(Strip(text)) && pending.Some?) ==>
      1 <= r.start <= r.end <= numPages.GetOr(0)
    ensures r.OutOfRange? ==> r.numPages == numPages.GetOr(0)
  {
    var t := Strip(text);
    if IsConfirmation(t) && pending.Some? then Proceed(pending.value.0, pending.value.1)
    else match ParseRange(t)
      case None => FormatError
      case Some((s, e)) =>
        var n := numPages.GetOr(0);
        if s < 1 || e > n || s > e then OutOfRange(n) else Proceed(s, e)
  }

  /**
   * Outside the confirmation case, a range proceeds exactly when it parses
   * and lies within the document.
   */
  lemma ProceedIffValid(text: string, pending: Option<(int, int)>, numPages: Option<nat>, s: int, e: int)
    requires !(IsConfirmation(Strip(text)) && pending.Some?)
    ensures DecideRange(text, pending, numPages) == Proceed(s, e) <==>
      ParseRange(Strip(text)) == Some((s, e)) && 1 <= s <= e <= numPages.GetOr(0)
  {
  }

  /** A parsed range, outside the confirmation case, is checked against the page count. */
  lemma DecideParsed(text: string, pending: Option<(int, int)>, numPages: Option<nat>, s: int, e: int)
    requires !(IsConfirmation(Strip(text)) && pending.Some?)
    requires ParseRange(Strip(text)) == Some((s, e))
    ensures DecideRange(text, pending, numPages) ==
      if 1 <= s <= e <= numPages.GetOr(0) then Proceed(s, e) else OutOfRange(numPages.GetOr(0))
  {
  }

  /** With no page count recorded, every typed range is refused. */
  lemma NoPageCountRejectsAll(text: string, pending: Option<(int, int)>)
    requires !(IsConfirmation(Strip(text)) && pending.Some?)
    ensures !DecideRange(text, pending, None).Proceed?
  {
  }

  /** A pending range is used as stored on "yes", without being checked again. */
  lemma ConfirmationUsesPending(text: string, start: int, end: int, numPages: Option<nat>)
    requires IsConfirmation(Strip(text))
    ensures DecideRange(text, Some((start, end)), numPages) == Proceed(start, end)
  {
  }

  /** Without a pending range, "yes" is read as a range, and is a format error. */
  lemma ConfirmationWithoutPendingIsFormatError(text: string, numPages: Option<nat>)
    requires IsConfirmation(Strip(text))
    ensures DecideRange(text, None, numPages) == FormatError
  {
    var t := Strip(text);
    assert |t| == 3;
    assert Lower(t)[0] == 'y' && Lower(t)[1] == 'e' && Lower(t)[2] == 's';
    assert t[0] == 'y' || t[0] == 'Y';
    assert t[1] == 'e' || t[1] == 'E';
    assert t[2] == 's' || t[2] == 'S';
    assert '-' !in t;
    StripTrimmed(t);
    assert !AllDigits(t);
    assert ParseInt(t) == None;
  }

  /** "5-20" reads as the pair (5, 20). */
  lemma FiveToTwenty()
    ensures ParseRange("5-20") == Some((5, 20))
  {
    assert DigitChar(5) == '5' && DigitChar(2) == '2' && DigitChar(0) == '0';
    assert IntToString(5) + "-" + IntToString(20) == "5-20";
    RangeRoundTrip(5, 20);
  }

  /** "5-12" reads as the pair (5, 12). */
  lemma FiveToTwelve()
    ensures ParseRange("5-12") == Some((5, 12))
  {
    assert DigitChar(5) == '5' && DigitChar(1) == '1' && DigitChar(2) == '2';
    assert IntToString(5) + "-" + IntToString(12) == "5-12";
    RangeRoundTrip(5, 12);
  }

  /** On a 12-page document "5-20" is out of range. */
  lemma TwelvePagesTooFar()
    ensures DecideRange("5-20", None, Some(12)) == OutOfRange(12)
  {
    StripTrimmed("5-20");
    FiveToTwenty();
    DecideParsed("5-20", None, Some(12), 5, 20);
  }

  /** On a 12-page document "5-12" proceeds with pages 5 to 12. */
  lemma TwelvePagesWithin()
    ensures DecideRange("5-12", None, Some(12)) == Proceed(5, 12)
  {
    StripTrimmed("5-12");
    FiveToTwelve();
    DecideParsed("5-12", None, Some(12), 5, 12);
  }
}
