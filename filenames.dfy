/**
 * Names the bot derives: the name of a file behind a URL
 * (`get_filename_from_url`), the name of an extraction output and the size
 * label shown before a download.
 */
module Filenames {
  import opened Wrappers
  import opened Text
  import opened Paths
  import Limits

  /** The name used when the URL path ends in `/` or is empty. */
  const DefaultName: string := "document.pdf"

  /** The longest prefix of `s` holding none of `stops`. */
  function PrefixBefore(s: string, stops: set<char>): (r: string)
    ensures StartsWith(s, r)
    ensures forall i :: 0 <= i < |r| ==> r[i] !in stops
    ensures |r| < |s| ==> s[|r|] in stops
  {
    if |s| == 0 || s[0] in stops then ""
    else
      var rest := PrefixBefore(s[1..], stops);
      [s[0]] + rest
  }

  /** Text free of the stop characters, followed by a stop (or nothing), is the prefix taken. */
  lemma {:induction false} PrefixBeforeConcat(n: string, q: string, stops: set<char>)
    requires forall i :: 0 <= i < |n| ==> n[i] !in stops
    requires q == [] || q[0] in stops
    ensures PrefixBefore(n + q, stops) == n
  {
    var t := n + q;
    var r := PrefixBefore(t, stops);
    assert r == t[..|r|];
    assert forall i :: 0 <= i < |n| ==> t[i] !in stops;
    assert |n| < |t| ==> t[|n|] in stops;
    assert |r| == |n|;
    assert t[..|n|] == n;
  }

  /**
   * The capture of `filename="?([^"]*)"?` in a `Content-Disposition`
   * value: after the leftmost `filename=`, one optional `"` is skipped and
   * the text up to the next `"` (or the end) is taken. None when the header
   * has no `filename=`.
   */
  function DispositionFilename(header: string): (r: Option<string>)
    ensures r.Some? <==> Contains(header, "filename=")
    ensures r.Some? ==> '"' !in r.value
  {
    match Find(header, "filename=")
    case None => None
    case Some(i) =>
      var rest := header[i + 9..];
      var unquoted := if |rest| > 0 && rest[0] == '"' then rest[1..] else rest;
      Some(PrefixBefore(unquoted, {'"'}))
  }

  /** The leftmost `filename=` of `p + "filename=" + rest`, when `p` holds none, is the one after `p`. */
  lemma {:induction false} FilenameAfter(p: string, rest: string)
    requires !Contains(p, "filename=")
    ensures Find(p + "filename=" + rest, "filename=") == Some(|p|)
  {
    var key := "filename=";
    var h := p + key + rest;
    FindLeftmost(p, key);
    forall j | 0 <= j < |p| ensures !StartsWith(h[j..], key) {
      if j + 9 <= |p| {
        assert h[j..][..9] == p[j..][..9];
      } else {
        assert h[j..][8] == h[j + 8] == key[j + 8 - |p|];
      }
    }
    assert h[|p|..|p| + 9] == key;
    FindAt(h, key, |p|);
  }

  /** After text holding no `filename=`, the capture is read from what follows the first `filename=`. */
  lemma {:induction false} DispositionAfter(p: string, rest: string)
    requires !Contains(p, "filename=")
    ensures DispositionFilename(p + "filename=" + rest)
      == Some(PrefixBefore(if |rest| > 0 && rest[0] == '"' then rest[1..] else rest, {'"'}))
  {
    FilenameAfter(p, rest);
    assert (p + "filename=" + rest)[|p| + 9..] == rest;
  }

  /**
   * A quoted `filename="n"` after text holding no `filename=` captures `n`
   * exactly, whatever follows the closing quote.
   */
  lemma {:induction false} DispositionQuoted(p: string, n: string, q: string)
    requires !Contains(p, "filename=") && '"' !in n
    ensures DispositionFilename(p + "filename=" + ("\"" + n + "\"" + q)) == Some(n)
  {
    DispositionAfter(p, "\"" + n + "\"" + q);
    QuotedCapture(n, q);
  }

  /** What follows `filename=` when the name is quoted: the capture stops at the closing quote. */
  lemma {:induction false} QuotedCapture(n: string, q: string)
    requires '"' !in n
    ensures var rest := "\"" + n + "\"" + q;
      |rest| > 0 && rest[0] == '"' && PrefixBefore(rest[1..], {'"'}) == n
  {
    var rest := "\"" + n + "\"" + q;
    assert rest[1..] == n + ("\"" + q);
    PrefixBeforeConcat(n, "\"" + q, {'"'});
  }

  /**
   * An unquoted `filename=n` at the end of the header captures `n` exactly;
   * the capture runs to the end, past any `;`.
   */
  lemma {:induction false} DispositionUnquoted(p: string, n: string)
    requires !Contains(p, "filename=") && '"' !in n
    ensures DispositionFilename(p + "filename=" + n) == Some(n)
  {
    DispositionAfter(p, n);
    PrefixBeforeConcat(n, [], {'"'});
    assert n + [] == n;
  }

  /**
   * The path component of an `http://` or `https://` URL: what follows the
   * host, up to a `?` or `#`. (A simplification of `urlparse(url).path`:
   * `;params` stay in the path.)
   */
  function UrlPath(url: string): (r: string)
    ensures '?' !in r && '#' !in r
  {
    var rest := match Find(url, "://") case Some(i) => url[i + 3..] case None => url;
    var host := PrefixBefore(rest, {'/', '?', '#'});
    PrefixBefore(rest[|host|..], {'?', '#'})
  }

  /**
   * For `scheme://host/path` followed by `?query` or `#fragment` (or
   * nothing), the path is `/path`.
   */
  lemma {:induction false} UrlPathOf(scheme: string, host: string, path: string, q: string)
    requires scheme == "http" || scheme == "https"
    requires '/' !in host && '?' !in host && '#' !in host
    requires path == [] || path[0] == '/'
    requires '?' !in path && '#' !in path
    requires q == [] || q[0] == '?' || q[0] == '#'
    ensures UrlPath(scheme + "://" + (host + path + q)) == path
  {
    UrlAfterScheme(scheme, host + path + q);
    HostThenPath(host, path, q);
  }

  /** After `http://` or `https://`, the host and path are read from the rest of the URL. */
  lemma {:induction false} UrlAfterScheme(scheme: string, rest: string)
    requires scheme == "http" || scheme == "https"
    ensures UrlPath(scheme + "://" + rest)
      == PrefixBefore(rest[|PrefixBefore(rest, {'/', '?', '#'})|..], {'?', '#'})
  {
    var url := scheme + "://" + rest;
    forall j | 0 <= j < |scheme| ensures !StartsWith(url[j..], "://") {
      assert url[j..][0] == url[j] == scheme[j];
    }
    assert url[|scheme|..|scheme| + 3] == "://";
    FindAt(url, "://", |scheme|);
    assert url[|scheme| + 3..] == rest;
  }

  /** The host ends at the first `/`, `?` or `#`; the path then runs up to the query or fragment. */
  lemma {:induction false} HostThenPath(host: string, path: string, q: string)
    requires '/' !in host && '?' !in host && '#' !in host
    requires path == [] || path[0] == '/'
    requires '?' !in path && '#' !in path
    requires q == [] || q[0] == '?' || q[0] == '#'
    ensures var rest := host + path + q;
      PrefixBefore(rest[|PrefixBefore(rest, {'/', '?', '#'})|..], {'?', '#'}) == path
  {
    var rest := host + path + q;
    assert rest == host + (path + q);
    PrefixBeforeConcat(host, path + q, {'/', '?', '#'});
    assert rest[|host|..] == path + q;
    PrefixBeforeConcat(path, q, {'?', '#'});
  }

  /** `get_filename_from_url(url, content_disposition)`. */
  function FilenameFromUrl(url: string, disposition: Option<string>): string {
    if disposition.Some? && disposition.value != [] && DispositionFilename(disposition.value).Some? then
      DispositionFilename(disposition.value).value
    else
      NameFromSegment(Basename(UrlPath(url)))
  }

  /**
   * The name made from the last URL path segment: "document.pdf" when it is
   * empty, the segment itself when it ends in ".pdf" (ignoring case), the
   * segment with ".pdf" appended otherwise.
   */
  function NameFromSegment(name: string): (r: string)
    ensures name == [] ==> r == DefaultName
    ensures name != [] ==> StartsWith(r, name)
    ensures '/' !in name ==> '/' !in r
    ensures EndsWith(Lower(r), ".pdf")
    ensures r == name <==> name != [] && EndsWith(Lower(name), ".pdf")
    ensures name != [] && !EndsWith(Lower(name), ".pdf") ==> r == name + ".pdf"
  {
    if name == [] then
      assert Lower(DefaultName) == DefaultName;
      DefaultName
    else if EndsWith(Lower(name), ".pdf") then name
    else
      SuffixAddedLower(name);
      name + ".pdf"
  }

  /**
   * With a `filename=` parameter in a non-empty header, the name is that
   * parameter's text exactly as written: possibly empty, never forced to end
   * in `.pdf`, never holding a `"`.
   */
  lemma FilenameFromHeader(url: string, header: string)
    requires header != [] && Contains(header, "filename=")
    ensures var r := FilenameFromUrl(url, Some(header));
      Some(r) == DispositionFilename(header) && '"' !in r
  {
  }

  /**
   * Without one, the name is "document.pdf" when the last segment of the URL
   * path is empty, the segment itself when it ends in ".pdf" (ignoring case),
   * and the segment with ".pdf" appended otherwise; it holds no `/`.
   */
  lemma FilenameFromPath(url: string, disposition: Option<string>)
    requires disposition.None? || disposition.value == [] || !Contains(disposition.value, "filename=")
    ensures var r := FilenameFromUrl(url, disposition);
      var segment := Basename(UrlPath(url));
      && '/' !in r
      && EndsWith(Lower(r), ".pdf")
      && (segment == [] ==> r == DefaultName)
      && (segment != [] && EndsWith(Lower(segment), ".pdf") ==> r == segment)
      && (segment != [] && !EndsWith(Lower(segment), ".pdf") ==> r == segment + ".pdf")
  {
  }

  /** Appending ".pdf" makes a name end in ".pdf", ignoring case, and keeps it as a prefix. */
  lemma SuffixAddedLower(name: string)
    ensures var r := name + ".pdf";
      EndsWith(Lower(r), ".pdf") && StartsWith(r, name)
  {
    var r := name + ".pdf";
    assert r[..|name|] == name;
    LowerEndsWithPdf(r);
  }

  lemma LowerEndsWithPdf(r: string)
    requires EndsWith(r, ".pdf")
    ensures EndsWith(Lower(r), ".pdf")
  {
    var lr := Lower(r);
    forall k | 0 <= k < 4 ensures lr[|r| - 4 + k] == ".pdf"[k] {
      assert r[|r| - 4 + k] == r[|r| - 4..][k];
    }
    assert lr[|r| - 4..] == ".pdf";
  }

  /** A number written by `str` holds no `/`. */
  lemma IntToStringHasNoSlash(i: int)
    ensures '/' !in IntToString(i)
  {
    var s := IntToString(i);
    if i < 0 {
      forall k | 1 <= k < |s| ensures s[k] != '/' {
        assert s[k] == s[1..][k - 1];
      }
    }
  }

  /** The part of an output name after the stem: `_pages_{start}_to_{end}.pdf`. */
  function RangeSuffix(start: int, end: int): (r: string)
    ensures '/' !in r && EndsWith(r, ".pdf")
  {
    var a, b := IntToString(start), IntToString(end);
    IntToStringHasNoSlash(start);
    IntToStringHasNoSlash(end);
    NotInConcat("_pages_", a, '/');
    NotInConcat("_pages_" + a, "_to_", '/');
    NotInConcat("_pages_" + a + "_to_", b, '/');
    var head := "_pages_" + a + "_to_" + b;
    NotInConcat(head, ".pdf", '/');
    ConcatEnds(head, ".pdf", ".pdf");
    head + ".pdf"
  }

  /**
   * The name of an extraction output:
   * `{stem of basename(input)}_pages_{start}_to_{end}.pdf`.
   */
  function OutputName(inputPath: string, start: int, end: int): string {
    Stem(Basename(inputPath)) + RangeSuffix(start, end)
  }

  /**
   * An output name starts with the stem of the input's basename, ends in
   * ".pdf" and holds no `/`, so it names a file directly inside the
   * directory it is joined to.
   */
  lemma OutputNameShape(inputPath: string, start: int, end: int)
    ensures var r := OutputName(inputPath, start, end);
      '/' !in r && EndsWith(r, ".pdf") && StartsWith(r, Stem(Basename(inputPath)))
  {
    var stem := Stem(Basename(inputPath));
    var tail := RangeSuffix(start, end);
    ConcatEnds(stem, tail, ".pdf");
    assert '/' !in stem by {
      assert forall c :: c in stem ==> c in Basename(inputPath) by {
        assert Basename(inputPath)[..|stem|] == stem;
      }
    }
  }

  lemma ConcatAssoc(x: string, y: string, z: string)
    ensures x + (y + z) == x + y + z
  {
  }

  /** The stem of a stored `<s>.<ext>` is `<s>`. */
  lemma {:induction false} StoredStem(s: string, ext: string)
    requires |s| > 0 && s[0] != '.' && '.' !in ext && '/' !in s && '/' !in ext
    ensures Stem(Basename(StoredPath(s + "." + ext))) == s
  {
    var name := s + "." + ext;
    NotInConcat(s, ".", '/');
    NotInConcat(s + ".", ext, '/');
    BasenameOfJoin(StorageDir, name);
    StemDropsExtension(s, ext);
  }

  /**
   * Extracting from `stored_pdfs/<s>.<ext>` names the output
   * `<s>_pages_<start>_to_<end>.pdf`: the extension of the input is dropped.
   */
  lemma {:induction false} OutputNameOfStored(s: string, ext: string, start: int, end: int)
    requires |s| > 0 && s[0] != '.' && '.' !in ext && '/' !in s && '/' !in ext
    ensures OutputName(StoredPath(s + "." + ext), start, end)
      == s + "_pages_" + IntToString(start) + "_to_" + IntToString(end) + ".pdf"
  {
    var a, b := IntToString(start), IntToString(end);
    assert OutputName(StoredPath(s + "." + ext), start, end) == s + RangeSuffix(start, end) by {
      StoredStem(s, ext);
    }
    assert RangeSuffix(start, end) == "_pages_" + a + "_to_" + b + ".pdf";
    var p, t, d := "_pages_", "_to_", ".pdf";
    calc {
      s + (p + a + t + b + d);
    == { ConcatAssoc(s, p + a + t + b, d); }
      s + (p + a + t + b) + d;
    == { ConcatAssoc(s, p + a + t, b); }
      s + (p + a + t) + b + d;
    == { ConcatAssoc(s, p + a, t); }
      s + (p + a) + t + b + d;
    == { ConcatAssoc(s, p, a); }
      s + p + a + t + b + d;
    }
  }

  /** The size shown for a known `Content-Length`: whole mebibytes, rounded down, then "MB". */
  function SizeLabel(contentLength: int): string {
    IntToString(contentLength / Limits.MiB) + "MB"
  }

  /** Reading the number back from a size label gives the length in whole mebibytes. */
  lemma SizeLabelReadsBack(contentLength: int)
    ensures var l := SizeLabel(contentLength);
      && EndsWith(l, "MB")
      && ParseInt(l[..|l| - 2]) == Some(contentLength / Limits.MiB)
      && (contentLength / Limits.MiB) * Limits.MiB <= contentLength < (contentLength / Limits.MiB + 1) * Limits.MiB
  {
    var q := contentLength / Limits.MiB;
    var l := SizeLabel(contentLength);
    assert l[..|l| - 2] == IntToString(q);
    assert l[|l| - 2..] == "MB";
    ParseIntRoundTrip(q);
    WholeMebibytes(contentLength);
  }

  /** Rounding down to whole mebibytes loses less than one mebibyte. */
  lemma WholeMebibytes(n: int)
    ensures (n / Limits.MiB) * Limits.MiB <= n < (n / Limits.MiB + 1) * Limits.MiB
  {
    var q, r := n / Limits.MiB, n % Limits.MiB;
    assert n == q * Limits.MiB + r && 0 <= r < Limits.MiB;
    assert (q + 1) * Limits.MiB == q * Limits.MiB + Limits.MiB;
  }

  /** 3145728 bytes is shown as "3MB". */
  lemma ThreeMebibyteLabel()
    ensures SizeLabel(3145728) == "3MB"
  {
    assert 3145728 / Limits.MiB == 3;
  }
}
