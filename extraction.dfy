/**
 * The page-copying loop of `process_page_range`: pages `start-1 .. end-1`
 * of the source are appended one by one to a new document, with a progress
 * update every `max(1, total // 10)` pages, and the first page that cannot
 * be copied aborts the request.
 */
module Extraction {
  import opened Wrappers
  import opened Arith

  /**
   * `pages[k]` in Python: a negative index counts from the end, any other
   * index outside the list raises `IndexError` (None).
   */
  function PyIndex<P>(pages: seq<P>, k: int): (r: Option<P>)
    ensures 0 <= k < |pages| ==> r == Some(pages[k])
    ensures r.None? <==> !(-|pages| <= k < |pages|)
  {
    if 0 <= k < |pages| then Some(pages[k])
    else if -|pages| <= k < 0 then Some(pages[|pages| + k])
    else None
  }

  /**
   * Whether `pdf_writer.add_page(pdf_reader.pages[k])` raises: the index is
   * out of range, or the page at `k` is one of the `broken` ones the PDF
   * library cannot copy.
   */
  predicate CopyFails<P>(pages: seq<P>, broken: set<int>, k: int) {
    PyIndex(pages, k).None? || k in broken
  }

  /** `max(1, total // 10)`: how many pages pass between two progress updates. */
  function ProgressInterval(total: int): (r: int)
    ensures r >= 1
  {
    if total / 10 > 1 then total / 10 else 1
  }

  /**
   * The loop counters `i` after whose page a progress update is sent, when
   * `n` pages have been copied: every `i` with `0 < i < n` and
   * `i % interval == 0`, in order.
   */
  function Checkpoints(n: int, interval: int): seq<int>
    requires interval >= 1
    decreases n
  {
    if n <= 1 then [] else Checkpoints(n - 1, interval) + (if (n - 1) % interval == 0 then [n - 1] else [])
  }

  /** The first index in `lo .. hi-1` whose copy fails, if any. */
  function FirstFailure<P>(pages: seq<P>, broken: set<int>, lo: int, hi: int): (r: Option<int>)
    ensures r.Some? ==> lo <= r.value < hi && CopyFails(pages, broken, r.value)
    ensures r.Some? ==> forall k :: lo <= k < r.value ==> !CopyFails(pages, broken, k)
    ensures r.None? ==> forall k :: lo <= k < hi ==> !CopyFails(pages, broken, k)
    decreases hi - lo
  {
    if lo >= hi then None
    else if CopyFails(pages, broken, lo) then Some(lo)
    else FirstFailure(pages, broken, lo + 1, hi)
  }

  /** What the loop leaves behind. */
  datatype Outcome<P> =
    | Extracted(written: seq<P>, checkpoints: seq<int>)   // the writer's pages, the updates sent
    | CopyFailed(page: int, checkpoints: seq<int>)        // "Error processing page {page}"

  /** The outcome of copying pages `start..end` (1-based, inclusive). */
  function ExtractSpec<P>(pages: seq<P>, broken: set<int>, start: int, end: int): Outcome<P> {
    var total := end - start + 1;
    var interval := ProgressInterval(total);
    match FirstFailure(pages, broken, start - 1, end)
    case Some(k) => CopyFailed(k + 1, Checkpoints(k - (start - 1), interval))
    case None =>
      Extracted(seq(if total > 0 then total else 0,
                    i requires 0 <= i < total && !CopyFails(pages, broken, start - 1 + i) =>
                      PyIndex(pages, start - 1 + i).value),
                Checkpoints(total, interval))
  }

  /** The loop: append each page of the range to the writer, sending progress as it goes. */
  method Extract<P>(pages: seq<P>, broken: set<int>, start: int, end: int) returns (r: Outcome<P>)
    ensures r == ExtractSpec(pages, broken, start, end)
  {
    var total := end - start + 1;
    var interval := ProgressInterval(total);
    var writer: seq<P> := [];
    var checkpoints: seq<int> := [];
    var i := 0;
    var pageNum := start - 1;
    while pageNum < end
      invariant start - 1 <= pageNum <= (if end > start - 1 then end else start - 1)
      invariant i == pageNum - (start - 1) && |writer| == i
      invariant forall k :: 0 <= k < i ==> PyIndex(pages, start - 1 + k) == Some(writer[k])
      invariant forall k :: start - 1 <= k < pageNum ==> !CopyFails(pages, broken, k)
      invariant checkpoints == Checkpoints(i, interval)
    {
      if CopyFails(pages, broken, pageNum) {
        return CopyFailed(pageNum + 1, checkpoints);
      }
      writer := writer + [PyIndex(pages, pageNum).value];
      if i % interval == 0 && i > 0 {
        checkpoints := checkpoints + [i];
      }
      i := i + 1;
      pageNum := pageNum + 1;
    }
    r := Extracted(writer, checkpoints);
  }

  /**
   * For a range inside the document with no broken page, the writer holds
   * exactly pages `start..end` of the source, in order; otherwise the
   * failure names the first broken page of the range.
   */
  lemma ExtractValidRange<P>(pages: seq<P>, broken: set<int>, start: int, end: int)
    requires 1 <= start <= end <= |pages|
    ensures var r := ExtractSpec(pages, broken, start, end);
      && (r.Extracted? <==> forall k :: start - 1 <= k < end ==> k !in broken)
      && (r.Extracted? ==> r.written == pages[start - 1..end] && |r.written| == end - start + 1)
      && (r.CopyFailed? ==>
            && start <= r.page <= end && r.page - 1 in broken
            && forall k :: start - 1 <= k < r.page - 1 ==> k !in broken)
  {
    var r := ExtractSpec(pages, broken, start, end);
    assert forall k :: start - 1 <= k < end ==> (CopyFails(pages, broken, k) <==> k in broken);
    if r.Extracted? {
      assert |r.written| == end - start + 1;
      forall k | 0 <= k < end - start + 1 ensures r.written[k] == pages[start - 1..end][k] {
      }
    }
  }

  /** A checkpoint is exactly a counter `0 < i < n` divisible by the interval. */
  lemma {:induction false} CheckpointsMembership(n: int, interval: int, i: int)
    requires interval >= 1
    ensures i in Checkpoints(n, interval) <==> 0 < i < n && i % interval == 0
    decreases n
  {
    if n > 1 {
      CheckpointsMembership(n - 1, interval, i);
    }
  }

  /** Checkpoints come in increasing order. */
  lemma {:induction false} CheckpointsIncreasing(n: int, interval: int)
    requires interval >= 1
    ensures Increasing(Checkpoints(n, interval))
    decreases n
  {
    if n > 1 {
      CheckpointsIncreasing(n - 1, interval);
      var prev := Checkpoints(n - 1, interval);
      var c := Checkpoints(n, interval);
      forall a | 0 <= a < |prev| ensures prev[a] < n - 1 {
        CheckpointsMembership(n - 1, interval, prev[a]);
      }
      if (n - 1) % interval == 0 {
        assert c == prev + [n - 1];
        forall a, b | 0 <= a < b < |c| ensures c[a] < c[b] {
          if b < |prev| {
            assert c[a] == prev[a] && c[b] == prev[b];
          } else {
            assert c[a] == prev[a] && c[b] == n - 1;
          }
        }
      } else {
        assert c == prev;
      }
    }
  }

  /** Moving the counter up by one adds one to the quotient exactly at a multiple. */
  lemma DivStep(m: int, d: int)
    requires m >= 1 && d >= 1
    ensures m / d == (m - 1) / d + (if m % d == 0 then 1 else 0)
  {
    var q, r := (m - 1) / d, (m - 1) % d;
    if r == d - 1 {
      DivUnique(m, d, q + 1, 0);
    } else {
      DivUnique(m, d, q, r + 1);
    }
  }

  /** There are `(n - 1) // interval` checkpoints when `n >= 1` pages are copied. */
  lemma {:induction false} CheckpointsCount(n: int, interval: int)
    requires n >= 1 && interval >= 1
    ensures |Checkpoints(n, interval)| == (n - 1) / interval
    decreases n
  {
    if n == 1 {
      DivUnique(0, interval, 0, 0);
    } else {
      CheckpointsCount(n - 1, interval);
      DivStep(n - 1, interval);
    }
  }

  /**
   * A successful request sends at most 18 progress updates, and a 19-page
   * range sends exactly 18 of them: the "at most 10 times" intent does not
   * hold for ranges of 11 to 19 pages.
   */
  lemma CheckpointsAtMostEighteen(total: int)
    requires total >= 1
    ensures |Checkpoints(total, ProgressInterval(total))| <= 18
  {
    var interval := ProgressInterval(total);
    CheckpointsCount(total, interval);
    if total >= 20 {
      var q := total / 10;
      DivUnique(total, 10, q, total % 10);
      assert q >= 2 && interval == q;
      assert total - 1 < 15 * q;
      DivBelow(total - 1, q, 15);
    }
  }

  /** The 19-page case reaches the bound. */
  lemma NineteenPagesEighteenUpdates()
    ensures |Checkpoints(19, ProgressInterval(19))| == 18
  {
    CheckpointsCount(19, 1);
  }
}
