/**
 * The byte accounting of the `confirm_download` branch: the response body
 * arrives in chunks, each non-empty chunk is written and counted, and a
 * progress update is sent when the part received since the previous update
 * is more than 5 % of the advertised length, or when the clock clause holds.
 */
module Download {
  import opened Wrappers
  import opened Text
  import opened Arith

  /**
   * One chunk of the body: its length in bytes and the whole seconds elapsed,
   * when it arrives, since the clock was read; the clock is read only after
   * the GET has answered and its status has been checked, so the time spent
   * connecting is not counted.
   */
  datatype Chunk = Chunk(length: nat, elapsed: int)

  /** The bytes in a sequence of chunks. */
  function Sum(chunks: seq<Chunk>): nat
    decreases |chunks|
  {
    if chunks == [] then 0 else Sum(chunks[..|chunks| - 1]) + chunks[|chunks| - 1].length
  }

  /**
   * `int(headers.get('content-length', 0))`: 0 when the header is absent,
   * None when its text is not an integer (the `ValueError` that ends the
   * download with an error).
   */
  function ContentLength(header: Option<string>): (r: Option<int>)
    ensures header.None? ==> r == Some(0)
    ensures header.Some? && Strip(header.value) == [] ==> r.None?
  {
    match header
    case None => Some(0)
    case Some(text) => ParseInt(text)
  }

  /**
   * The update condition after a chunk, for an advertised length `total`:
   * the 5 % step is `20 * (downloaded - last) > total` in integers; the clock
   * clause subtracts `last`, a byte count, from the elapsed seconds.
   */
  predicate Fires(total: int, downloaded: int, last: int, elapsed: int) {
    total > 0 && (20 * (downloaded - last) > total || elapsed - last > 10)
  }

  /** `last_update_time`: the byte count of the latest update, 0 before the first. */
  function LastOf(marks: seq<int>): int {
    if marks == [] then 0 else marks[|marks| - 1]
  }

  /** The byte counts at which progress updates are sent, in order. */
  function Marks(total: int, chunks: seq<Chunk>): seq<int>
    decreases |chunks|
  {
    if chunks == [] then []
    else
      var prev := Marks(total, chunks[..|chunks| - 1]);
      var c := chunks[|chunks| - 1];
      if c.length > 0 && Fires(total, Sum(chunks), LastOf(prev), c.elapsed) then prev + [Sum(chunks)]
      else prev
  }

  /** The loop over `iter_content`: count the bytes, send the updates. */
  method Stream(total: int, chunks: seq<Chunk>) returns (downloaded: int, last: int, updates: seq<int>)
    ensures downloaded == Sum(chunks)
    ensures updates == Marks(total, chunks) && last == LastOf(updates)
  {
    downloaded, last, updates := 0, 0, [];
    var i := 0;
    while i < |chunks|
      invariant 0 <= i <= |chunks|
      invariant downloaded == Sum(chunks[..i])
      invariant updates == Marks(total, chunks[..i]) && last == LastOf(updates)
    {
      var c := chunks[i];
      assert chunks[..i + 1][..i] == chunks[..i];
      if c.length > 0 {
        downloaded := downloaded + c.length;
        if Fires(total, downloaded, last, c.elapsed) {
          last := downloaded;
          updates := updates + [downloaded];
        }
      }
      i := i + 1;
    }
    assert chunks[..i] == chunks;
  }

  /** With no usable `Content-Length` (absent, 0 or negative) no update is sent. */
  lemma {:induction false} NoLengthNoUpdates(total: int, chunks: seq<Chunk>)
    requires total <= 0
    ensures Marks(total, chunks) == []
    decreases |chunks|
  {
    if chunks != [] {
      NoLengthNoUpdates(total, chunks[..|chunks| - 1]);
    }
  }

  /**
   * Updates report strictly growing byte counts, each positive and at most
   * the bytes received; the last one is `last_update_time` at the end.
   */
  lemma {:induction false} MarksBounds(total: int, chunks: seq<Chunk>)
    ensures var m := Marks(total, chunks);
      && Increasing(m)
      && (forall k :: 0 <= k < |m| ==> 0 < m[k] <= Sum(chunks))
      && 0 <= LastOf(m) <= Sum(chunks)
    decreases |chunks|
  {
    if chunks != [] {
      var init := chunks[..|chunks| - 1];
      MarksBounds(total, init);
      var prev := Marks(total, init);
      var m := Marks(total, chunks);
      var c := chunks[|chunks| - 1];
      if c.length > 0 && Fires(total, Sum(chunks), LastOf(prev), c.elapsed) {
        assert m == prev + [Sum(chunks)];
        assert Sum(chunks) > Sum(init);
        forall a, b | 0 <= a < b < |m| ensures m[a] < m[b] {
          if b < |prev| {
            assert m[a] == prev[a] && m[b] == prev[b];
          } else {
            assert m[a] == prev[a] && m[b] == Sum(chunks);
          }
        }
      } else {
        assert m == prev;
      }
    }
  }

  /** The bytes between update `k` and the one before it (or the start). */
  function Gap(m: seq<int>, k: int): int
    requires 0 <= k < |m|
  {
    m[k] - (if k == 0 then 0 else m[k - 1])
  }

  /**
   * While the clock clause stays quiet (every chunk within the first ten
   * seconds), consecutive updates are more than 5 % of the length apart.
   */
  lemma {:induction false} ThrottleGap(total: int, chunks: seq<Chunk>)
    requires forall j :: 0 <= j < |chunks| ==> chunks[j].elapsed <= 10
    ensures var m := Marks(total, chunks);
      forall k :: 0 <= k < |m| ==> 20 * Gap(m, k) > total
    decreases |chunks|
  {
    if chunks != [] {
      var init := chunks[..|chunks| - 1];
      ThrottleGap(total, init);
      MarksBounds(total, init);
      var prev := Marks(total, init);
      var m := Marks(total, chunks);
      var c := chunks[|chunks| - 1];
      if c.length > 0 && Fires(total, Sum(chunks), LastOf(prev), c.elapsed) {
        assert m == prev + [Sum(chunks)];
        assert c.elapsed - LastOf(prev) <= 10;
        forall k | 0 <= k < |m| ensures 20 * Gap(m, k) > total {
          if k < |prev| {
            assert Gap(m, k) == Gap(prev, k);
          } else {
            assert Gap(m, k) == Sum(chunks) - LastOf(prev);
          }
        }
      } else {
        assert m == prev;
      }
    }
  }

  /** The gaps add up: `20 * last >= updates * (total + 1)` under a quiet clock. */
  lemma {:induction false} GapsAccumulate(total: int, chunks: seq<Chunk>)
    requires total > 0
    requires forall j :: 0 <= j < |chunks| ==> chunks[j].elapsed <= 10
    ensures var m := Marks(total, chunks);
      20 * LastOf(m) >= |m| * (total + 1)
    decreases |chunks|
  {
    if chunks != [] {
      var init := chunks[..|chunks| - 1];
      GapsAccumulate(total, init);
      MarksBounds(total, init);
      var prev := Marks(total, init);
      var m := Marks(total, chunks);
      var c := chunks[|chunks| - 1];
      if c.length > 0 && Fires(total, Sum(chunks), LastOf(prev), c.elapsed) {
        assert m == prev + [Sum(chunks)];
        assert c.elapsed - LastOf(prev) <= 10;
        GapStep(|prev|, total, LastOf(prev), Sum(chunks));
      } else {
        assert m == prev;
      }
    }
  }

  /** One more gap of more than `total` (times 20) adds one more `total + 1` to the bound. */
  lemma GapStep(n: nat, total: int, last: int, next: int)
    requires 20 * last >= n * (total + 1)
    requires 20 * (next - last) > total
    ensures 20 * next >= (n + 1) * (total + 1)
  {
    assert (n + 1) * (total + 1) == n * (total + 1) + (total + 1);
  }

  /**
   * When the body is no longer than advertised and the clock clause stays
   * quiet, at most 19 updates are sent.
   */
  lemma UpdateCountBound(total: int, chunks: seq<Chunk>)
    requires Sum(chunks) <= total
    requires forall j :: 0 <= j < |chunks| ==> chunks[j].elapsed <= 10
    ensures |Marks(total, chunks)| <= 19
  {
    var m := Marks(total, chunks);
    if total <= 0 {
      NoLengthNoUpdates(total, chunks);
    } else {
      GapsAccumulate(total, chunks);
      MarksBounds(total, chunks);
      assert |m| * (total + 1) < 20 * (total + 1);
      if |m| >= 20 {
        MulMonotone(|m|, 20, total + 1);
      }
    }
  }

  /**
   * The clock clause fires on a slow first chunk whatever its size: before
   * the first update `last` is 0, so more than ten seconds is enough.
   */
  lemma SlowFirstChunkFires(total: int, length: nat, elapsed: int)
    requires total > 0 && length > 0 && elapsed > 10
    ensures Marks(total, [Chunk(length, elapsed)]) == [length]
  {
    var c := [Chunk(length, elapsed)];
    assert c[..0] == [];
    assert Sum(c) == length;
    assert Marks(total, c[..0]) == [];
  }
}
