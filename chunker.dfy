/** `chunk_text`: cuts a document into overlapping windows of `chunk_size`
    characters, the start advancing by `chunk_size - overlap`, then strips every
    window and drops the ones left empty. */
module Chunker {
  import opened PyText
  import opened Seqs

  /** The configured defaults (`CHUNK_SIZE`, `CHUNK_OVERLAP`). */
  const ChunkSize: int := 2000
  const ChunkOverlap: int := 200

  /** The windows the loop appends, before stripping. The loop terminates only
      when the start advances, hence `overlap < chunkSize`. */
  function RawWindows(text: string, chunkSize: int, overlap: int): seq<string>
    requires 0 < chunkSize && overlap < chunkSize
  {
    Windows(text, chunkSize, chunkSize - overlap, 0)
  }

  function StripAll(ws: seq<string>): (r: seq<string>)
    ensures |r| == |ws|
  {
    seq(|ws|, i requires 0 <= i < |ws| => Strip(ws[i]))
  }

  /** What `chunk_text` returns: `[w.strip() for w in windows if w.strip()]`.
      Every chunk is non-empty, at most `chunkSize` long and neither starts nor
      ends with whitespace; an empty text has no chunks. */
  function Chunks(text: string, chunkSize: int, overlap: int): (chunks: seq<string>)
    requires 0 < chunkSize && overlap < chunkSize
    ensures forall c :: c in chunks ==> 0 < |c| <= chunkSize && !IsSpace(c[0]) && !IsSpace(c[|c| - 1])
    ensures text == [] ==> chunks == []
  {
    var stripped := StripAll(RawWindows(text, chunkSize, overlap));
    StrippedWindowsBounded(text, chunkSize, overlap);
    Filter(stripped, NonEmpty)
  }

  lemma StrippedWindowsBounded(text: string, chunkSize: int, overlap: int)
    requires 0 < chunkSize && overlap < chunkSize
    ensures forall c :: c in StripAll(RawWindows(text, chunkSize, overlap)) ==> |c| <= chunkSize
  {
    var ws := RawWindows(text, chunkSize, overlap);
    var stripped := StripAll(ws);
    forall c | c in stripped ensures |c| <= chunkSize {
      var i :| 0 <= i < |stripped| && stripped[i] == c;
      assert ws[i] in ws;
    }
  }

  /** The `while start < len(text)` loop, followed by the strip-and-drop
      comprehension. */
  method ChunkText(text: string, chunkSize: int, overlap: int) returns (chunks: seq<string>)
    requires 0 < chunkSize && overlap < chunkSize
    ensures chunks == Chunks(text, chunkSize, overlap)
    ensures forall c :: c in chunks ==> 0 < |c| <= chunkSize
  {
    var step := chunkSize - overlap;
    var windows: seq<string> := [];
    var start: nat := 0;
    while start < |text|
      invariant windows + Windows(text, chunkSize, step, start) == RawWindows(text, chunkSize, overlap)
      decreases |text| - start
    {
      var end := Min(start + chunkSize, |text|);
      var rest := Windows(text, chunkSize, step, start + step);
      WindowsUnfold(text, chunkSize, step, start);
      assert windows + ([text[start..end]] + rest) == (windows + [text[start..end]]) + rest;
      windows := windows + [text[start..end]];
      start := start + step;
    }
    assert windows == RawWindows(text, chunkSize, overlap);
    chunks := Filter(StripAll(windows), NonEmpty);
  }

  /** The k-th window the loop cuts is `text[k*step : min(k*step + chunkSize, len(text))]`. */
  lemma RawWindowAt(text: string, chunkSize: int, overlap: int, k: nat)
    requires 0 < chunkSize && overlap < chunkSize
    requires k < |RawWindows(text, chunkSize, overlap)|
    ensures var start := k * (chunkSize - overlap);
      0 <= start < |text| &&
      RawWindows(text, chunkSize, overlap)[k] == text[start..Min(start + chunkSize, |text|)]
  {
    WindowAt(text, chunkSize, chunkSize - overlap, 0, k);
  }

  /** The loop runs `ceil(len(text) / step)` times: `n` windows with
      `(n - 1) * step < len(text) <= n * step`. */
  lemma RawWindowCount(text: string, chunkSize: int, overlap: int)
    requires 0 < chunkSize && overlap < chunkSize
    ensures var n := |RawWindows(text, chunkSize, overlap)|;
      var step := chunkSize - overlap;
      if text == [] then n == 0 else (n - 1) * step < |text| <= n * step
  {
    WindowsCount(text, chunkSize, chunkSize - overlap, 0);
  }

  /** With a non-negative overlap nothing is skipped: position `j` lies in window
      number `j / step`. */
  lemma RawWindowsCover(text: string, chunkSize: int, overlap: int, j: nat)
    requires 0 <= overlap < chunkSize && j < |text|
    ensures var ws := RawWindows(text, chunkSize, overlap);
      var k := j / (chunkSize - overlap);
      var start := k * (chunkSize - overlap);
      k < |ws| && start <= j < start + |ws[k]| && ws[k][j - start] == text[j]
  {
    WindowsCover(text, chunkSize, chunkSize - overlap, 0, j);
  }

  /** With a non-negative overlap, consecutive windows overlap: the end of a
      window from position `step` on is the start of the next one. That shared
      part is `overlap` characters long whenever the next window is at least
      that long, which means the earlier window has the full `chunkSize`. */
  lemma RawWindowsOverlap(text: string, chunkSize: int, overlap: int, k: nat)
    requires 0 <= overlap < chunkSize && k + 1 < |RawWindows(text, chunkSize, overlap)|
    ensures var ws := RawWindows(text, chunkSize, overlap);
      var step := chunkSize - overlap;
      step <= |ws[k]| && |ws[k]| - step <= |ws[k + 1]| && ws[k][step..] == ws[k + 1][..|ws[k]| - step] &&
      (|ws[k + 1]| >= overlap ==> |ws[k]| == chunkSize && |ws[k][step..]| == overlap)
  {
    ConsecutiveWindows(text, chunkSize, chunkSize - overlap, 0, k);
  }

  /** With the configured defaults the windows start every 1800 characters,
      and a window followed by one of at least 200 characters is 2000 characters
      long and hands its last 200 characters on to the next window. */
  lemma DefaultWindowsOverlap(text: string, k: nat)
    requires k + 1 < |RawWindows(text, ChunkSize, ChunkOverlap)|
    ensures var ws := RawWindows(text, ChunkSize, ChunkOverlap);
      1800 <= |ws[k]| && |ws[k]| - 1800 <= |ws[k + 1]| && ws[k][1800..] == ws[k + 1][..|ws[k]| - 1800] &&
      (|ws[k + 1]| >= 200 ==> |ws[k]| == 2000 && ws[k][1800..] == ws[k + 1][..200])
  {
    RawWindowsOverlap(text, ChunkSize, ChunkOverlap, k);
  }

  /** The chunks are the stripped windows that are not blank, in window order:
      chunk number k comes from window `ix[k]`, the window numbers increase, and
      every window left out strips to nothing. */
  lemma ChunksFollowWindows(text: string, chunkSize: int, overlap: int)
    requires 0 < chunkSize && overlap < chunkSize
    ensures var ws := RawWindows(text, chunkSize, overlap);
      var chunks := Chunks(text, chunkSize, overlap);
      var ix := FilterIndices(StripAll(ws), NonEmpty);
      |ix| == |chunks| &&
      (forall k :: 0 <= k < |ix| ==> ix[k] < |ws| && chunks[k] == Strip(ws[ix[k]])) &&
      (forall k :: 0 < k < |ix| ==> ix[k - 1] < ix[k]) &&
      (forall j :: 0 <= j < |ws| && j !in ix ==> Strip(ws[j]) == [])
  {
    var ws := RawWindows(text, chunkSize, overlap);
    FilterAt(StripAll(ws), NonEmpty);
    FilterIndicesIncrease(StripAll(ws), NonEmpty);
    FilterIndicesExact(StripAll(ws), NonEmpty);
  }

  /** Every chunk is a piece of the text: it occurs in it verbatim. */
  lemma ChunksOccurInText(text: string, chunkSize: int, overlap: int)
    requires 0 < chunkSize && overlap < chunkSize
    ensures forall c :: c in Chunks(text, chunkSize, overlap) ==> Contains(text, c)
  {
    var ws := RawWindows(text, chunkSize, overlap);
    var stripped := StripAll(ws);
    forall c | c in Chunks(text, chunkSize, overlap) ensures Contains(text, c) {
      assert c in stripped;
      var i :| 0 <= i < |stripped| && stripped[i] == c;
      var a, b := WindowIsSlice(text, chunkSize, chunkSize - overlap, 0, i);
      StrippedSliceOccurs(text, a, b);
    }
  }

  lemma StrippedSliceOccurs(text: string, start: nat, end: nat)
    requires start <= end <= |text|
    ensures Contains(text, Strip(text[start..end]))
  {
    var w := text[start..end];
    var c := Strip(w);
    var lead := LeadingSpaces(w);
    assert w[lead..lead + |c|] == c;
    SliceOfSlice(text, start, end, lead, lead + |c|);
    assert OccursAt(text, c, start + lead);
  }
}
