/** Properties of the chunking model: each window in closed form, coverage
    of every character, the exact overlap between neighbouring windows,
    reassembly of the text from its chunks, and concrete cases. Each
    property is proved first of the loop's windows (`Slide`), where window
    `i` starts `Times(i, step)` characters in, and then carried over to
    `ChunkText`, where the start is stated as `i * step`. */
module ChunkProofs {
  import opened Wrappers
  import opened Chunking
  import opened Arith

  // ---------------------------------------------------------------------
  // The windows of the loop.

  /** Window `i` of the loop that starts at `start` is the slice
      `[start + i*step, min(start + i*step + width, |text|))`. */
  lemma {:induction false} SlideWindow(text: string, start: nat, step: nat, width: nat, i: nat)
    requires 1 <= step <= width
    requires i < |Slide(text, start, step, width)|
    ensures start + Times(i, step) < |text|
    ensures Slide(text, start, step, width)[i]
            == text[start + Times(i, step)..Min(start + Times(i, step) + width, |text|)]
    decreases i
  {
    if i > 0 {
      var rest := Slide(text, start + step, step, width);
      assert Slide(text, start, step, width)[i] == rest[i - 1];
      SlideWindow(text, start + step, step, width, i - 1);
      assert start + Times(i, step) == (start + step) + Times(i - 1, step);
    }
  }

  /** The same window with its start written as a product. */
  lemma WindowAt(text: string, chunks: seq<string>, step: nat, width: nat, i: nat)
    requires 1 <= step <= width && chunks == Slide(text, 0, step, width)
    requires i < |chunks|
    ensures i * step < |text| && chunks[i] == text[i * step..Min(i * step + width, |text|)]
  {
    SlideWindow(text, 0, step, width, i);
    TimesIsProduct(i, step);
  }

  /** A slice of a slice is a slice. */
  lemma SubSlice(t: string, lo: int, hi: int, a: int, b: int)
    requires 0 <= lo <= hi <= |t|
    requires 0 <= a <= b <= hi - lo
    ensures t[lo..hi][a..b] == t[lo + a..lo + b]
  {
    var u, v := t[lo..hi][a..b], t[lo + a..lo + b];
    assert |u| == |v|;
    forall k | 0 <= k < |u|
      ensures u[k] == v[k]
    {
    }
  }

  /** Ceiling division has exactly one result. */
  lemma CeilDivUnique(a: nat, b: nat, q: nat)
    requires b > 0
    requires a <= Times(q, b)
    requires q == 0 || Times(q - 1, b) < a
    ensures q == CeilDiv(a, b)
  {
    var c := CeilDiv(a, b);
    TimesIsProduct(q, b);
    TimesIsProduct(c, b);
    if q > 0 {
      TimesIsProduct(q - 1, b);
      MulOrder(q - 1, c, b);
    }
    if c > 0 {
      TimesIsProduct(c - 1, b);
      MulOrder(c - 1, q, b);
    }
  }

  /** The loop from 0 emits `ceil(|text| / step)` windows. */
  lemma SlideLength(text: string, step: nat, width: nat)
    requires 1 <= step <= width
    ensures |Slide(text, 0, step, width)| == CeilDiv(|text|, step)
  {
    var count := |Slide(text, 0, step, width)|;
    if |text| > 0 {
      SlideCount(text, 0, step, width);
      CeilDivUnique(|text|, step, count);
    }
  }

  /** Position `j` lies in the `j / step`-th stride, and that stride is one
      of the first `count` when `count` strides pass `j`. */
  lemma StrideOf(j: nat, step: nat, count: nat)
    requires 1 <= step
    requires j < Times(count, step)
    ensures 0 <= j / step < count
    ensures Times(j / step, step) <= j < Times(j / step, step) + step
  {
    var i := j / step;
    TimesIsProduct(i, step);
    TimesIsProduct(count, step);
    assert j == i * step + j % step;
    MulOrder(i, count, step);
  }

  /** Character `j` lies in window `j / step`, at offset `j - Times(j / step, step)`. */
  lemma SlideCoverage(text: string, step: nat, width: nat, j: int)
    requires 1 <= step <= width
    requires 0 <= j < |text|
    ensures var i := j / step;
            && 0 <= i < |Slide(text, 0, step, width)|
            && Times(i, step) <= j < Times(i, step) + |Slide(text, 0, step, width)[i]|
            && Slide(text, 0, step, width)[i][j - Times(i, step)] == text[j]
  {
    var chunks := Slide(text, 0, step, width);
    SlideCount(text, 0, step, width);
    StrideOf(j, step, |chunks|);
    SlideWindow(text, 0, step, width, j / step);
  }

  /** The last window ends the text. */
  lemma SlideLast(text: string, step: nat, width: nat)
    requires 1 <= step <= width
    requires |text| > 0
    ensures var chunks := Slide(text, 0, step, width);
            && |chunks| >= 1
            && Times(|chunks| - 1, step) < |text|
            && chunks[|chunks| - 1] == text[Times(|chunks| - 1, step)..]
  {
    var chunks := Slide(text, 0, step, width);
    SlideCount(text, 0, step, width);
    SlideWindow(text, 0, step, width, |chunks| - 1);
  }

  /** An unclipped window shares its last `width - step` characters with
      the first `width - step` of the next window. */
  lemma SlideOverlap(text: string, step: nat, width: nat, i: nat)
    requires 1 <= step <= width
    requires i + 1 < |Slide(text, 0, step, width)|
    requires Times(i, step) + width <= |text|
    ensures var chunks := Slide(text, 0, step, width);
            && |chunks[i]| == width
            && |chunks[i + 1]| >= width - step
            && chunks[i][step..] == chunks[i + 1][..width - step]
  {
    var chunks := Slide(text, 0, step, width);
    var s := Times(i, step);
    var e := Min(s + step + width, |text|);
    assert chunks[i] == text[s..s + width] by {
      SlideWindow(text, 0, step, width, i);
    }
    assert chunks[i + 1] == text[s + step..e] by {
      SlideWindow(text, 0, step, width, i + 1);
      assert Times(i + 1, step) == s + step;
    }
    AdjacentWindows(text, s, step, width, e);
  }

  /** A full window at `s` and the window at `s + step` share `width - step`
      characters. */
  lemma AdjacentWindows(text: string, s: nat, step: nat, width: nat, e: nat)
    requires step <= width
    requires s + width <= |text|
    requires e == Min(s + step + width, |text|)
    ensures e - (s + step) >= width - step
    ensures text[s..s + width][step..] == text[s + step..e][..width - step]
  {
    SubSlice(text, s, s + width, step, width);
    SubSlice(text, s + step, e, 0, width - step);
  }

  // ---------------------------------------------------------------------
  // The same facts of `ChunkText`.

  /** For a long text the chunks are the windows of the loop. */
  lemma ChunkTextIsSlide(text: string, chunkSize: int, overlap: int)
    requires 0 <= overlap < chunkSize < |text|
    ensures ChunkText(text, chunkSize, overlap)
            == Success(Slide(text, 0, Step(|text|, chunkSize, overlap), Width(|text|, chunkSize, overlap)))
  {
    var step := StepIsCeilQuot(|text|, chunkSize, overlap);
    ChunkTextSuccess(text, chunkSize, overlap, Step(|text|, chunkSize, overlap), Width(|text|, chunkSize, overlap));
  }

  /** The stride of the main domain is the one `chunk_text` computes with
      its two ceilings. */
  lemma StepIsCeilQuot(n: nat, chunkSize: nat, overlap: nat) returns (step: nat)
    requires overlap < chunkSize < n
    ensures step == CeilQuot(n, CeilQuot(n - overlap, chunkSize - overlap))
    ensures step == Step(n, chunkSize, overlap) && step + overlap == Width(n, chunkSize, overlap)
    ensures CeilQuot(n - overlap, chunkSize - overlap) != 0 && step > 0
  {
    var k := CeilQuot(n - overlap, chunkSize - overlap);
    assert k == NumChunks(n, chunkSize, overlap);
    step := CeilQuot(n, k);
  }

  /** A text longer than `chunkSize` is cut into `ceil(n / step)` chunks,
      with `step = ceil(n / numChunks)`. */
  lemma ChunkCount(text: string, chunkSize: int, overlap: int)
    requires 0 <= overlap < chunkSize < |text|
    ensures ChunkText(text, chunkSize, overlap).Success?
    ensures |ChunkText(text, chunkSize, overlap).value| == CeilDiv(|text|, Step(|text|, chunkSize, overlap))
  {
    ChunkTextIsSlide(text, chunkSize, overlap);
    SlideLength(text, Step(|text|, chunkSize, overlap), Width(|text|, chunkSize, overlap));
  }

  /** Chunk `i` of a long text is exactly
      `text[i*step .. min(i*step + step + overlap, n)]`. */
  lemma ChunkWindows(text: string, chunkSize: int, overlap: int, i: int)
    requires 0 <= overlap < chunkSize < |text|
    requires 0 <= i < |ChunkText(text, chunkSize, overlap).value|
    ensures var step := Step(|text|, chunkSize, overlap);
            && i * step < |text|
            && ChunkText(text, chunkSize, overlap).value[i]
               == text[i * step..Min(i * step + Width(|text|, chunkSize, overlap), |text|)]
  {
    var step := Step(|text|, chunkSize, overlap);
    ChunkTextIsSlide(text, chunkSize, overlap);
    WindowAt(text, ChunkText(text, chunkSize, overlap).value, step, Width(|text|, chunkSize, overlap), i);
  }

  /** Every character of a long text lies in chunk `j / step`, at offset
      `j - (j / step) * step`. */
  lemma Coverage(text: string, chunkSize: int, overlap: int, j: int)
    requires 0 <= overlap < chunkSize < |text|
    requires 0 <= j < |text|
    ensures var chunks := ChunkText(text, chunkSize, overlap).value;
            var step := Step(|text|, chunkSize, overlap);
            var i := j / step;
            && 0 <= i < |chunks|
            && i * step <= j < i * step + |chunks[i]|
            && chunks[i][j - i * step] == text[j]
  {
    var step := Step(|text|, chunkSize, overlap);
    ChunkTextIsSlide(text, chunkSize, overlap);
    SlideCoverage(text, step, Width(|text|, chunkSize, overlap), j);
    TimesIsProduct(j / step, step);
  }

  /** Every character lies in some chunk, whatever the length of the text. */
  lemma EveryCharacterCovered(text: string, chunkSize: int, overlap: int, j: int)
    requires 0 <= overlap <= chunkSize
    requires overlap < chunkSize || |text| <= chunkSize
    requires 0 <= j < |text|
    ensures ChunkText(text, chunkSize, overlap).Success?
    ensures exists i, k :: 0 <= i < |ChunkText(text, chunkSize, overlap).value| &&
              0 <= k < |ChunkText(text, chunkSize, overlap).value[i]| &&
              ChunkText(text, chunkSize, overlap).value[i][k] == text[j]
  {
    var chunks := ChunkText(text, chunkSize, overlap).value;
    if |text| <= chunkSize {
      assert chunks[0][j] == text[j];
    } else {
      Coverage(text, chunkSize, overlap, j);
      var step := Step(|text|, chunkSize, overlap);
      var i := j / step;
      assert chunks[i][j - i * step] == text[j];
    }
  }

  /** The first chunk starts the text and the last chunk ends it. */
  lemma FirstAndLastChunk(text: string, chunkSize: int, overlap: int)
    requires 0 <= overlap < chunkSize < |text|
    ensures var chunks := ChunkText(text, chunkSize, overlap).value;
            var last := Times(|chunks| - 1, Step(|text|, chunkSize, overlap));
            && |chunks| >= 2
            && last < |text|
            && chunks[0] == text[..Min(Width(|text|, chunkSize, overlap), |text|)]
            && chunks[|chunks| - 1] == text[last..]
  {
    var step := Step(|text|, chunkSize, overlap);
    ChunkTextIsSlide(text, chunkSize, overlap);
    ChunkBounds(text, chunkSize, overlap);
    SlideLast(text, step, step + overlap);
    SlideWindow(text, 0, step, step + overlap, 0);
  }

  /** A chunk that is not clipped at the end of the text shares exactly
      `overlap` characters with the next chunk: its last `overlap`
      characters are the next chunk's first `overlap`. */
  lemma OverlapWithNext(text: string, chunkSize: int, overlap: int, i: nat)
    requires 0 <= overlap < chunkSize < |text|
    requires i + 1 < |ChunkText(text, chunkSize, overlap).value|
    requires i * Step(|text|, chunkSize, overlap) + Width(|text|, chunkSize, overlap) <= |text|
    ensures var chunks := ChunkText(text, chunkSize, overlap).value;
            var step := Step(|text|, chunkSize, overlap);
            && |chunks[i]| == step + overlap
            && |chunks[i + 1]| >= overlap
            && chunks[i][step..] == chunks[i + 1][..overlap]
  {
    var step := Step(|text|, chunkSize, overlap);
    ChunkTextIsSlide(text, chunkSize, overlap);
    TimesIsProduct(i, step);
    SlideOverlap(text, step, step + overlap, i);
  }

  // ---------------------------------------------------------------------
  // Reassembly: the inverse of chunking.

  /** Drops the first `overlap` characters of a chunk (all of it if shorter). */
  function DropOverlap(c: string, overlap: nat): (d: string)
    ensures |d| == |c| - Min(overlap, |c|)
    ensures c == c[..Min(overlap, |c|)] + d
  {
    c[Min(overlap, |c|)..]
  }

  /** Concatenates the chunks, each minus the characters it shares with
      its predecessor. */
  function Glue(chunks: seq<string>, overlap: nat): string
  {
    if |chunks| == 0 then "" else DropOverlap(chunks[0], overlap) + Glue(chunks[1..], overlap)
  }

  /** Glues chunks back together: the first chunk whole, then each later
      chunk without its first `overlap` characters. */
  function Reassemble(chunks: seq<string>, overlap: nat): string
  {
    if |chunks| == 0 then "" else chunks[0] + Glue(chunks[1..], overlap)
  }

  /** The loop's windows after the first. */
  lemma SlideTail(text: string, start: nat, step: nat, width: nat)
    requires 1 <= step <= width
    requires start < |text|
    ensures Slide(text, start, step, width)[0] == text[start..Min(start + width, |text|)]
    ensures Slide(text, start, step, width)[1..] == Slide(text, start + step, step, width)
  {
  }

  /** Gluing the windows from `start` on, each minus its first `overlap`
      characters, gives the text from `start + overlap` to the end: the
      window from `start` ends exactly where the next one, minus its
      overlap, begins. */
  lemma {:induction false} GlueSlide(text: string, start: nat, step: nat, overlap: nat)
    requires 1 <= step
    ensures Glue(Slide(text, start, step, step + overlap), overlap) == text[Min(start + overlap, |text|)..]
    decreases |text| - start
  {
    if start < |text| {
      var chunks := Slide(text, start, step, step + overlap);
      var e := Min(start + step + overlap, |text|);
      var a := Min(start + overlap, |text|);
      SlideTail(text, start, step, step + overlap);
      assert DropOverlap(chunks[0], overlap) == text[a..e] by {
        DropWindowOverlap(text, start, e, overlap);
      }
      var rest := Slide(text, start + step, step, step + overlap);
      assert Glue(rest, overlap) == text[e..] by {
        GlueSlide(text, start + step, step, overlap);
      }
      assert chunks[1..] == rest;
      GlueCons(chunks, overlap);
      Rejoin(text, a, e);
    } else {
      assert Slide(text, start, step, step + overlap) == [];
    }
  }

  /** Gluing a non-empty list drops the overlap of its first chunk. */
  lemma GlueCons(chunks: seq<string>, overlap: nat)
    requires |chunks| > 0
    ensures Glue(chunks, overlap) == DropOverlap(chunks[0], overlap) + Glue(chunks[1..], overlap)
  {
  }

  /** A window minus its first `overlap` characters is the text from
      `overlap` characters past the window's start to the window's end. */
  lemma DropWindowOverlap(text: string, start: nat, e: nat, overlap: nat)
    requires start <= e <= |text|
    ensures DropOverlap(text[start..e], overlap) == text[Min(start + overlap, e)..e]
  {
    SubSlice(text, start, e, Min(overlap, e - start), e - start);
  }

  /** Two adjacent slices of the text rejoin to one. */
  lemma Rejoin(text: string, a: nat, e: nat)
    requires a <= e <= |text|
    ensures text[a..e] + text[e..] == text[a..]
  {
  }

  /** The loop's windows of a non-empty text reassemble to the text. */
  lemma ReassembleSlide(text: string, step: nat, overlap: nat)
    requires 1 <= step
    requires |text| > 0
    ensures Reassemble(Slide(text, 0, step, step + overlap), overlap) == text
  {
    var e := Min(step + overlap, |text|);
    SlideTail(text, 0, step, step + overlap);
    GlueSlide(text, step, step, overlap);
    Rejoin(text, 0, e);
  }

  /** Chunking loses nothing: reassembling the chunks, dropping each one's
      overlap with its predecessor, gives back the text. */
  lemma ReassembleChunks(text: string, chunkSize: int, overlap: int)
    requires 0 <= overlap <= chunkSize
    requires overlap < chunkSize || |text| <= chunkSize
    ensures ChunkText(text, chunkSize, overlap).Success?
    ensures Reassemble(ChunkText(text, chunkSize, overlap).value, overlap) == text
  {
    if |text| <= chunkSize {
      assert ChunkText(text, chunkSize, overlap).value[1..] == [];
    } else {
      ChunkTextIsSlide(text, chunkSize, overlap);
      ReassembleSlide(text, Step(|text|, chunkSize, overlap), overlap);
    }
  }

  // ---------------------------------------------------------------------
  // Arguments outside the main domain.

  /** `chunk_text` has no guard on its arguments. On a text longer than
      `chunkSize`, an overlap of at least `chunkSize` that does not exceed
      the text makes it fail (a zero divisor, or a stride of zero or less);
      an overlap longer than the text yields one window, the whole text. */
  lemma OverlapAtLeastSize(text: string, chunkSize: int, overlap: int)
    requires chunkSize < |text| && chunkSize <= overlap
    ensures 0 < |text| && overlap <= |text| ==> ChunkText(text, chunkSize, overlap).Failure?
    ensures |text| < overlap ==> ChunkText(text, chunkSize, overlap) == Success(if |text| == 0 then [] else [text])
  {
    var n := |text|;
    if n < overlap && overlap != chunkSize {
      var k := CeilQuot(n - overlap, chunkSize - overlap);
      assert k == 1;
      if n > 0 {
        assert CeilQuot(n, k) == n by {
          TimesIsProduct(CeilDiv(n, 1), 1);
          TimesIsProduct(CeilDiv(n, 1) - 1, 1);
        }
        assert Slide(text, n, n, n + overlap) == [];
        assert text[0..n] == text;
        assert Slide(text, 0, n, n + overlap) == [text];
        ChunkTextSuccess(text, chunkSize, overlap, n, n + overlap);
      }
    }
  }

  /** A negative overlap leaves gaps: ten characters with size 4 and overlap
      -2 give two windows of three characters, five apart, and characters
      3, 4, 8 and 9 are in no chunk. */
  lemma NegativeOverlapGaps(text: string)
    requires |text| == 10
    ensures ChunkText(text, 4, -2) == Success([text[0..3], text[5..8]])
  {
    assert CeilQuot(12, 6) == 2 by {
      CeilDivUnique(12, 6, 2);
    }
    assert CeilQuot(10, 2) == 5 by {
      CeilDivUnique(10, 2, 5);
    }
    assert Slide(text, 10, 5, 3) == [];
    assert Slide(text, 5, 5, 3) == [text[5..8]];
    assert Slide(text, 0, 5, 3) == [text[0..3], text[5..8]];
  }

  /** With a still more negative overlap the window end can fall below
      zero, and Python then counts it from the end of the text: ten
      characters with size 4 and overlap -7 give stride 5 and window width
      -2, so the first chunk is `text[0:-2]`, eight characters long, and the
      second, `text[5:3]`, is empty. */
  lemma NegativeEndCountsFromBack(text: string)
    requires |text| == 10
    ensures ChunkText(text, 4, -7) == Success([text[0..8], ""])
  {
    assert CeilQuot(17, 11) == 2 by {
      CeilDivUnique(17, 11, 2);
    }
    assert CeilQuot(10, 2) == 5 by {
      CeilDivUnique(10, 2, 5);
    }
    assert Slide(text, 10, 5, -2) == [];
    assert Slide(text, 5, 5, -2) == [""];
    assert Slide(text, 0, 5, -2) == [text[0..8], ""];
  }

  // ---------------------------------------------------------------------
  // Concrete cases.

  /** 2500 characters at the default size and overlap: three windows of 1034
      characters starting 834 apart, the last one clipped. */
  lemma DefaultExample(text: string)
    requires |text| == 2500
    ensures ChunkText(text, DefaultChunkSize, DefaultOverlap)
            == Success([text[0..1034], text[834..1868], text[1668..2500]])
  {
    assert NumChunks(2500, 1000, 200) == 3;
    assert Step(2500, 1000, 200) == 834;
    assert CeilDiv(2500, 834) == 3;
    ChunkCount(text, 1000, 200);
    ChunkWindows(text, 1000, 200, 0);
    ChunkWindows(text, 1000, 200, 1);
    ChunkWindows(text, 1000, 200, 2);
    var chunks := ChunkText(text, 1000, 200).value;
    assert chunks == [chunks[0], chunks[1], chunks[2]];
  }

  /** With the defaults no chunk is longer than 1100 characters, and an
      1800-character text reaches that bound: the window is re-balanced above
      the configured 1000. */
  lemma DefaultChunkLengthBound(text: string)
    ensures forall i :: 0 <= i < |ChunkText(text, DefaultChunkSize, DefaultOverlap).value| ==>
              |ChunkText(text, DefaultChunkSize, DefaultOverlap).value[i]| <= 1100
    ensures |text| == 1800 ==> |ChunkText(text, DefaultChunkSize, DefaultOverlap).value[0]| == 1100
  {
    if |text| > 1000 {
      ChunkBounds(text, 1000, 200);
    }
    if |text| == 1800 {
      assert NumChunks(1800, 1000, 200) == 2;
      assert Step(1800, 1000, 200) == 900;
      ChunkCount(text, 1000, 200);
      ChunkWindows(text, 1000, 200, 0);
    }
  }

  /** The loop can emit fewer windows than `NumChunks` by more than one: 21
      characters with size 12 and overlap 11 give `NumChunks == 10` but only
      seven windows of stride 3, the first 14 characters long. */
  lemma FewerChunksThanPlanned(text: string)
    requires |text| == 21
    ensures NumChunks(21, 12, 11) == 10
    ensures |ChunkText(text, 12, 11).value| == 7
    ensures |ChunkText(text, 12, 11).value[0]| == 14
  {
    assert NumChunks(21, 12, 11) == 10;
    assert Step(21, 12, 11) == 3;
    assert CeilDiv(21, 3) == 7;
    ChunkCount(text, 12, 11);
    ChunkWindows(text, 12, 11, 0);
  }
}
