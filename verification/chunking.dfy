/** `FileProcessor.chunk_text`: splitting extracted text into overlapping
    windows. A text that fits in one window is returned whole. Otherwise the
    number of windows `NumChunks` needed at the configured size is computed
    first, the window is then re-balanced to `Step + overlap` characters,
    and windows start `Step` characters apart, the last one clipped at the
    end of the text. */
module Chunking {
  import opened Wrappers
  import opened Arith

  /** Defaults of the backend configuration (`CHUNK_SIZE`, `CHUNK_OVERLAP`). */
  const DefaultChunkSize: int := 1000
  const DefaultOverlap: int := 200

  /** How `chunk_text` fails on a text longer than `chunk_size` when
      `overlap >= chunk_size`: a division by zero (`ZeroDivisionError`)
      while the window count or stride is computed, or a stride of zero or
      less, with which the `while` loop never ends. */
  datatype ChunkError = DivisionByZero | LoopNeverEnds

  function Min(a: int, b: int): int
  {
    if a <= b then a else b
  }

  /** Python's `text[lo:hi]` for `0 <= lo <= len(text)` and
      `hi <= len(text)`: a negative `hi` counts from the end of the text
      (and stops at its start), and the slice is empty when the end does
      not lie after `lo`. */
  function PySlice(text: string, lo: nat, hi: int): (s: string)
    requires lo <= |text| && hi <= |text|
    ensures 0 <= hi ==> |s| == if hi <= lo then 0 else hi - lo
    ensures lo < hi ==> s == text[lo..hi]
    ensures hi < 0 ==> s == if lo < hi + |text| then text[lo..hi + |text|] else ""
  {
    var end := if hi >= 0 then hi else if hi + |text| >= 0 then hi + |text| else 0;
    if end <= lo then "" else text[lo..end]
  }

  // ---------------------------------------------------------------------
  // Integer arithmetic.

  /** `k * b` written as repeated addition. Window `k` of a stride-`b` loop
      starts `Times(k, b)` characters in. Keeping it recursive lets the
      proofs about windows reason linearly; `TimesIsProduct` shows it is the
      product. */
  function Times(k: nat, b: nat): nat
  {
    if k == 0 then 0 else Times(k - 1, b) + b
  }

  lemma {:induction false} TimesIsProduct(k: nat, b: nat)
    ensures Times(k, b) == k * b
  {
    if k > 0 {
      TimesIsProduct(k - 1, b);
    }
  }

  /** Ceiling of `a / b`: the least `q` whose `q` copies of `b` reach `a`. */
  function CeilDiv(a: nat, b: nat): (q: nat)
    requires b > 0
    ensures a <= Times(q, b)
    ensures q == 0 || Times(q - 1, b) < a
  {
    var f := a / b;
    assert a == f * b + a % b;
    TimesIsProduct(f, b);
    TimesIsProduct(f + 1, b);
    if a % b == 0 then f else f + 1
  }

  /** Floor of `a / b`. */
  function FloorDiv(a: nat, b: nat): (q: nat)
    requires b > 0
    ensures Times(q, b) <= a < Times(q, b) + b
  {
    var f := a / b;
    assert a == f * b + a % b;
    TimesIsProduct(f, b);
    f
  }

  /** Python's `ceil(a / b)` for integers of any sign, computed exactly:
      positive exactly when the quotient is, zero exactly when the quotient
      lies in `(-1, 0]`. */
  function CeilQuot(a: int, b: int): (q: int)
    requires b != 0
    ensures q >= 1 <==> (a > 0 && b > 0) || (a < 0 && b < 0)
    ensures q == 0 <==> (b > 0 && -b < a <= 0) || (b < 0 && 0 <= a < -b)
    ensures a >= 0 && b > 0 ==> q == CeilDiv(a, b)
    decreases if b < 0 then 1 else 0
  {
    if b < 0 then CeilQuot(-a, -b)
    else if a >= 0 then CeilDiv(a, b)
    else
      var f := FloorDiv(-a, b);
      assert f == 0 <==> -a < b by {
        if f >= 1 {
          TimesPositive(f, b);
        }
      }
      -(f as int)
  }

  /** The value of `CeilQuot` for operands of every sign: `q` is the integer
      with `q - 1 < a / b <= q`, written with products instead of the
      division (a negative `b` turns the inequalities round). */
  lemma {:induction false} CeilQuotBounds(a: int, b: int)
    requires b != 0
    ensures var q := CeilQuot(a, b);
            && (b > 0 ==> (q - 1) * b < a <= q * b)
            && (b < 0 ==> q * b <= a < (q - 1) * b)
    decreases if b < 0 then 1 else 0
  {
    var q := CeilQuot(a, b);
    if b < 0 {
      CeilQuotBounds(-a, -b);
      assert (q - 1) * -b == -((q - 1) * b);
      assert q * -b == -(q * b);
    } else if a >= 0 {
      TimesIsProduct(q, b);
      if q > 0 {
        TimesIsProduct(q - 1, b);
      }
    } else {
      var f := FloorDiv(-a, b);
      TimesIsProduct(f, b);
      assert q == -f;
      assert (q - 1) * b == -(f * b) - b;
      assert q * b == -(f * b);
    }
  }

  /** At least one copy of `b` is at least `b`. */
  lemma TimesPositive(k: nat, b: nat)
    requires k >= 1
    ensures Times(k, b) >= b
  {
  }

  /** The number of windows of `chunkSize` characters, advancing by
      `chunkSize - overlap`, needed to reach the end of a text of length `n`:
      the least `k` whose `k` windows span at least `n` characters. */
  function NumChunks(n: nat, chunkSize: nat, overlap: nat): (k: nat)
    requires overlap < chunkSize < n
    ensures k >= 2
    ensures n <= Times(k, chunkSize - overlap) + overlap
    ensures Times(k - 1, chunkSize - overlap) + overlap < n
  {
    var k := CeilDiv(n - overlap, chunkSize - overlap);
    assert k != 0 && k != 1;
    k
  }

  /** A stride whose `k >= 2` copies just reach `n >= 2` is positive and
      shorter than `n`. */
  lemma StrideRange(n: nat, k: nat, s: nat)
    requires 2 <= k && 2 <= n
    requires n <= Times(s, k)
    requires s == 0 || Times(s - 1, k) < n
    ensures 1 <= s < n
  {
    TimesIsProduct(s, k);
    if s >= 1 {
      TimesIsProduct(s - 1, k);
      MulOrder(s - 1, n - 1, k);
      MulMonotone(2, k, n - 1);
    }
  }

  /** The distance `ceil(n / numChunks)` between window starts for a text of
      length `n` that does not fit in one window: the least stride whose
      `numChunks` copies reach the end of the text. */
  function Step(n: nat, chunkSize: nat, overlap: nat): (step: nat)
    requires overlap < chunkSize < n
    ensures 1 <= step < n
    ensures n <= Times(NumChunks(n, chunkSize, overlap), step)
    ensures Times(NumChunks(n, chunkSize, overlap), step - 1) < n
  {
    var k := NumChunks(n, chunkSize, overlap);
    var s := CeilDiv(n, k);
    StrideRange(n, k, s);
    TimesCommutes(s, k);
    TimesCommutes(s - 1, k);
    s
  }

  lemma TimesCommutes(a: nat, b: nat)
    ensures Times(a, b) == Times(b, a)
  {
    TimesIsProduct(a, b);
    TimesIsProduct(b, a);
  }

  /** The re-balanced window length `ceil(n / numChunks) + overlap`. It may
      be longer than `chunkSize`, but by at most half the overlap, rounded
      up. */
  function Width(n: nat, chunkSize: nat, overlap: nat): (w: nat)
    requires overlap < chunkSize < n
    ensures w > overlap
    ensures 2 * w <= 2 * chunkSize + overlap + 1
  {
    HalfOverlapBound(n, chunkSize, overlap, NumChunks(n, chunkSize, overlap), Step(n, chunkSize, overlap));
    Step(n, chunkSize, overlap) + overlap
  }

  // ---------------------------------------------------------------------
  // The windows.

  /** The windows that the loop of `chunk_text` emits from position `start`
      on: `width` characters each (clipped at the end of the text), starting
      `step` apart, for as long as the start lies inside the text. */
  function Slide(text: string, start: nat, step: nat, width: int): (chunks: seq<string>)
    requires 1 <= step
    ensures start >= |text| <==> |chunks| == 0
    decreases |text| - start
  {
    if start >= |text| then []
    else [PySlice(text, start, Min(start + width, |text|))] + Slide(text, start + step, step, width)
  }

  /** Every window is non-empty and at most `width` long. */
  lemma {:induction false} SlideLengths(text: string, start: nat, step: nat, width: int)
    requires 1 <= step <= width
    ensures forall i :: 0 <= i < |Slide(text, start, step, width)| ==>
              0 < |Slide(text, start, step, width)[i]| <= width
    decreases |text| - start
  {
    if start < |text| {
      SlideLengths(text, start + step, step, width);
    }
  }

  /** The loop emits the least number of windows whose strides reach the
      end of the text: `ceil((|text| - start) / step)`. */
  lemma {:induction false} SlideCount(text: string, start: nat, step: nat, width: int)
    requires 1 <= step
    requires start < |text|
    ensures |text| - start <= Times(|Slide(text, start, step, width)|, step)
    ensures Times(|Slide(text, start, step, width)| - 1, step) < |text| - start
    decreases |text| - start
  {
    var rest := Slide(text, start + step, step, width);
    assert |Slide(text, start, step, width)| == |rest| + 1;
    if start + step < |text| {
      SlideCount(text, start + step, step, width);
      assert Times(|rest| + 1, step) == Times(|rest|, step) + step;
      if |rest| > 0 {
        assert Times(|rest|, step) == Times(|rest| - 1, step) + step;
      }
    }
  }

  /** The model of `chunk_text(text, chunk_size, overlap)`, for integer
      arguments of any sign. */
  function ChunkText(text: string, chunkSize: int, overlap: int): (r: Result<seq<string>, ChunkError>)
    ensures |text| <= chunkSize ==> r == Success([text])
    ensures r.Failure? ==> |text| > chunkSize && overlap >= chunkSize
    ensures r.Success? && |text| > 0 ==> |r.value| >= 1
  {
    var n := |text|;
    if n <= chunkSize then Success([text])
    else if overlap == chunkSize then Failure(DivisionByZero)
    else
      var numChunks := CeilQuot(n - overlap, chunkSize - overlap);
      if numChunks == 0 then Failure(DivisionByZero)
      else
        var step := CeilQuot(n, numChunks);
        if n == 0 then Success([])
        else if step <= 0 then Failure(LoopNeverEnds)
        else Success(Slide(text, 0, step, step + overlap))
  }

  /** When the window count is non-zero and the stride positive, the
      chunks are the loop's windows of that stride. */
  lemma ChunkTextSuccess(text: string, chunkSize: int, overlap: int, step: int, width: int)
    requires |text| > chunkSize && overlap != chunkSize
    requires CeilQuot(|text| - overlap, chunkSize - overlap) != 0
    requires step == CeilQuot(|text|, CeilQuot(|text| - overlap, chunkSize - overlap))
    requires step > 0 && width == step + overlap
    ensures ChunkText(text, chunkSize, overlap) == Success(Slide(text, 0, step, width))
  {
  }

  /** `chunk_text` as the source writes it: a `while` loop that appends one
      window per iteration and advances by `chunk_size - overlap`. A stride
      of zero or less is reported instead of entered. */
  method ChunkTextLoop(text: string, chunkSize: int, overlap: int) returns (r: Result<seq<string>, ChunkError>)
    ensures r == ChunkText(text, chunkSize, overlap)
  {
    var n := |text|;
    if n <= chunkSize {
      return Success([text]);
    }
    if chunkSize - overlap == 0 {
      return Failure(DivisionByZero);
    }
    var numChunks := CeilQuot(n - overlap, chunkSize - overlap);
    if numChunks == 0 {
      return Failure(DivisionByZero);
    }
    var size := CeilQuot(n, numChunks) + overlap;
    if size - overlap <= 0 {
      if n == 0 {
        return Success([]);
      }
      return Failure(LoopNeverEnds);
    }
    var step: nat := size - overlap;
    ghost var all := Slide(text, 0, step, size);
    var chunks: seq<string> := [];
    var start := 0;
    while start < n
      invariant chunks + Slide(text, start, step, size) == all
      decreases n - start
    {
      var end := Min(start + size, n);
      ghost var rest := Slide(text, start + step, step, size);
      assert Slide(text, start, step, size) == [PySlice(text, start, end)] + rest;
      assert chunks + ([PySlice(text, start, end)] + rest) == (chunks + [PySlice(text, start, end)]) + rest;
      chunks := chunks + [PySlice(text, start, end)];
      start := start + step;
    }
    assert chunks == all;
    assert ChunkText(text, chunkSize, overlap) == Success(all);
    return Success(chunks);
  }

  // ---------------------------------------------------------------------
  // Bounds.

  /** Since `k` strides reach the end of the text, the loop emits at most
      `k` windows; and since a stride is shorter than the text, at least two. */
  lemma CountWithinNumChunks(n: nat, k: nat, step: nat, count: nat)
    requires 2 <= k && 1 <= step < n
    requires n <= Times(k, step)
    requires n <= Times(count, step)
    requires count == 0 || Times(count - 1, step) < n
    ensures 2 <= count <= k
  {
    TimesIsProduct(k, step);
    TimesIsProduct(count, step);
    if count >= 1 {
      TimesIsProduct(count - 1, step);
      MulOrder(count - 1, k, step);
    }
    assert count != 0 && count != 1;
  }

  /** A text that does not fit in one window gives at least two and at most
      `NumChunks` chunks, none empty and none longer than the re-balanced
      window `Width`. */
  lemma ChunkBounds(text: string, chunkSize: int, overlap: int)
    requires 0 <= overlap < chunkSize < |text|
    ensures ChunkText(text, chunkSize, overlap).Success?
    ensures 2 <= |ChunkText(text, chunkSize, overlap).value| <= NumChunks(|text|, chunkSize, overlap)
    ensures forall i :: 0 <= i < |ChunkText(text, chunkSize, overlap).value| ==>
              0 < |ChunkText(text, chunkSize, overlap).value[i]| <= Width(|text|, chunkSize, overlap)
  {
    var n := |text|;
    var step := Step(n, chunkSize, overlap);
    SlideCount(text, 0, step, step + overlap);
    SlideLengths(text, 0, step, step + overlap);
    CountWithinNumChunks(n, NumChunks(n, chunkSize, overlap), step, |Slide(text, 0, step, step + overlap)|);
  }

  /** Arithmetic core of the bound on `Width`. */
  lemma HalfOverlapBound(n: nat, chunkSize: nat, overlap: nat, k: nat, step: nat)
    requires overlap < chunkSize && 2 <= k && 1 <= step
    requires n <= Times(k, chunkSize - overlap) + overlap
    requires Times(k, step - 1) < n
    ensures 2 * (step + overlap) <= 2 * chunkSize + overlap + 1
  {
    TimesIsProduct(k, chunkSize - overlap);
    TimesIsProduct(k, step - 1);
    var d := step - 1 - (chunkSize - overlap);
    assert d * k < overlap by {
      assert d * k == k * (step - 1) - k * (chunkSize - overlap);
    }
    if d >= 0 {
      MulMonotone(2, k, d);
    }
  }
}
