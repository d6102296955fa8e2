/** Splitting a document into overlapping character windows. */
module Chunker {
  import opened Text

  datatype Chunk = Chunk(index: nat, start: nat, end: nat, text: string)

  const USIZE_MAX: nat := 0xFFFF_FFFF_FFFF_FFFF

  /** No Rust allocation, hence no text, is longer. */
  const ISIZE_MAX: nat := 0x7FFF_FFFF_FFFF_FFFF

  predicate Blank(s: string) { Trim(s) == "" }

  function Least(a: nat, b: nat): (r: nat) { if a < b then a else b }

  /** The window size and the distance between window starts. */
  function Size(maxChars: nat): (n: nat) ensures n >= 1 { if maxChars < 1 then 1 else maxChars }

  function Stride(maxChars: nat, overlap: nat): (n: nat)
    ensures 1 <= n <= Size(maxChars)
  {
    Size(maxChars) - Least(overlap, Size(maxChars) - 1)
  }

  /** Windows hold at least one character, and each shares the overlap with the next, short of standing still. */
  lemma WindowsOverlap(maxChars: nat, overlap: nat, k: nat)
    ensures Size(maxChars) == if maxChars == 0 then 1 else maxChars
    ensures var size, stride := Size(maxChars), Stride(maxChars, overlap);
      StartOf(stride, k) + size - StartOf(stride, k + 1) == if overlap < size then overlap else size - 1
    ensures StartOf(Stride(maxChars, overlap), 0) == 0
  {
    var stride := Stride(maxChars, overlap);
    assert StartOf(stride, k + 1) == StartOf(stride, k) + stride;
  }

  /** Where window `k` starts. */
  function StartOf(stride: nat, k: nat): (n: nat)
  {
    if k == 0 then 0 else StartOf(stride, k - 1) + stride
  }

  lemma {:induction false} StartMonotone(stride: nat, j: nat, k: nat)
    requires j <= k
    ensures StartOf(stride, j) <= StartOf(stride, k)
  {
    if j < k { StartMonotone(stride, j, k - 1); }
  }

  /** Window `k` exists: it is the first of a non-empty text, or the one before it stops short of the end. */
  predicate IsWindow(len: nat, size: nat, stride: nat, k: nat)
  {
    if k == 0 then len > 0 else StartOf(stride, k - 1) + size < len
  }

  /** A chunk is window `k` of the text, cut exactly. */
  predicate Cut(c: Chunk, text: string, size: nat, stride: nat, k: nat)
  {
    && IsWindow(|text|, size, stride, k) && StartOf(stride, k) < |text|
    && c.start == StartOf(stride, k) && c.end == Least(StartOf(stride, k) + size, |text|)
    && c.text == text[c.start..c.end] && !Blank(c.text)
  }

  ghost predicate CutSomewhere(c: Chunk, text: string, size: nat, stride: nat)
  {
    exists k: nat :: Cut(c, text, size, stride, k)
  }

  /** Position `p` of the text lies in one of the chunks. */
  predicate Covers(chunks: seq<Chunk>, p: nat)
  {
    exists i :: 0 <= i < |chunks| && chunks[i].start <= p < chunks[i].end
  }

  /** Numbered from zero, each reaching further at both ends than the one before. */
  predicate Advancing(chunks: seq<Chunk>)
  {
    && (forall i :: 0 <= i < |chunks| ==> chunks[i].index == i)
    && forall i, j :: 0 <= i < j < |chunks| ==> chunks[i].start < chunks[j].start && chunks[i].end < chunks[j].end
  }

  lemma CoversMore(chunks: seq<Chunk>, c: Chunk, p: nat)
    requires Covers(chunks, p)
    ensures Covers(chunks + [c], p)
  {
    var i :| 0 <= i < |chunks| && chunks[i].start <= p < chunks[i].end;
    assert (chunks + [c])[i] == chunks[i];
  }

  lemma NonBlankWindow(text: string, start: nat, end: nat, p: nat)
    requires start <= p < end <= |text| && !IsWhitespace(text[p])
    ensures !Blank(text[start..end])
  {
    TrimFacts(text[start..end]);
    assert text[start..end][p - start] == text[p];
  }

  ghost predicate VisibleCovered(chunks: seq<Chunk>, text: string, upTo: nat)
    requires upTo <= |text|
  {
    forall p: nat :: p < upTo && !IsWhitespace(text[p]) ==> Covers(chunks, p)
  }

  lemma CoverageGrows(chunks: seq<Chunk>, text: string, from: nat, c: Chunk)
    requires from <= |text| && c.start <= from && from <= c.end <= |text|
    requires VisibleCovered(chunks, text, from)
    ensures VisibleCovered(chunks + [c], text, c.end)
  {
    forall p: nat | p < c.end && !IsWhitespace(text[p]) ensures Covers(chunks + [c], p) {
      if p < from { CoversMore(chunks, c, p); } else { assert (chunks + [c])[|chunks|] == c; }
    }
  }

  lemma CoverageKept(chunks: seq<Chunk>, text: string, from: nat, start: nat, end: nat)
    requires start <= from <= end <= |text| && VisibleCovered(chunks, text, from) && Blank(text[start..end])
    ensures VisibleCovered(chunks, text, end)
  {
    forall p: nat | from <= p < end ensures IsWhitespace(text[p]) {
      if !IsWhitespace(text[p]) { NonBlankWindow(text, start, end, p); }
    }
  }

  ghost predicate EmittedOrBlank(chunks: seq<Chunk>, text: string, size: nat, stride: nat, k: nat)
  {
    || (StartOf(stride, k) < |text| && Blank(text[StartOf(stride, k)..Least(StartOf(stride, k) + size, |text|)]))
    || exists i :: 0 <= i < |chunks| && Cut(chunks[i], text, size, stride, k)
  }

  lemma EmittedKept(chunks: seq<Chunk>, c: Chunk, text: string, size: nat, stride: nat, k: nat)
    requires EmittedOrBlank(chunks, text, size, stride, k)
    ensures EmittedOrBlank(chunks + [c], text, size, stride, k)
  {
    if i :| 0 <= i < |chunks| && Cut(chunks[i], text, size, stride, k) {
      assert (chunks + [c])[i] == chunks[i];
    }
  }

  /** What holds once the first `k` windows have been considered, up to position `reached`. */
  ghost predicate Progress(chunks: seq<Chunk>, text: string, size: nat, stride: nat, k: nat, reached: nat)
  {
    && Advancing(chunks) && reached <= |text|
    && (forall i :: 0 <= i < |chunks| ==>
        chunks[i].start < StartOf(stride, k) && chunks[i].end <= reached && CutSomewhere(chunks[i], text, size, stride))
    && (forall j: nat :: j < k ==> EmittedOrBlank(chunks, text, size, stride, j))
    && VisibleCovered(chunks, text, reached)
  }

  lemma EmitAdvances(chunks: seq<Chunk>, c: Chunk)
    requires Advancing(chunks) && c.index == |chunks|
    requires forall i :: 0 <= i < |chunks| ==> chunks[i].start < c.start && chunks[i].end < c.end
    ensures Advancing(chunks + [c])
  {
  }

  lemma EmitEntries(chunks: seq<Chunk>, c: Chunk, text: string, size: nat, stride: nat, k: nat, reached: nat)
    requires 1 <= stride && Progress(chunks, text, size, stride, k, reached)
    requires Cut(c, text, size, stride, k) && reached <= c.end
    ensures forall i :: 0 <= i < |chunks + [c]| ==>
      && (chunks + [c])[i].start < StartOf(stride, k + 1) && (chunks + [c])[i].end <= c.end
      && CutSomewhere((chunks + [c])[i], text, size, stride)
  {
    assert StartOf(stride, k + 1) == StartOf(stride, k) + stride;
    assert CutSomewhere(c, text, size, stride);
    forall i | 0 <= i < |chunks + [c]|
      ensures (chunks + [c])[i].start < StartOf(stride, k + 1) && (chunks + [c])[i].end <= c.end
      ensures CutSomewhere((chunks + [c])[i], text, size, stride)
    {
      assert (chunks + [c])[i] == if i < |chunks| then chunks[i] else c;
    }
  }

  lemma EmitWindows(chunks: seq<Chunk>, c: Chunk, text: string, size: nat, stride: nat, k: nat)
    requires forall j: nat :: j < k ==> EmittedOrBlank(chunks, text, size, stride, j)
    requires Cut(c, text, size, stride, k)
    ensures forall j: nat :: j < k + 1 ==> EmittedOrBlank(chunks + [c], text, size, stride, j)
  {
    assert (chunks + [c])[|chunks|] == c;
    forall j: nat | j < k + 1 ensures EmittedOrBlank(chunks + [c], text, size, stride, j) {
      if j < k { EmittedKept(chunks, c, text, size, stride, j); }
    }
  }

  lemma Emit(chunks: seq<Chunk>, c: Chunk, text: string, size: nat, stride: nat, k: nat, reached: nat)
    requires 1 <= stride && Progress(chunks, text, size, stride, k, reached)
    requires Cut(c, text, size, stride, k) && c.index == |chunks| && c.start <= reached < c.end
    ensures Progress(chunks + [c], text, size, stride, k + 1, c.end)
  {
    CoverageGrows(chunks, text, reached, c);
    EmitAdvances(chunks, c);
    EmitEntries(chunks, c, text, size, stride, k, reached);
    EmitWindows(chunks, c, text, size, stride, k);
  }

  lemma Skip(chunks: seq<Chunk>, text: string, size: nat, stride: nat, k: nat, reached: nat, end: nat)
    requires 1 <= stride <= size && Progress(chunks, text, size, stride, k, reached)
    requires StartOf(stride, k) <= reached <= end <= |text| && StartOf(stride, k) < |text|
    requires end == Least(StartOf(stride, k) + size, |text|) && Blank(text[StartOf(stride, k)..end])
    ensures Progress(chunks, text, size, stride, k + 1, end)
  {
    assert StartOf(stride, k + 1) == StartOf(stride, k) + stride;
    CoverageKept(chunks, text, reached, StartOf(stride, k), end);
    assert EmittedOrBlank(chunks, text, size, stride, k);
    forall i | 0 <= i < |chunks|
      ensures chunks[i].start < StartOf(stride, k + 1) && chunks[i].end <= end
      ensures CutSomewhere(chunks[i], text, size, stride)
    {
    }
    forall j: nat | j < k + 1 ensures EmittedOrBlank(chunks, text, size, stride, j) {
      assert j < k || j == k;
    }
  }

  lemma NoMoreWindows(len: nat, size: nat, stride: nat, k: nat, j: nat)
    requires StartOf(stride, k) + size >= len && IsWindow(len, size, stride, j)
    ensures j < k + 1
  {
    if j > k { StartMonotone(stride, k, j - 1); }
  }

  /** Once a window reaches the end there are no more, so nothing is left to consider. */
  lemma Complete(chunks: seq<Chunk>, text: string, size: nat, stride: nat, k: nat)
    requires Progress(chunks, text, size, stride, k + 1, |text|) && StartOf(stride, k) + size >= |text|
    ensures forall j: nat :: IsWindow(|text|, size, stride, j) ==> EmittedOrBlank(chunks, text, size, stride, j)
  {
    forall j: nat | IsWindow(|text|, size, stride, j) ensures EmittedOrBlank(chunks, text, size, stride, j) {
      NoMoreWindows(|text|, size, stride, k, j);
    }
  }

  /** Every non-blank window is a chunk, every chunk is such a window, and no visible character is lost. */
  method ChunkText(text: string, maxChars: nat, overlap: nat) returns (chunks: seq<Chunk>)
    requires maxChars <= USIZE_MAX && overlap <= USIZE_MAX && |text| <= ISIZE_MAX
    ensures Advancing(chunks)
    ensures forall i :: 0 <= i < |chunks| ==> CutSomewhere(chunks[i], text, Size(maxChars), Stride(maxChars, overlap))
    ensures forall k: nat :: IsWindow(|text|, Size(maxChars), Stride(maxChars, overlap), k) ==>
      EmittedOrBlank(chunks, text, Size(maxChars), Stride(maxChars, overlap), k)
    ensures VisibleCovered(chunks, text, |text|)
  {
    var size := Size(maxChars);
    var kept := Least(overlap, size - 1);
    ghost var stride := Stride(maxChars, overlap);
    chunks := [];
    var start, index := 0, 0;
    ghost var k, reached := 0, 0;
    while start < |text|
      invariant start == StartOf(stride, k) <= reached && index == |chunks|
      invariant (k == 0 && reached == 0) || (k > 0 && reached == StartOf(stride, k - 1) + size < |text|)
      invariant Progress(chunks, text, size, stride, k, reached)
      decreases |text| - start
    {
      assert start + size <= USIZE_MAX;
      var end := Least(start + size, |text|);
      var slice := text[start..end];
      if !Blank(slice) {
        var c := Chunk(index, start, end, slice);
        Emit(chunks, c, text, size, stride, k, reached);
        chunks := chunks + [c];
        index := index + 1;
      } else {
        Skip(chunks, text, size, stride, k, reached, end);
      }
      if end == |text| {
        Complete(chunks, text, size, stride, k);
        break;
      }
      start := end - kept;
      k, reached := k + 1, end;
    }
  }
}
