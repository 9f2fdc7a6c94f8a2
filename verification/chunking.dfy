/**
 The sliding-window chunker `chunk_text`: windows of `size` characters start
 at offsets 0, stride, 2*stride, ... (stride = size - overlap) while the start
 is inside the text; each window is clamped at the end of the text and kept,
 unstripped, when its `strip()` is non-empty.
 */
module Chunking {
  import opened Strings

  /** The parameters the handler passes. */
  const ChunkSize: nat := 1000
  const Overlap: nat := 200

  /** The loop only advances when the overlap is smaller than the window. */
  predicate ValidParams(size: nat, overlap: nat) {
    overlap < size
  }

  function Stride(size: nat, overlap: nat): (s: nat)
    requires ValidParams(size, overlap)
    ensures s > 0
  {
    size - overlap
  }

  function Min(a: int, b: int): int {
    if a <= b then a else b
  }

  /**
   The window `text[start:start+size]`: a Python slice clamps its end at the
   length of the text, and is empty when it starts past the end.
   */
  function Window(text: string, start: nat, size: nat): (w: string)
    ensures |w| <= size
  {
    if start >= |text| then "" else text[start .. Min(start + size, |text|)]
  }

  /** A window starting inside the text is the clamped slice. */
  lemma WindowInside(text: string, start: nat, size: nat)
    requires start < |text|
    ensures Window(text, start, size) == text[start .. Min(start + size, |text|)]
  {
  }

  /** The number of window starts 0, stride, 2 * stride, ... below n. */
  function WindowCount(n: nat, stride: nat): nat
    requires stride > 0
  {
    if n == 0 then 0 else 1 + WindowCount(if n <= stride then 0 else n - stride, stride)
  }

  /** The k-th window start, reached from 0 by k strides. */
  function Offset(k: nat, stride: nat): nat {
    if k == 0 then 0 else Offset(k - 1, stride) + stride
  }

  /** The k-th start is k * stride. */
  lemma {:induction false} OffsetIsProduct(k: nat, stride: nat)
    ensures Offset(k, stride) == k * stride
  {
    if k > 0 {
      OffsetIsProduct(k - 1, stride);
      assert (k - 1) * stride + stride == k * stride;
    }
  }

  /** Starts strictly increase, by at least one stride per window. */
  lemma {:induction false} OffsetIncreasing(k: nat, k': nat, stride: nat)
    requires k < k'
    ensures Offset(k, stride) + stride <= Offset(k', stride)
  {
    if k + 1 < k' {
      OffsetIncreasing(k, k' - 1, stride);
    }
  }

  /** Distinct windows have distinct starts. */
  lemma OffsetInjective(k: nat, k': nat, stride: nat)
    requires stride > 0 && Offset(k, stride) == Offset(k', stride)
    ensures k == k'
  {
    if k < k' {
      OffsetIncreasing(k, k', stride);
    } else if k' < k {
      OffsetIncreasing(k', k, stride);
    }
  }

  /** The k-th start lies inside the text exactly when k is below the window count. */
  lemma {:induction false} StartInsideIff(n: nat, stride: nat, k: nat)
    requires stride > 0
    ensures Offset(k, stride) < n <==> k < WindowCount(n, stride)
  {
    if n > 0 && k > 0 {
      var m := if n <= stride then 0 else n - stride;
      StartShift(k - 1, stride);
      StartInsideIff(m, stride, k - 1);
    }
  }

  /** One more stride moves every start by exactly one stride. */
  lemma {:induction false} StartShift(k: nat, stride: nat)
    ensures Offset(k + 1, stride) == Offset(k, stride) + stride
  {
  }

  /** Position i lies in the stride that starts window i / stride. */
  lemma OffsetBracket(i: nat, stride: nat)
    requires stride > 0
    ensures Offset(i / stride, stride) <= i < Offset(i / stride, stride) + stride
  {
    OffsetIsProduct(i / stride, stride);
    assert i == (i / stride) * stride + i % stride;
  }

  /** The first k windows, at starts 0, stride, ..., (k - 1) * stride. */
  function WindowsUpTo(text: string, size: nat, stride: nat, k: nat): (ws: seq<string>)
    ensures |ws| == k
  {
    if k == 0 then [] else WindowsUpTo(text, size, stride, k - 1) + [Window(text, Offset(k - 1, stride), size)]
  }

  /** The j-th window is the one at the j-th start. */
  lemma {:induction false} WindowsUpToAt(text: string, size: nat, stride: nat, k: nat, j: nat)
    requires j < k
    ensures WindowsUpTo(text, size, stride, k)[j] == Window(text, Offset(j, stride), size)
  {
    var prev := WindowsUpTo(text, size, stride, k - 1);
    var last := Window(text, Offset(k - 1, stride), size);
    assert WindowsUpTo(text, size, stride, k) == prev + [last];
    if j < k - 1 {
      WindowsUpToAt(text, size, stride, k - 1, j);
      assert (prev + [last])[j] == prev[j];
    }
  }

  /** Every window the loop visits, in visiting order. */
  function Windows(text: string, size: nat, overlap: nat): (ws: seq<string>)
    requires ValidParams(size, overlap)
  {
    WindowsUpTo(text, size, Stride(size, overlap), WindowCount(|text|, Stride(size, overlap)))
  }

  /** The chunks `chunk_text` returns: the non-blank windows. */
  function Chunks(text: string, size: nat, overlap: nat): seq<string>
    requires ValidParams(size, overlap)
  {
    KeepNonBlank(Windows(text, size, overlap))
  }

  /** The k-th window starts inside the text and is `text[s:s+size]` for its start s. */
  lemma WindowIndexed(text: string, size: nat, overlap: nat, k: nat)
    requires ValidParams(size, overlap)
    requires k < |Windows(text, size, overlap)|
    ensures var s := Offset(k, Stride(size, overlap));
            s < |text| && Windows(text, size, overlap)[k] == text[s .. Min(s + size, |text|)]
  {
    var stride := Stride(size, overlap);
    StartInsideIff(|text|, stride, k);
    WindowsUpToAt(text, size, stride, WindowCount(|text|, stride), k);
    WindowInside(text, Offset(k, stride), size);
  }

  /** The window at a start inside the text is among the windows visited. */
  lemma WindowAt(text: string, size: nat, overlap: nat, k: nat)
    requires ValidParams(size, overlap)
    requires Offset(k, Stride(size, overlap)) < |text|
    ensures var s := Offset(k, Stride(size, overlap));
            k < |Windows(text, size, overlap)| && Windows(text, size, overlap)[k] == text[s .. Min(s + size, |text|)]
  {
    StartInsideIff(|text|, Stride(size, overlap), k);
    WindowIndexed(text, size, overlap, k);
  }

  /** The loop stops after exactly WindowCount windows. */
  lemma LoopExit(n: nat, stride: nat, k: nat)
    requires stride > 0
    requires Offset(k, stride) >= n
    requires k == 0 || Offset(k - 1, stride) < n
    ensures k == WindowCount(n, stride)
  {
    StartInsideIff(n, stride, k);
    if k > 0 {
      StartInsideIff(n, stride, k - 1);
    }
  }

  /**
   `chunk_text(text, chunk_size, overlap)`, written as the source's loop. It
   terminates because the start advances by a positive stride, and it returns
   exactly the non-blank windows.
   */
  method ChunkText(text: string, size: nat, overlap: nat) returns (chunks: seq<string>)
    requires ValidParams(size, overlap)
    ensures chunks == Chunks(text, size, overlap)
  {
    var stride := size - overlap;
    assert stride == Stride(size, overlap);
    chunks := [];
    var start := 0;
    var textLength := |text|;
    ghost var k: nat := 0;
    while start < textLength
      invariant start == Offset(k, stride)
      invariant k == 0 || Offset(k - 1, stride) < textLength
      invariant chunks == KeepNonBlank(WindowsUpTo(text, size, stride, k))
      decreases textLength - start
    {
      var end := start + size;
      var chunk := text[start .. Min(end, textLength)];
      ghost var seen := WindowsUpTo(text, size, stride, k);
      WindowInside(text, start, size);
      assert WindowsUpTo(text, size, stride, k + 1) == seen + [chunk];
      KeepNonBlankSnoc(seen, chunk);
      if NonBlank(chunk) {
        chunks := chunks + [chunk];
      }
      start := start + stride;
      k := k + 1;
    }
    LoopExit(textLength, stride, k);
  }

  /** The starts of the windows with the given indices. */
  function Offsets(idx: seq<nat>, stride: nat): (starts: seq<nat>)
    ensures |starts| == |idx|
  {
    seq(|idx|, j requires 0 <= j < |idx| => Offset(idx[j], stride))
  }

  /** The offsets in the text at which the returned chunks start. */
  function ChunkStarts(text: string, size: nat, overlap: nat): (starts: seq<nat>)
    requires ValidParams(size, overlap)
    ensures |starts| == |Chunks(text, size, overlap)|
  {
    Offsets(KeptIndices(Windows(text, size, overlap)), Stride(size, overlap))
  }

  /**
   Chunk j is `text[s:s+size]` for its start s = k * stride, the start of
   the k-th window, which lies inside the text.
   */
  lemma ChunkIsWindow(text: string, size: nat, overlap: nat, j: nat)
    requires ValidParams(size, overlap)
    requires j < |Chunks(text, size, overlap)|
    ensures var s := ChunkStarts(text, size, overlap)[j];
            var k := KeptIndices(Windows(text, size, overlap))[j];
            && s == k * Stride(size, overlap) && s < |text|
            && Chunks(text, size, overlap)[j] == text[s .. Min(s + size, |text|)]
  {
    var stride := Stride(size, overlap);
    var ws := Windows(text, size, overlap);
    var k := KeptIndices(ws)[j];
    KeptElements(ws);
    WindowIndexed(text, size, overlap, k);
    OffsetIsProduct(k, stride);
  }

  /**
   Every chunk is non-blank and at most `size` long, and the chunk starts
   strictly increase, so chunks come in text order.
   */
  lemma ChunksInOrder(text: string, size: nat, overlap: nat)
    requires ValidParams(size, overlap)
    ensures var cs := Chunks(text, size, overlap);
            var starts := ChunkStarts(text, size, overlap);
            && (forall j :: 0 <= j < |cs| ==> |cs[j]| <= size && NonBlank(cs[j]))
            && (forall j, j' :: 0 <= j < j' < |cs| ==> starts[j] < starts[j'])
  {
    var stride := Stride(size, overlap);
    var ws := Windows(text, size, overlap);
    var idx := KeptIndices(ws);
    var cs := Chunks(text, size, overlap);
    var starts := ChunkStarts(text, size, overlap);
    KeptAreNonBlank(ws);
    KeptElements(ws);
    forall j | 0 <= j < |cs|
      ensures |cs[j]| <= size
    {
      WindowIndexed(text, size, overlap, idx[j]);
    }
    KeptIncreasing(ws);
    forall j, j' | 0 <= j < j' < |cs|
      ensures starts[j] < starts[j']
    {
      OffsetIncreasing(idx[j], idx[j'], stride);
    }
  }

  /** The window starting at k * stride inside the text is returned exactly when it is non-blank. */
  lemma WindowKeptIff(text: string, size: nat, overlap: nat, k: nat)
    requires ValidParams(size, overlap)
    requires k * Stride(size, overlap) < |text|
    ensures var s := k * Stride(size, overlap);
            s in ChunkStarts(text, size, overlap) <==> NonBlank(text[s .. Min(s + size, |text|)])
  {
    var stride := Stride(size, overlap);
    var ws := Windows(text, size, overlap);
    var idx := KeptIndices(ws);
    var starts := ChunkStarts(text, size, overlap);
    OffsetIsProduct(k, stride);
    var s := Offset(k, stride);
    KeptIff(ws);
    WindowAt(text, size, overlap, k);
    if s in starts {
      var j :| 0 <= j < |starts| && starts[j] == s;
      OffsetInjective(idx[j], k, stride);
      assert k in idx;
    }
    if k in idx {
      var j :| 0 <= j < |idx| && idx[j] == k;
      assert starts[j] == s;
    }
  }

  /**
   There are ceil(|text| / stride) windows: the last start lies inside the
   text and one more stride would not, and the last window reaches the end
   of the text.
   */
  lemma LastWindowReachesEnd(text: string, size: nat, overlap: nat)
    requires ValidParams(size, overlap)
    requires |text| > 0
    ensures var stride := Stride(size, overlap);
            var count := WindowCount(|text|, stride);
            && |Windows(text, size, overlap)| == count > 0
            && (count - 1) * stride < |text| <= count * stride
            && |text| <= (count - 1) * stride + size
  {
    var stride := Stride(size, overlap);
    var n := |text|;
    var q := WindowCount(n, stride);
    StartInsideIff(n, stride, q);
    StartInsideIff(n, stride, q - 1);
    OffsetIsProduct(q, stride);
    OffsetIsProduct(q - 1, stride);
  }

  /** A window holding a non-whitespace character is among the kept ones. */
  lemma KeptWindow(ws: seq<string>, k: nat, t: nat)
    requires k < |ws| && t < |ws[k]| && !IsWhitespace(ws[k][t])
    ensures exists j :: 0 <= j < |KeptIndices(ws)| && KeptIndices(ws)[j] == k && KeepNonBlank(ws)[j] == ws[k]
  {
    NonBlankIff(ws[k]);
    KeptIff(ws);
    KeptElements(ws);
  }

  /** Every non-whitespace character of the text lies inside some returned chunk. */
  lemma NonWhitespaceCovered(text: string, size: nat, overlap: nat, i: nat)
    requires ValidParams(size, overlap)
    requires i < |text| && !IsWhitespace(text[i])
    ensures var cs := Chunks(text, size, overlap);
            var starts := ChunkStarts(text, size, overlap);
            exists j :: 0 <= j < |cs| && starts[j] <= i < starts[j] + |cs[j]| && cs[j][i - starts[j]] == text[i]
  {
    var stride := Stride(size, overlap);
    var ws := Windows(text, size, overlap);
    var k := i / stride;
    var s := Offset(k, stride);
    OffsetBracket(i, stride);
    WindowAt(text, size, overlap, k);
    assert ws[k][i - s] == text[i];
    KeptWindow(ws, k, i - s);
    var j :| 0 <= j < |KeptIndices(ws)| && KeptIndices(ws)[j] == k && KeepNonBlank(ws)[j] == ws[k];
    assert ChunkStarts(text, size, overlap)[j] == s;
  }

  /** No chunk comes back exactly when the text is empty or all whitespace. */
  lemma ChunksEmptyIff(text: string, size: nat, overlap: nat)
    requires ValidParams(size, overlap)
    ensures Chunks(text, size, overlap) == [] <==> IsBlank(text)
  {
    var cs := Chunks(text, size, overlap);
    if IsBlank(text) && cs != [] {
      ChunkIsWindow(text, size, overlap, 0);
      ChunksInOrder(text, size, overlap);
      var c := cs[0];
      var s := ChunkStarts(text, size, overlap)[0];
      assert forall t :: 0 <= t < |c| ==> c[t] == text[s + t];
      NonBlankIff(c);
      assert false;
    }
    if !IsBlank(text) {
      var i :| 0 <= i < |text| && !IsWhitespace(text[i]);
      NonWhitespaceCovered(text, size, overlap, i);
    }
  }

  lemma {:induction false} KeepAllNonBlank(parts: seq<string>)
    requires forall k :: 0 <= k < |parts| ==> NonBlank(parts[k])
    ensures KeepNonBlank(parts) == parts
  {
    if |parts| > 0 {
      var n := |parts| - 1;
      assert forall k :: 0 <= k < n ==> parts[..n][k] == parts[k];
      KeepAllNonBlank(parts[..n]);
      assert parts[..n] + [parts[n]] == parts;
    }
  }

  /** With no blank window, every window is a chunk: ceil(|text| / stride) of them. */
  lemma NoBlankWindowKeepsAll(text: string, size: nat, overlap: nat)
    requires ValidParams(size, overlap)
    requires forall k :: 0 <= k < |Windows(text, size, overlap)| ==> NonBlank(Windows(text, size, overlap)[k])
    ensures Chunks(text, size, overlap) == Windows(text, size, overlap)
    ensures |Chunks(text, size, overlap)| == WindowCount(|text|, Stride(size, overlap))
  {
    KeepAllNonBlank(Windows(text, size, overlap));
  }

  /**
   At the handler's 1000/200 parameters, a text of 2400 characters with no
   blank window gives the three chunks [0,1000), [800,1800), [1600,2400).
   */
  lemma DefaultParams2400(text: string)
    requires |text| == 2400
    requires forall k :: 0 <= k < |Windows(text, ChunkSize, Overlap)| ==> NonBlank(Windows(text, ChunkSize, Overlap)[k])
    ensures Chunks(text, ChunkSize, Overlap) == [text[0..1000], text[800..1800], text[1600..2400]]
  {
    NoBlankWindowKeepsAll(text, ChunkSize, Overlap);
    assert WindowCount(2400, 800) == 3;
    WindowAt(text, ChunkSize, Overlap, 0);
    WindowAt(text, ChunkSize, Overlap, 1);
    WindowAt(text, ChunkSize, Overlap, 2);
  }

  /** A text of 1500 characters with no blank window gives the two chunks [0,1000), [800,1500). */
  lemma DefaultParams1500(text: string)
    requires |text| == 1500
    requires forall k :: 0 <= k < |Windows(text, ChunkSize, Overlap)| ==> NonBlank(Windows(text, ChunkSize, Overlap)[k])
    ensures Chunks(text, ChunkSize, Overlap) == [text[0..1000], text[800..1500]]
  {
    NoBlankWindowKeepsAll(text, ChunkSize, Overlap);
    assert WindowCount(1500, 800) == 2;
    WindowAt(text, ChunkSize, Overlap, 0);
    WindowAt(text, ChunkSize, Overlap, 1);
  }
}
