/** Splitting text into overlapping, model-sized chunks. Text is a sequence of Unicode scalars. */
module ChunkText {

  function Utf8Width(c: char): nat {
    var u := c as int;
    if u < 0x80 then 1 else if u < 0x800 then 2 else if u < 0x1_0000 then 3 else 4
  }

  /** The length in bytes. */
  function Utf8Length(s: string): (n: nat)
    ensures n >= |s|
  {
    if s == "" then 0 else Utf8Length(s[..|s| - 1]) + Utf8Width(s[|s| - 1])
  }

  function Overlap(size: nat): (o: nat)
    ensures o <= size && (size >= 1 ==> o < size)
  {
    size / 7
  }

  /** A seventh, rounded down. */
  lemma OverlapIsSeventh(size: nat)
    ensures 7 * Overlap(size) <= size < 7 * Overlap(size) + 7
  {
  }

  /** Where chunk `i` starts. */
  function Start(size: nat, i: nat): nat {
    if i == 0 then 0 else Start(size, i - 1) + size - Overlap(size)
  }

  /** One past where chunk `i` ends. */
  function End(text: string, size: nat, i: nat): nat {
    if Start(size, i) + size < |text| then Start(size, i) + size else |text|
  }

  /** Chunks start at regular steps, the last one and only the last one reaches the end of the text. */
  ghost predicate IsChunking(text: string, size: nat, chunks: seq<string>) {
    && |chunks| > 0
    && (forall i :: 0 <= i < |chunks| - 1 ==> Start(size, i) + size < |text|)
    && Start(size, |chunks| - 1) + size >= |text|
    && (forall i :: 0 <= i < |chunks| ==>
          Start(size, i) <= |text| && chunks[i] == text[Start(size, i)..End(text, size, i)])
  }

  /** Chunks so far, none of which reached the end. */
  ghost predicate IsPartial(text: string, size: nat, chunks: seq<string>) {
    && (forall i :: 0 <= i < |chunks| ==> Start(size, i) + size < |text|)
    && (forall i :: 0 <= i < |chunks| ==> chunks[i] == text[Start(size, i)..Start(size, i) + size])
  }

  lemma LastChunk(text: string, size: nat, chunks: seq<string>)
    requires IsPartial(text, size, chunks)
    requires Start(size, |chunks|) <= |text| <= Start(size, |chunks|) + size
    ensures IsChunking(text, size, chunks + [text[Start(size, |chunks|)..]])
  {
    var all := chunks + [text[Start(size, |chunks|)..]];
    forall i | 0 <= i < |all| ensures Start(size, i) <= |text| && all[i] == text[Start(size, i)..End(text, size, i)] {
      if i < |chunks| {
        assert all[i] == chunks[i];
      }
    }
  }

  lemma NextChunk(text: string, size: nat, chunks: seq<string>)
    requires IsPartial(text, size, chunks) && Start(size, |chunks|) + size < |text|
    ensures IsPartial(text, size, chunks + [text[Start(size, |chunks|)..Start(size, |chunks|) + size]])
  {
  }

  /** What the loop holds between two turns; `done` once the last chunk is out. */
  datatype Loop = Loop(start: nat, chunks: seq<string>, done: bool)

  predicate Turning(text: string, l: Loop) {
    !l.done && l.start < |text|
  }

  function Turn(text: string, size: nat, l: Loop): Loop {
    if !Turning(text, l) then l
    else
      var end := if l.start + size < |text| then l.start + size else |text|;
      var chunks := l.chunks + [text[l.start..end]];
      if end >= |text| then Loop(l.start, chunks, true) else Loop(end - Overlap(size), chunks, false)
  }

  function Turns(text: string, size: nat, n: nat): Loop {
    if n == 0 then Loop(0, [], false) else Turn(text, size, Turns(text, size, n - 1))
  }

  /** The loop is about to cut the next chunk at `start`. */
  ghost predicate AtTurn(text: string, size: nat, start: nat, chunks: seq<string>) {
    && start == Start(size, |chunks|) && start < |text|
    && IsPartial(text, size, chunks) && Turns(text, size, |chunks|) == Loop(start, chunks, false)
  }

  lemma NextTurn(text: string, size: nat, start: nat, chunks: seq<string>)
    requires AtTurn(text, size, start, chunks) && start + size < |text|
    ensures AtTurn(text, size, start + size - Overlap(size), chunks + [text[start..start + size]])
  {
    NextChunk(text, size, chunks);
  }

  lemma LastTurn(text: string, size: nat, start: nat, chunks: seq<string>)
    requires AtTurn(text, size, start, chunks) && start + size >= |text|
    ensures var all := chunks + [text[start..]];
            IsChunking(text, size, all) && Turns(text, size, |all|) == Loop(start, all, true)
  {
    LastChunk(text, size, chunks);
  }

  /** Terminates for every chunk size but 0, which only the empty text survives. */
  method Chunk(text: string, chunkSize: nat) returns (chunks: seq<string>)
    requires chunkSize >= 1 || text == ""
    ensures IsChunking(text, chunkSize, chunks)
    ensures Utf8Length(text) > chunkSize ==>
      var l := Turns(text, chunkSize, |chunks|); l.done && l.chunks == chunks
  {
    chunks := [];
    if Utf8Length(text) <= chunkSize {
      LastChunk(text, chunkSize, chunks);
      return [text];
    }
    var overlap := Overlap(chunkSize);
    var start := 0;
    while start < |text|
      invariant AtTurn(text, chunkSize, start, chunks)
      decreases |text| - start
    {
      var end := if start + chunkSize < |text| then start + chunkSize else |text|;
      if end >= |text| {
        LastTurn(text, chunkSize, start, chunks);
      } else {
        NextTurn(text, chunkSize, start, chunks);
      }
      chunks := chunks + [text[start..end]];
      if end >= |text| {
        return;
      }
      start := end - overlap;
    }
  }

  /** With chunk size 0 and some text, every turn adds an empty chunk and leaves the loop where it was. */
  lemma {:induction false} SizeZeroNeverEnds(text: string, n: nat)
    requires text != ""
    ensures Turns(text, 0, n) == Loop(0, seq(n, _ => ""), false) && Turning(text, Turns(text, 0, n))
  {
    if n > 0 {
      SizeZeroNeverEnds(text, n - 1);
      assert text[0..0] == "" && seq(n - 1, _ => "") + [""] == seq(n, _ => "");
    }
  }

  lemma {:induction false} NoSteps(i: nat)
    ensures Start(0, i) == 0
  {
    if i > 0 {
      NoSteps(i - 1);
    }
  }

  // ----- Nothing is lost -----------------------------------------------------------------------------

  lemma {:induction false} StartsIncrease(size: nat, i: nat, j: nat)
    requires size >= 1 && i < j
    ensures Start(size, i) + (size - Overlap(size)) <= Start(size, j)
  {
    if i < j - 1 {
      StartsIncrease(size, i, j - 1);
    }
  }

  lemma ChunksFit(text: string, size: nat, chunks: seq<string>)
    requires IsChunking(text, size, chunks)
    ensures forall i :: 0 <= i < |chunks| ==> |chunks[i]| <= size
    ensures forall i :: 0 < i < |chunks| ==> |chunks[i]| > Overlap(size)
  {
    if size == 0 && text != "" {
      NoSteps(|chunks| - 1);
    }
    forall i | 0 < i < |chunks| ensures |chunks[i]| > Overlap(size) {
      assert Start(size, i - 1) + size < |text|;
      assert Start(size, i) == Start(size, i - 1) + size - Overlap(size);
    }
  }

  /** The first `n` chunks, each later one without what it repeats. */
  function Rebuilt(chunks: seq<string>, overlap: nat, n: nat): string
    requires n <= |chunks| && forall i :: 0 < i < |chunks| ==> |chunks[i]| >= overlap
  {
    if n == 0 then ""
    else if n == 1 then chunks[0]
    else Rebuilt(chunks, overlap, n - 1) + chunks[n - 1][overlap..]
  }

  /** What chunk `k` adds to the text before it. */
  lemma NextPart(text: string, size: nat, chunks: seq<string>, k: nat)
    requires IsChunking(text, size, chunks) && 0 < k < |chunks| && |chunks[k]| >= Overlap(size)
    ensures text[..End(text, size, k - 1)] + chunks[k][Overlap(size)..] == text[..End(text, size, k)]
  {
    var o, a, b := Overlap(size), Start(size, k), End(text, size, k);
    assert End(text, size, k - 1) == a + o;
    assert chunks[k] == text[a..b];
    assert text[a..b][o..] == text[a + o..b];
  }

  lemma {:induction false} RebuiltPrefix(text: string, size: nat, chunks: seq<string>, n: nat)
    requires IsChunking(text, size, chunks) && 0 < n <= |chunks|
    requires forall i :: 0 < i < |chunks| ==> |chunks[i]| >= Overlap(size)
    ensures Rebuilt(chunks, Overlap(size), n) == text[..End(text, size, n - 1)]
  {
    if n > 1 {
      RebuiltPrefix(text, size, chunks, n - 1);
      NextPart(text, size, chunks, n - 1);
    }
  }

  /** Dropping each later chunk's overlap and joining the rest gives back the text. */
  lemma ChunksRebuildText(text: string, size: nat, chunks: seq<string>)
    requires IsChunking(text, size, chunks)
    ensures forall i :: 0 < i < |chunks| ==> |chunks[i]| >= Overlap(size)
    ensures Rebuilt(chunks, Overlap(size), |chunks|) == text
  {
    ChunksFit(text, size, chunks);
    RebuiltPrefix(text, size, chunks, |chunks|);
    assert text[..|text|] == text;
  }

  // ----- What no boundary cuts ---------------------------------------------------------------------------

  /** The stretch of `len` characters at `a` lies whole in chunk `i`. */
  predicate Within(text: string, size: nat, i: nat, a: nat, len: nat) {
    Start(size, i) <= a && a + len <= End(text, size, i)
  }

  ghost predicate Covered(text: string, size: nat, chunks: seq<string>, a: nat, len: nat) {
    exists i :: 0 <= i < |chunks| && Within(text, size, i, a, len)
  }

  lemma {:induction false} ShortStretchCovered(text: string, size: nat, chunks: seq<string>, a: nat, len: nat, n: nat)
    requires IsChunking(text, size, chunks) && a + len <= |text|
    requires len <= Overlap(size) + 1 || |chunks| == 1
    requires n < |chunks| && Start(size, n) <= a
    ensures Covered(text, size, chunks, a, len)
    decreases |chunks| - n
  {
    if n == |chunks| - 1 || a < Start(size, n + 1) {
      assert Within(text, size, n, a, len);
    } else {
      ShortStretchCovered(text, size, chunks, a, len, n + 1);
    }
  }

  lemma LongStretchCut(text: string, size: nat, chunks: seq<string>, len: nat) returns (a: nat)
    requires size >= 1 && IsChunking(text, size, chunks) && |chunks| > 1
    requires Overlap(size) + 2 <= len <= |text|
    ensures a + len <= |text| && !Covered(text, size, chunks, a, len)
  {
    var edge := Start(size, 1) - 1;
    assert Start(size, 0) == 0 && Start(size, 0) + size < |text|;
    assert edge + Overlap(size) + 2 == size + 1;
    a := if edge + len <= |text| then edge else |text| - len;
    forall i | 0 <= i < |chunks| ensures !Within(text, size, i, a, len) {
      if i > 0 {
        StartsIncrease(size, 0, i);
      }
    }
  }

  /**
    Every stretch of a given length lies whole in some chunk exactly when there
    is a single chunk or the length is at most one more than the overlap.
   */
  lemma CoverageIff(text: string, size: nat, chunks: seq<string>, len: nat)
    requires size >= 1 && IsChunking(text, size, chunks) && len <= |text|
    ensures (forall a: nat :: a + len <= |text| ==> Covered(text, size, chunks, a, len)) <==>
            |chunks| == 1 || len <= Overlap(size) + 1
  {
    if |chunks| == 1 || len <= Overlap(size) + 1 {
      forall a: nat | a + len <= |text| ensures Covered(text, size, chunks, a, len) {
        ShortStretchCovered(text, size, chunks, a, len, 0);
      }
    } else {
      var a := LongStretchCut(text, size, chunks, len);
    }
  }
}
