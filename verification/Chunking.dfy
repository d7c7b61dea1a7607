/**
 Document chunking: newline normalization in two replacement passes, then windows that slide by less than their width.
 */
module Chunking {
  import opened Basics

  // ---- newlines ----

  /** `str.replace`: from left to right, without overlaps. */
  function Replace(text: string, pattern: string, instead: string): string
    requires pattern != ""
    decreases |text|
  {
    if text == "" then ""
    else if pattern <= text then instead + Replace(text[|pattern|..], pattern, instead)
    else [text[0]] + Replace(text[1..], pattern, instead)
  }

  function NormalizeText(text: string): string {
    Replace(Replace(text, "\r\n", "\n"), "\r", "\n")
  }

  /** One scan that reads CR, with a following LF if there is one, as LF. */
  function Scan(text: string): string
    decreases |text|
  {
    if text == "" then ""
    else if text[0] != '\r' then [text[0]] + Scan(text[1..])
    else "\n" + Scan(if |text| > 1 && text[1] == '\n' then text[2..] else text[1..])
  }

  lemma CrLf(text: string)
    ensures "\r\n" <= text <==> |text| > 1 && text[0] == '\r' && text[1] == '\n'
    ensures "\r" <= text <==> text != "" && text[0] == '\r'
  {
  }

  lemma ReplaceHead(c: char, rest: string)
    ensures Replace([c] + rest, "\r", "\n") == (if c == '\r' then "\n" else [c]) + Replace(rest, "\r", "\n")
  {
    CrLf([c] + rest);
    assert ([c] + rest)[1..] == rest;
  }

  /** The two passes are one scan. */
  lemma {:induction false} TwoPassesAreOneScan(text: string)
    ensures NormalizeText(text) == Scan(text)
    decreases |text|
  {
    CrLf(text);
    if text == "" {
    } else if |text| > 1 && text[0] == '\r' && text[1] == '\n' {
      TwoPassesAreOneScan(text[2..]);
      ReplaceHead('\n', Replace(text[2..], "\r\n", "\n"));
      assert "\n" == ['\n'];
    } else {
      TwoPassesAreOneScan(text[1..]);
      ReplaceHead(text[0], Replace(text[1..], "\r\n", "\n"));
    }
  }

  lemma {:induction false} ScanLeavesNoCr(text: string)
    ensures '\r' !in Scan(text)
    decreases |text|
  {
    if text != "" {
      ScanLeavesNoCr(text[1..]);
      if |text| > 1 { ScanLeavesNoCr(text[2..]); }
    }
  }

  lemma NoCrInRest(text: string)
    requires text != "" && '\r' !in text
    ensures text[0] != '\r' && '\r' !in text[1..]
  {
    assert text[0] in text && forall c :: c in text[1..] ==> c in text;
  }

  lemma {:induction false} ScanKeepsOthers(text: string)
    requires '\r' !in text
    ensures Scan(text) == text
    decreases |text|
  {
    if text != "" {
      NoCrInRest(text);
      ScanKeepsOthers(text[1..]);
    }
  }

  /** Normalized text has no CR, is not changed again, and text without CR is left alone. */
  lemma NormalizedIsFixed(text: string)
    ensures '\r' !in NormalizeText(text)
    ensures NormalizeText(NormalizeText(text)) == NormalizeText(text)
    ensures NormalizeText(text) == text <==> '\r' !in text
  {
    TwoPassesAreOneScan(text);
    TwoPassesAreOneScan(NormalizeText(text));
    ScanLeavesNoCr(text);
    ScanKeepsOthers(Scan(text));
    if '\r' !in text { ScanKeepsOthers(text); }
  }

  // ---- chunks ----

  function Take(text: string, n: nat): string { if |text| <= n then text else text[..n] }

  function Drop(text: string, n: nat): string { if |text| <= n then "" else text[n..] }

  function Chunks(text: string, width: nat, step: nat): seq<string>
    requires 0 < step
    decreases |text|
  {
    if text == "" then [] else [Take(text, width)] + Chunks(Drop(text, step), width, step)
  }

  /** The slice `text[start:start + width]`. */
  function Window(text: string, start: nat, width: nat): string
    requires start < |text|
  {
    text[start..if start + width < |text| then start + width else |text|]
  }

  lemma NextChunk(text: string, start: nat, width: nat, step: nat, rest: seq<string>)
    requires 0 < step && start < |text| && rest == Chunks(Drop(text, start), width, step)
    ensures rest != [] && rest[0] == Window(text, start, width)
    ensures rest[1..] == Chunks(Drop(text, start + step), width, step)
  {
    assert Drop(Drop(text, start), step) == Drop(text, start + step);
    assert Take(Drop(text, start), width) == Window(text, start, width);
  }

  lemma MoveHead(chunks: seq<string>, rest: seq<string>)
    requires rest != []
    ensures chunks + rest == chunks + [rest[0]] + rest[1..]
  {
  }

  /** The loop over the window starts. */
  method Slide(normalized: string, width: nat, step: nat) returns (chunks: seq<string>)
    requires 0 < step
    ensures chunks == Chunks(normalized, width, step)
  {
    chunks := [];
    var start, length := 0, |normalized|;
    ghost var all, rest := Chunks(normalized, width, step), Chunks(normalized, width, step);
    assert Drop(normalized, 0) == normalized;
    while start < length
      invariant 0 <= start && rest == Chunks(Drop(normalized, start), width, step)
      invariant chunks + rest == all
      decreases length - start
    {
      NextChunk(normalized, start, width, step, rest);
      MoveHead(chunks, rest);
      chunks, rest := chunks + [Window(normalized, start, width)], rest[1..];
      start := start + step;
    }
    assert Drop(normalized, start) == "";
  }

  method ChunkText(text: string, chunkChars: int, overlapChars: int) returns (r: Result<seq<string>>)
    ensures r.Failure? <==> chunkChars <= 0 || overlapChars < 0 || overlapChars >= chunkChars
    ensures r.Success? ==> r.value == Chunks(NormalizeText(text), chunkChars, chunkChars - overlapChars)
  {
    var normalized := NormalizeText(text);
    if chunkChars <= 0 || overlapChars < 0 || overlapChars >= chunkChars {
      return Failure("invalid chunk parameters");
    }
    var chunks := Slide(normalized, chunkChars, chunkChars - overlapChars);
    r := Success(chunks);
  }

  /** As many chunks as the length divided by the step, rounded up. */
  lemma {:induction false} ChunkCount(text: string, width: nat, step: nat)
    requires 0 < step
    ensures var n := |Chunks(text, width, step)|; (n - 1) * step < |text| <= n * step || (text == "" && n == 0)
    decreases |text|
  {
    if text != "" {
      var rest := Drop(text, step);
      ChunkCount(rest, width, step);
      var n := |Chunks(rest, width, step)|;
      assert |Chunks(text, width, step)| == n + 1;
      assert (n + 1) * step == n * step + step && (n - 1) * step == n * step - step;
    }
  }

  function FirstPieces(chunks: seq<string>, step: nat): string {
    if chunks == [] then "" else Take(chunks[0], step) + FirstPieces(chunks[1..], step)
  }

  /** Nothing is lost: the first step of every chunk, put together, is the text. */
  lemma {:induction false} ChunksRestoreText(text: string, width: nat, step: nat)
    requires 0 < step <= width
    ensures FirstPieces(Chunks(text, width, step), step) == text
    decreases |text|
  {
    if text != "" {
      ChunksRestoreText(Drop(text, step), width, step);
      assert Chunks(text, width, step)[1..] == Chunks(Drop(text, step), width, step);
      assert Take(Take(text, width), step) + Drop(text, step) == text;
    }
  }

  lemma {:induction false} ChunksAreNonempty(text: string, width: nat, step: nat, i: nat)
    requires 0 < step <= width && i < |Chunks(text, width, step)|
    ensures 0 < |Chunks(text, width, step)[i]| <= width
    decreases |text|
  {
    if i > 0 {
      ChunksAreNonempty(Drop(text, step), width, step, i - 1);
    }
  }

  /** What a chunk has beyond its step is where the next chunk begins. */
  lemma {:induction false} ChunksOverlap(text: string, width: nat, step: nat, i: nat)
    requires 0 < step <= width && i + 1 < |Chunks(text, width, step)|
    ensures Drop(Chunks(text, width, step)[i], step) <= Chunks(text, width, step)[i + 1]
    decreases |text|
  {
    var next := Drop(text, step);
    assert Chunks(text, width, step)[1..] == Chunks(next, width, step);
    if i == 0 {
      assert next != "";
      assert Drop(Take(text, width), step) == Take(next, width - step);
    } else {
      ChunksOverlap(next, width, step, i - 1);
    }
  }

  /** A document of exactly one chunk's width is one chunk only without overlap: with overlap it gets a second chunk
      that repeats its end. */
  lemma ExactFitIsOneChunk(text: string, width: nat, step: nat)
    requires 0 < step <= width
    ensures |Chunks(text, width, step)| == 1 <==> 0 < |text| <= step
    ensures |text| == width ==> (|Chunks(text, width, step)| == 1 <==> step == width)
  {
    if text != "" && |text| > step {
      assert Drop(text, step) != "";
    }
  }
}
