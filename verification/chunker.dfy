/** `chunkTextForDb` (server/routes.ts): splits extracted document text into
    overlapping windows and numbers the non-blank ones. */
module Chunker {
  import opened Outcomes
  import opened JsText

  /** One row of the chunk table before it is embedded. */
  datatype DbChunk = DbChunk(pageNumber: int, chunkIndex: int, text: string)

  const DefaultChunkSize: nat := 2000
  const DefaultOverlap: nat := 200
  /** Chunks per synthetic page: `page_number = 1 + floor(index / 5)`. */
  const ChunksPerPage: nat := 5

  /** The text the chunker walks: every CR LF turned into LF, then trimmed. */
  function Clean(fullText: string): string
  {
    Trim(ReplaceCrlf(fullText))
  }

  /** The synthetic page of the chunk with index `index`: every run of five
      consecutive indices shares a page, counting from page 1 (equal to
      `1 + floor(index / 5)`, see `PageNumberIsFloor`). */
  function PageNumber(index: nat): int
    decreases index
  {
    if index < ChunksPerPage then 1 else 1 + PageNumber(index - ChunksPerPage)
  }

  lemma {:induction false} PageNumberIsFloor(index: nat)
    ensures PageNumber(index) == 1 + index / 5
    decreases index
  {
    if index >= ChunksPerPage {
      PageNumberIsFloor(index - ChunksPerPage);
    }
  }

  /** The half-open character range `[start, end)` of one window. */
  datatype Window = Window(start: nat, end: nat)

  /** The windows the loop visits over a text of length `len`, beginning at
      `start`: each is `chunkSize` wide or runs to the end of the text, the
      next one begins `overlap` characters before the previous one ended, and
      the walk stops right after the window that reaches the end. */
  function WindowsFrom(len: nat, chunkSize: nat, overlap: nat, start: nat): seq<Window>
    requires chunkSize > overlap
    decreases len - start
  {
    if start >= len then []
    else
      var end := Min(len, start + chunkSize);
      if end == len then [Window(start, end)]
      else [Window(start, end)] + WindowsFrom(len, chunkSize, overlap, end - overlap)
  }

  /** Each window is non-empty, at most `chunkSize` wide, inside `[lo, len)`. */
  predicate WindowsBetween(ws: seq<Window>, lo: nat, len: nat, chunkSize: nat) {
    forall k :: 0 <= k < |ws| ==>
      lo <= ws[k].start < ws[k].end <= len && ws[k].end - ws[k].start <= chunkSize
  }

  lemma {:induction false} WindowsInRange(len: nat, chunkSize: nat, overlap: nat, start: nat)
    requires chunkSize > overlap
    ensures WindowsBetween(WindowsFrom(len, chunkSize, overlap, start), start, len, chunkSize)
    decreases len - start
  {
    if start < len {
      var end := Min(len, start + chunkSize);
      var ws := WindowsFrom(len, chunkSize, overlap, start);
      if end < len {
        var next := end - overlap;
        WindowsInRange(len, chunkSize, overlap, next);
        var rest := WindowsFrom(len, chunkSize, overlap, next);
        assert ws == [Window(start, end)] + rest;
        forall k | 1 <= k < |ws|
          ensures start <= ws[k].start < ws[k].end <= len && ws[k].end - ws[k].start <= chunkSize
        {
          assert ws[k] == rest[k - 1];
        }
      }
    }
  }

  predicate WithinText(text: string, ws: seq<Window>) {
    forall k :: 0 <= k < |ws| ==> ws[k].start <= ws[k].end <= |text|
  }

  /** The trimmed characters of `text` a window covers (none for a window
      that does not lie inside the text, which the walk never produces). */
  function Piece(text: string, w: Window): string {
    if w.start <= w.end <= |text| then TrimRange(text, w.start, w.end) else []
  }

  /** The trimmed text of every window that is not blank, in window order. */
  function Kept(text: string, ws: seq<Window>): seq<string>
  {
    if ws == [] then []
    else
      var piece := Piece(text, ws[0]);
      (if piece == [] then [] else [piece]) + Kept(text, ws[1..])
  }

  /** Gives the pieces consecutive chunk indices from `first` on, and the page
      each index falls on. */
  function Numbered(pieces: seq<string>, first: nat): seq<DbChunk>
  {
    if pieces == [] then []
    else [DbChunk(PageNumber(first), first, pieces[0])] + Numbered(pieces[1..], first + 1)
  }

  /** The loop read as a tail-recursive function: `acc` holds the chunks
      pushed so far and `start` is where the next window begins. */
  function ChunksAcc(cleaned: string, chunkSize: nat, overlap: nat, start: nat, acc: seq<DbChunk>): seq<DbChunk>
    requires chunkSize > overlap
    decreases |cleaned| - start
  {
    if start >= |cleaned| then acc
    else
      var end := Min(|cleaned|, start + chunkSize);
      var slice := TrimRange(cleaned, start, end);
      var acc' := if slice == [] then acc else acc + [DbChunk(PageNumber(|acc|), |acc|, slice)];
      if end == |cleaned| then acc' else ChunksAcc(cleaned, chunkSize, overlap, end - overlap, acc')
  }

  /** What `chunkTextForDb(fullText, chunkSize, overlap)` returns. */
  function ChunkSpec(fullText: string, chunkSize: nat, overlap: nat): seq<DbChunk>
    requires chunkSize > overlap
  {
    ChunksAcc(Clean(fullText), chunkSize, overlap, 0, [])
  }

  /** The loop's chunks are the non-blank trimmed windows, numbered on from
      the chunks already pushed. */
  lemma {:induction false} ChunksAreNumberedWindows(cleaned: string, chunkSize: nat, overlap: nat, start: nat, acc: seq<DbChunk>)
    requires chunkSize > overlap
    ensures ChunksAcc(cleaned, chunkSize, overlap, start, acc)
            == acc + Numbered(Kept(cleaned, WindowsFrom(|cleaned|, chunkSize, overlap, start)), |acc|)
    decreases |cleaned| - start
  {
    var len := |cleaned|;
    if start >= len {
      assert acc + [] == acc;
    } else {
      var end := Min(len, start + chunkSize);
      var slice := TrimRange(cleaned, start, end);
      var pieces := if slice == [] then [] else [slice];
      var acc' := if slice == [] then acc else acc + [DbChunk(PageNumber(|acc|), |acc|, slice)];
      assert acc' == acc + Numbered(pieces, |acc|) && |acc'| == |acc| + |pieces| by {
        PushIsNumbered(acc, slice);
      }
      if end == len {
        assert ChunksAcc(cleaned, chunkSize, overlap, start, acc) == acc' + Numbered([], |acc'|) by {
          AccStep(cleaned, chunkSize, overlap, start, acc, end, end - overlap, acc');
          assert acc' + [] == acc';
        }
        assert Kept(cleaned, WindowsFrom(len, chunkSize, overlap, start)) == pieces + [] by {
          WindowsStep(len, chunkSize, overlap, start, end, end - overlap);
          KeptStep(cleaned, Window(start, end), []);
          assert [Window(start, end)] + [] == [Window(start, end)];
        }
        NumberedOnwards(ChunksAcc(cleaned, chunkSize, overlap, start, acc), acc, acc', pieces, [], Kept(cleaned, WindowsFrom(len, chunkSize, overlap, start)));
      } else {
        var nx := end - overlap;
        var rest := WindowsFrom(len, chunkSize, overlap, nx);
        assert ChunksAcc(cleaned, chunkSize, overlap, start, acc) == acc' + Numbered(Kept(cleaned, rest), |acc'|) by {
          AccStep(cleaned, chunkSize, overlap, start, acc, end, nx, acc');
          ChunksAreNumberedWindows(cleaned, chunkSize, overlap, nx, acc');
        }
        assert Kept(cleaned, WindowsFrom(len, chunkSize, overlap, start)) == pieces + Kept(cleaned, rest) by {
          WindowsStep(len, chunkSize, overlap, start, end, nx);
          KeptStep(cleaned, Window(start, end), rest);
        }
        NumberedOnwards(ChunksAcc(cleaned, chunkSize, overlap, start, acc), acc, acc', pieces, Kept(cleaned, rest), Kept(cleaned, WindowsFrom(len, chunkSize, overlap, start)));
      }
    }
  }

  /** Numbering the first pieces and then the later ones is numbering them all. */
  lemma NumberedOnwards(total: seq<DbChunk>, acc: seq<DbChunk>, acc': seq<DbChunk>,
                        pieces: seq<string>, later: seq<string>, kept: seq<string>)
    requires total == acc' + Numbered(later, |acc'|)
    requires acc' == acc + Numbered(pieces, |acc|) && |acc'| == |acc| + |pieces|
    requires kept == pieces + later
    ensures total == acc + Numbered(kept, |acc|)
  {
    var x := Numbered(pieces, |acc|);
    var y := Numbered(later, |acc'|);
    NumberedAppend(pieces, later, |acc|);
    AppendAssoc(acc, x, y);
  }

  /** Pushing a non-blank piece (and skipping a blank one) is numbering it
      on from the chunks already pushed. */
  lemma PushIsNumbered(acc: seq<DbChunk>, slice: string)
    ensures var pieces := if slice == [] then [] else [slice];
      var acc' := if slice == [] then acc else acc + [DbChunk(PageNumber(|acc|), |acc|, slice)];
      acc' == acc + Numbered(pieces, |acc|) && |acc'| == |acc| + |pieces|
  {
    if slice != [] {
      var pieces := [slice];
      assert pieces[1..] == [];
    } else {
      assert acc + [] == acc;
    }
  }

  /** The first window and the walk after it. */
  lemma WindowsStep(len: nat, chunkSize: nat, overlap: nat, start: nat, end: nat, next: int)
    requires chunkSize > overlap && start < len
    requires end == Min(len, start + chunkSize) && next == end - overlap
    ensures end == len ==> WindowsFrom(len, chunkSize, overlap, start) == [Window(start, end)]
    ensures end < len ==>
      next >= 0 && WindowsFrom(len, chunkSize, overlap, start) == [Window(start, end)] + WindowsFrom(len, chunkSize, overlap, next)
  {
  }

  /** `Kept` of a first window followed by more. */
  lemma KeptStep(text: string, w: Window, rest: seq<Window>)
    requires w.start <= w.end <= |text|
    ensures var piece := TrimRange(text, w.start, w.end);
      Kept(text, [w] + rest) == (if piece == [] then [] else [piece]) + Kept(text, rest)
  {
    var ws := [w] + rest;
    assert ws[0] == w && ws[1..] == rest;
  }

  /** One turn of the loop, read off `ChunksAcc`. */
  lemma AccStep(cleaned: string, chunkSize: nat, overlap: nat, start: nat, acc: seq<DbChunk>,
                end: nat, next: int, acc': seq<DbChunk>)
    requires chunkSize > overlap && start < |cleaned|
    requires end == Min(|cleaned|, start + chunkSize) && next == end - overlap
    requires acc' == var slice := TrimRange(cleaned, start, end);
      if slice == [] then acc else acc + [DbChunk(PageNumber(|acc|), |acc|, slice)]
    ensures end == |cleaned| ==> ChunksAcc(cleaned, chunkSize, overlap, start, acc) == acc'
    ensures end < |cleaned| ==> next >= 0 && ChunksAcc(cleaned, chunkSize, overlap, start, acc) == ChunksAcc(cleaned, chunkSize, overlap, next, acc')
  {
  }

  lemma {:induction false} NumberedAppend(a: seq<string>, b: seq<string>, first: nat)
    ensures Numbered(a + b, first) == Numbered(a, first) + Numbered(b, first + |a|)
    decreases |a|
  {
    if a == [] {
      assert a + b == b;
    } else {
      assert (a + b)[1..] == a[1..] + b;
      NumberedAppend(a[1..], b, first + 1);
    }
  }

  /** The `while` loop of `chunkTextForDb`. The code has no guard against
      `chunkSize <= overlap`; with such a pair the loop never ends once the
      cleaned text is longer than `chunkSize` (a text that fits in one window
      still ends after it). The model asks for `chunkSize > overlap`. */
  method ChunkTextForDb(fullText: string, chunkSize: nat, overlap: nat) returns (chunks: seq<DbChunk>)
    requires chunkSize > overlap
    ensures chunks == ChunkSpec(fullText, chunkSize, overlap)
    ensures AllSpace(ReplaceCrlf(fullText)) ==> chunks == []
  {
    var cleaned := Clean(fullText);
    if cleaned == [] {
      return [];
    }
    assert !AllSpace(ReplaceCrlf(fullText)) by { TrimFacts(ReplaceCrlf(fullText)); }
    ghost var spec := ChunksAcc(cleaned, chunkSize, overlap, 0, []);
    chunks := [];
    var start: nat := 0;
    var index: nat := 0;
    var len := |cleaned|;
    while start < len
      invariant index == |chunks|
      invariant ChunksAcc(cleaned, chunkSize, overlap, start, chunks) == spec
      decreases len - start
    {
      var end := Min(len, start + chunkSize);
      var slice := Trim(cleaned[start..end]);
      TrimRangeIsTrimOfSlice(cleaned, start, end);
      if |slice| > 0 {
        chunks := chunks + [DbChunk(PageNumber(index), index, slice)];
        index := index + 1;
      }
      if end == len {
        break;
      }
      start := end - overlap;
    }
  }

  /** Chunk `k` of `Numbered(pieces, first)` carries piece `k`, index
      `first + k` and the page that index falls on. */
  lemma {:induction false} NumberedAt(pieces: seq<string>, first: nat)
    ensures |Numbered(pieces, first)| == |pieces|
    ensures forall k :: 0 <= k < |pieces| ==>
      Numbered(pieces, first)[k] == DbChunk(PageNumber(first + k), first + k, pieces[k])
    decreases |pieces|
  {
    if pieces != [] {
      NumberedAt(pieces[1..], first + 1);
    }
  }

  /** Every kept piece is non-blank, trimmed, no wider than the widest
      window, and a verbatim slice of the text. */
  lemma {:induction false} KeptPieces(text: string, ws: seq<Window>, width: nat)
    requires WithinText(text, ws)
    requires forall k :: 0 <= k < |ws| ==> ws[k].end - ws[k].start <= width
    ensures forall k :: 0 <= k < |Kept(text, ws)| ==>
      var p := Kept(text, ws)[k];
      p != [] && IsTrimmed(p) && |p| <= width && exists i :: SliceAt(text, i, p)
    decreases |ws|
  {
    if ws != [] {
      KeptPieces(text, ws[1..], width);
      var piece := Piece(text, ws[0]);
      TrimRangeFacts(text, ws[0].start, ws[0].end);
      var pieces := if piece == [] then [] else [piece];
      assert Kept(text, ws) == pieces + Kept(text, ws[1..]);
    }
  }

  /** The chunks are the numbered trimmed windows of the cleaned text. */
  lemma ChunkSpecIsNumbered(fullText: string, chunkSize: nat, overlap: nat)
    requires chunkSize > overlap
    ensures var cleaned := Clean(fullText);
      ChunkSpec(fullText, chunkSize, overlap) == Numbered(Kept(cleaned, WindowsFrom(|cleaned|, chunkSize, overlap, 0)), 0)
  {
    var cleaned := Clean(fullText);
    var numbered := Numbered(Kept(cleaned, WindowsFrom(|cleaned|, chunkSize, overlap, 0)), 0);
    ChunksAreNumberedWindows(cleaned, chunkSize, overlap, 0, []);
    assert [] + numbered == numbered;
  }

  /** Emitted chunk indices are exactly 0 .. n-1 in emission order, and chunk
      `i` sits on page `1 + floor(i / 5)`. */
  lemma ChunkIndicesContiguous(fullText: string, chunkSize: nat, overlap: nat)
    requires chunkSize > overlap
    ensures var r := ChunkSpec(fullText, chunkSize, overlap);
      forall i :: 0 <= i < |r| ==> r[i].chunkIndex == i && r[i].pageNumber == 1 + i / 5
  {
    var cleaned := Clean(fullText);
    ChunkSpecIsNumbered(fullText, chunkSize, overlap);
    NumberedFromZero(Kept(cleaned, WindowsFrom(|cleaned|, chunkSize, overlap, 0)));
  }

  /** Numbering from 0 gives chunk `i` index `i` and page `1 + floor(i / 5)`. */
  lemma NumberedFromZero(pieces: seq<string>)
    ensures var r := Numbered(pieces, 0);
      forall i :: 0 <= i < |r| ==> r[i].chunkIndex == i && r[i].pageNumber == 1 + i / 5
  {
    var r := Numbered(pieces, 0);
    NumberedAt(pieces, 0);
    forall i | 0 <= i < |r| ensures r[i].chunkIndex == i && r[i].pageNumber == 1 + i / 5 {
      assert r[i] == DbChunk(PageNumber(i), i, pieces[i]);
      PageNumberIsFloor(i);
    }
  }


  /** Every chunk's text is non-empty, already trimmed, at most `chunkSize`
      characters long and copied verbatim from the cleaned text. */
  lemma ChunkTextsWellFormed(fullText: string, chunkSize: nat, overlap: nat)
    requires chunkSize > overlap
    ensures var r := ChunkSpec(fullText, chunkSize, overlap);
      forall i :: 0 <= i < |r| ==>
        r[i].text != [] && IsTrimmed(r[i].text) && |r[i].text| <= chunkSize
        && exists j :: SliceAt(Clean(fullText), j, r[i].text)
  {
    var cleaned := Clean(fullText);
    var ws := WindowsFrom(|cleaned|, chunkSize, overlap, 0);
    var pieces := Kept(cleaned, ws);
    var r := ChunkSpec(fullText, chunkSize, overlap);
    ChunkSpecIsNumbered(fullText, chunkSize, overlap);
    WindowsInRange(|cleaned|, chunkSize, overlap, 0);
    KeptPieces(cleaned, ws, chunkSize);
    NumberedAt(pieces, 0);
    forall i | 0 <= i < |r|
      ensures r[i].text != [] && IsTrimmed(r[i].text) && |r[i].text| <= chunkSize
        && exists j :: SliceAt(cleaned, j, r[i].text)
    {
      assert r[i].text == pieces[i];
    }
  }

  /** Text that is empty or whitespace once CR LF is replaced gives no chunks. */
  lemma BlankTextHasNoChunks(fullText: string, chunkSize: nat, overlap: nat)
    requires chunkSize > overlap
    requires AllSpace(ReplaceCrlf(fullText))
    ensures ChunkSpec(fullText, chunkSize, overlap) == []
  {
    TrimFacts(ReplaceCrlf(fullText));
  }

  /** The shape of the walk: it starts at `start`, every window ends at
      `min(len, start + chunkSize)`, the next begins `overlap` characters
      before the previous one ended (so neighbours share exactly `overlap`
      characters), and only the last window reaches the end of the text. */
  lemma {:induction false} WindowsChain(len: nat, chunkSize: nat, overlap: nat, start: nat)
    requires chunkSize > overlap
    ensures var ws := WindowsFrom(len, chunkSize, overlap, start);
      && (start < len <==> ws != [])
      && (ws != [] ==> ws[0].start == start && ws[|ws| - 1].end == len)
      && (forall k :: 0 <= k < |ws| ==> ws[k].end == Min(len, ws[k].start + chunkSize))
      && (forall k :: 0 <= k < |ws| - 1 ==> ws[k].end < len && ws[k + 1].start == ws[k].end - overlap)
  {
    WindowEnds(len, chunkSize, overlap, start);
    WindowWidths(len, chunkSize, overlap, start);
    WindowLinks(len, chunkSize, overlap, start);
  }

  lemma {:induction false} WindowEnds(len: nat, chunkSize: nat, overlap: nat, start: nat)
    requires chunkSize > overlap
    ensures var ws := WindowsFrom(len, chunkSize, overlap, start);
      && (start < len <==> ws != [])
      && (ws != [] ==> ws[0].start == start && ws[|ws| - 1].end == len)
    decreases len - start
  {
    if start < len {
      var end := Min(len, start + chunkSize);
      var next := end - overlap;
      WindowsStep(len, chunkSize, overlap, start, end, next);
      if end < len {
        WindowEnds(len, chunkSize, overlap, next);
        var ws := WindowsFrom(len, chunkSize, overlap, start);
        var rest := WindowsFrom(len, chunkSize, overlap, next);
        assert ws[|ws| - 1] == rest[|rest| - 1];
      }
    }
  }

  lemma {:induction false} WindowWidths(len: nat, chunkSize: nat, overlap: nat, start: nat)
    requires chunkSize > overlap
    ensures var ws := WindowsFrom(len, chunkSize, overlap, start);
      forall k :: 0 <= k < |ws| ==> ws[k].end == Min(len, ws[k].start + chunkSize)
    decreases len - start
  {
    if start < len {
      var end := Min(len, start + chunkSize);
      var next := end - overlap;
      WindowsStep(len, chunkSize, overlap, start, end, next);
      if end < len {
        WindowWidths(len, chunkSize, overlap, next);
        var ws := WindowsFrom(len, chunkSize, overlap, start);
        var rest := WindowsFrom(len, chunkSize, overlap, next);
        forall k | 0 < k < |ws|
          ensures ws[k].end == Min(len, ws[k].start + chunkSize)
        {
          assert ws[k] == rest[k - 1];
        }
      }
    }
  }

  lemma {:induction false} WindowLinks(len: nat, chunkSize: nat, overlap: nat, start: nat)
    requires chunkSize > overlap
    ensures var ws := WindowsFrom(len, chunkSize, overlap, start);
      forall k :: 0 <= k < |ws| - 1 ==> ws[k].end < len && ws[k + 1].start == ws[k].end - overlap
    decreases len - start
  {
    if start < len {
      var end := Min(len, start + chunkSize);
      var next := end - overlap;
      WindowsStep(len, chunkSize, overlap, start, end, next);
      if end < len {
        WindowLinks(len, chunkSize, overlap, next);
        WindowEnds(len, chunkSize, overlap, next);
        var ws := WindowsFrom(len, chunkSize, overlap, start);
        var rest := WindowsFrom(len, chunkSize, overlap, next);
        forall k | 0 <= k < |ws| - 1
          ensures ws[k].end < len && ws[k + 1].start == ws[k].end - overlap
        {
          assert ws[k + 1] == rest[k];
          if k > 0 { assert ws[k] == rest[k - 1]; }
        }
      }
    }
  }



  /** A cleaned text no longer than one window is a single chunk on page 1
      with index 0 holding the whole cleaned text. */
  lemma ShortTextIsOneChunk(fullText: string, chunkSize: nat, overlap: nat)
    requires chunkSize > overlap
    requires 0 < |Clean(fullText)| <= chunkSize
    ensures ChunkSpec(fullText, chunkSize, overlap) == [DbChunk(1, 0, Clean(fullText))]
  {
    var cleaned := Clean(fullText);
    TrimFacts(ReplaceCrlf(fullText));
    assert cleaned[0..|cleaned|] == cleaned;
    TrimOfTrimmed(cleaned);
  }
}
