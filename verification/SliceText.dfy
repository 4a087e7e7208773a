// The text of a provenance slice, decoded from the file or projected from its record (source_slice_text.cpp).
module SliceText {
  import opened Bytes
  import opened Tokens
  import opened TokenLaws
  import opened RecordFraming
  import opened Redecode
  import opened Ascii

  const SIZE: nat := 0x1_0000_0000_0000_0000

  type Size = n: nat | n < SIZE witness 0

  datatype Slice = Slice(tokenBegin: Size, tokenEnd: Size, byteBegin: nat, byteEnd: nat,
                         characterBegin: nat, characterEnd: nat)

  datatype Refusal = Reversed | NotTiled | OtherCount | OutsideWord

  datatype Outcome = Text(text: Bytes) | Refused(refusal: Refusal)

  /** `slice.token_end - slice.token_begin` in `std::size_t`. */
  function Expected(slice: Slice): Size {
    (slice.tokenEnd - slice.tokenBegin) % SIZE
  }

  function TokensText(tokens: seq<Token>): Bytes {
    if tokens == [] then [] else TokensText(tokens[..|tokens| - 1]) + TextOf(Body(tokens[|tokens| - 1].words))
  }

  /** What a slice says of its tokens, once they are found. */
  function Reading(tokens: seq<Token>, slice: Slice): Outcome {
    var text := TokensText(tokens);
    if Expected(slice) != 0 && |tokens| != Expected(slice) then Refused(OtherCount)
    else if slice.characterEnd == 0 then Text(text)
    else if slice.characterBegin >= slice.characterEnd || slice.characterEnd > |text| then Refused(OutsideWord)
    else Text(text[slice.characterBegin..slice.characterEnd])
  }

  function Decoded(book: Book, slice: Slice): Outcome {
    if slice.byteBegin > slice.byteEnd then Refused(Reversed)
    else if slice.byteEnd > |book.bytes| then Refused(NotTiled)
    else Reading(Walk(book, slice.byteBegin, slice.byteEnd), slice)
  }

  /** `decode_source_slice_text`. */
  method DecodeSliceText(book: Book, slice: Slice) returns (r: Outcome)
    ensures r == Decoded(book, slice)
  {
    hide TextOf, Walk;
    if slice.byteBegin > slice.byteEnd { return Refused(Reversed); }
    var found := DecodeRange(book, slice.byteBegin, slice.byteEnd);
    if found.None? { return Refused(NotTiled); }
    var tokens := found.value;
    var expected := Expected(slice);
    if expected != 0 && |tokens| != expected { return Refused(OtherCount); }
    var text: Bytes := [];
    for k := 0 to |tokens|
      invariant text == TokensText(tokens[..k])
    {
      var words := tokens[k].words;
      var piece := TokenWordsToAscii(if HasSpacingControl(words) then words[1..] else words);
      assert tokens[..k + 1][..k] == tokens[..k];
      text := text + piece;
    }
    assert tokens[..|tokens|] == tokens;
    if slice.characterEnd == 0 { return Text(text); }
    if slice.characterBegin >= slice.characterEnd || slice.characterEnd > |text| { return Refused(OutsideWord); }
    r := Text(text[slice.characterBegin..slice.characterEnd]);
  }

  /** The text of a run of tokens: of each the words without a leading one below 4, one token after the other. */
  lemma TokensTextIs(tokens: seq<Token>, t: Token)
    ensures TokensText([]) == []
    ensures TokensText(tokens + [t])
            == TokensText(tokens) + TextOf(if t.words != [] && t.words[0] < 4 then t.words[1..] else t.words)
  {
    assert (tokens + [t])[..|tokens|] == tokens;
    hide TextOf;
  }

  /** What a slice says of its tokens: nothing of another number of them, where it gives one; all of their text, or the
      characters it names if they lie in the text. */
  lemma ReadingIs(tokens: seq<Token>, slice: Slice)
    ensures var asked := if slice.tokenEnd >= slice.tokenBegin then slice.tokenEnd - slice.tokenBegin
                         else slice.tokenEnd - slice.tokenBegin + 0x1_0000_0000_0000_0000;
            var text := TokensText(tokens);
            Reading(tokens, slice)
            == if asked != 0 && asked != |tokens| then Refused(OtherCount)
               else if slice.characterEnd == 0 then Text(text)
               else if slice.characterBegin < slice.characterEnd <= |text| then
                 Text(text[slice.characterBegin..slice.characterEnd])
               else Refused(OutsideWord)
  {
    hide TokensText;
  }

  /** Decoding refuses a window that is reversed or not in the file, and else reads the tokens of its bytes. */
  lemma DecodedIs(book: Book, slice: Slice)
    ensures slice.byteBegin > slice.byteEnd ==> Decoded(book, slice) == Refused(Reversed)
    ensures slice.byteBegin <= slice.byteEnd && slice.byteEnd > |book.bytes| ==> Decoded(book, slice) == Refused(NotTiled)
    ensures slice.byteBegin <= slice.byteEnd <= |book.bytes| ==>
              Decoded(book, slice) == Reading(Walk(book, slice.byteBegin, slice.byteEnd), slice)
  {
  }

  /** The tokens that lie in the window. */
  function Within(tokens: seq<Token>, begin: nat, end: nat): seq<Token> {
    if tokens == [] then []
    else
      var t := tokens[|tokens| - 1];
      Within(tokens[..|tokens| - 1], begin, end) + if t.begin < begin || t.end > end then [] else [t]
  }

  /** Each token begins where the one before it ended, the first at `begin`. */
  ghost predicate Abut(tokens: seq<Token>, begin: nat) {
    forall k | 0 <= k < |tokens| :: tokens[k].begin == EndOf(tokens[..k], begin)
  }

  /** Exactly the tokens of the window are found. */
  lemma {:induction false} WithinExactly(tokens: seq<Token>, begin: nat, end: nat, t: Token)
    ensures t in Within(tokens, begin, end) <==> t in tokens && begin <= t.begin && t.end <= end
  {
    if tokens != [] {
      var front, last := tokens[..|tokens| - 1], tokens[|tokens| - 1];
      WithinExactly(front, begin, end, t);
      assert tokens == front + [last];
    }
  }

  ghost function Projected(tokens: seq<Token>, slice: Slice): Outcome {
    var inside := Within(tokens, slice.byteBegin, slice.byteEnd);
    if slice.byteBegin > slice.byteEnd then Refused(Reversed)
    else if !Abut(inside, slice.byteBegin) || EndOf(inside, slice.byteBegin) != slice.byteEnd then Refused(NotTiled)
    else Reading(inside, slice)
  }

  /** `project_source_slice_text`. */
  method ProjectSliceText(tokens: seq<Token>, slice: Slice) returns (r: Outcome)
    ensures r == Projected(tokens, slice)
  {
    hide Within, Abut, EndOf, TokensText;
    if slice.byteBegin > slice.byteEnd { return Refused(Reversed); }
    var text: Bytes := [];
    var cursor, count := slice.byteBegin, 0;
    ghost var inside: seq<Token> := [];
    NothingWithin(tokens, slice);
    for k := 0 to |tokens|
      invariant inside == Within(tokens[..k], slice.byteBegin, slice.byteEnd)
      invariant Abut(inside, slice.byteBegin) && cursor == EndOf(inside, slice.byteBegin)
      invariant count == |inside| && text == TokensText(inside)
    {
      var token := tokens[k];
      WithinNext(tokens, k, slice.byteBegin, slice.byteEnd);
      if token.begin < slice.byteBegin || token.end > slice.byteEnd { continue; }
      if token.begin != cursor {
        Broken(tokens, k, slice);
        return Refused(NotTiled);
      }
      AbutGrows(inside, slice.byteBegin, token);
      cursor, count := token.end, count + 1;
      var piece := TokenWordsToAscii(if HasSpacingControl(token.words) then token.words[1..] else token.words);
      text, inside := text + piece, inside + [token];
    }
    assert tokens[..|tokens|] == tokens;
    if cursor != slice.byteEnd { return Refused(NotTiled); }
    var expected := Expected(slice);
    if expected != 0 && count != expected { return Refused(OtherCount); }
    if slice.characterEnd == 0 { return Text(text); }
    if slice.characterBegin >= slice.characterEnd || slice.characterEnd > |text| { return Refused(OutsideWord); }
    r := Text(text[slice.characterBegin..slice.characterEnd]);
  }

  lemma NothingWithin(tokens: seq<Token>, slice: Slice)
    ensures Within(tokens[..0], slice.byteBegin, slice.byteEnd) == []
    ensures Abut([], slice.byteBegin) && EndOf([], slice.byteBegin) == slice.byteBegin && TokensText([]) == []
  {
  }

  lemma WithinNext(tokens: seq<Token>, k: nat, begin: nat, end: nat)
    requires k < |tokens|
    ensures Within(tokens[..k + 1], begin, end)
            == Within(tokens[..k], begin, end) + if tokens[k].begin < begin || tokens[k].end > end then [] else [tokens[k]]
  {
    assert tokens[..k + 1][..k] == tokens[..k];
  }

  /** A token of the window that does not begin where the one before it ended breaks the tiling. */
  lemma Broken(tokens: seq<Token>, k: nat, slice: Slice)
    requires k < |tokens| && slice.byteBegin <= tokens[k].begin && tokens[k].end <= slice.byteEnd
    requires tokens[k].begin != EndOf(Within(tokens[..k], slice.byteBegin, slice.byteEnd), slice.byteBegin)
    ensures !Abut(Within(tokens, slice.byteBegin, slice.byteEnd), slice.byteBegin)
  {
    hide Within, EndOf;
    var before := Within(tokens[..k], slice.byteBegin, slice.byteEnd);
    var inside := Within(tokens, slice.byteBegin, slice.byteEnd);
    WithinNext(tokens, k, slice.byteBegin, slice.byteEnd);
    WithinGrows(tokens, k + 1, slice.byteBegin, slice.byteEnd);
    assert inside[|before|] == tokens[k] && inside[..|before|] == before;
  }

  lemma {:induction false} WithinGrows(tokens: seq<Token>, k: nat, begin: nat, end: nat)
    requires k <= |tokens|
    ensures Within(tokens[..k], begin, end) <= Within(tokens, begin, end)
    decreases |tokens|
  {
    if k == |tokens| {
      assert tokens[..k] == tokens;
    } else {
      var front := tokens[..|tokens| - 1];
      WithinGrows(front, k, begin, end);
      assert front[..k] == tokens[..k];
    }
  }

  lemma AbutGrows(tokens: seq<Token>, begin: nat, token: Token)
    requires Abut(tokens, begin) && token.begin == EndOf(tokens, begin)
    ensures Abut(tokens + [token], begin) && EndOf(tokens + [token], begin) == token.end
    ensures TokensText(tokens + [token]) == TokensText(tokens) + TextOf(Body(token.words))
  {
    assert (tokens + [token])[..|tokens|] == tokens;
    var grown := tokens + [token];
    forall k | 0 <= k < |grown| ensures grown[k].begin == EndOf(grown[..k], begin) {
      assert grown[..k] == tokens[..k];
      if k == |tokens| { assert tokens[..k] == tokens; }
    }
  }

  // ----- both ways of reading a slice

  /** Between two boundaries of a tiling lie just the tokens between them. */
  lemma {:induction false} WithinIsWindow(tokens: seq<Token>, begin: nat, end: nat, i: nat, j: nat, n: nat)
    requires Tile(tokens, begin, end) && i <= j <= |tokens| && n <= |tokens|
    ensures Within(tokens[..n], Boundary(tokens, i, end), Boundary(tokens, j, end))
            == if n <= i then [] else if n <= j then tokens[i..n] else tokens[i..j]
    decreases n
  {
    hide Tile, Boundary;
    if n > 0 {
      WithinIsWindow(tokens, begin, end, i, j, n - 1);
      assert tokens[..n][..n - 1] == tokens[..n - 1];
      LiesBetween(tokens, begin, end, i, j, n - 1);
    }
  }

  /** A token lies between two boundaries exactly when it is one of the tokens between them. */
  lemma LiesBetween(tokens: seq<Token>, begin: nat, end: nat, i: nat, j: nat, k: nat)
    requires Tile(tokens, begin, end) && i <= j <= |tokens| && k < |tokens|
    ensures i <= k < j <==> Boundary(tokens, i, end) <= tokens[k].begin && tokens[k].end <= Boundary(tokens, j, end)
  {
    hide Tile, Boundary;
    TileOrder(tokens, begin, end, k);
    BoundariesGrow(tokens, begin, end, i, k);
    BoundariesGrow(tokens, begin, end, j, k);
  }

  lemma BoundariesGrow(tokens: seq<Token>, begin: nat, end: nat, i: nat, k: nat)
    requires Tile(tokens, begin, end) && i <= |tokens| && k < |tokens|
    ensures if i <= k then Boundary(tokens, i, end) <= tokens[k].begin else tokens[k].end <= Boundary(tokens, i, end)
    ensures Boundary(tokens, k + 1, end) == tokens[k].end
  {
    hide Tile;
    TileOrder(tokens, begin, end, i);
    TileOrder(tokens, begin, end, k);
    if i < k { TileOrder(tokens, begin, end, k); WindowTiles(tokens, begin, end, i, k); }
    WindowTiles(tokens, begin, end, k, k + 1);
    TileBounds(tokens[k..k + 1], tokens[k].begin, Boundary(tokens, k + 1, end));
  }

  /** A tiling's own window abuts. */
  lemma {:induction false} TileAbuts(tokens: seq<Token>, begin: nat, end: nat)
    requires Tile(tokens, begin, end)
    ensures Abut(tokens, begin) && EndOf(tokens, begin) == end
  {
    if tokens != [] {
      TileAbuts(tokens[1..], tokens[0].end, end);
      assert forall k | 1 <= k < |tokens| :: tokens[k] == tokens[1..][k - 1];
    }
  }

  lemma {:induction false} BareText(tokens: seq<Token>)
    ensures TokensText(Bare(tokens)) == TokensText(tokens)
  {
    if tokens != [] {
      var front := tokens[..|tokens| - 1];
      BareText(front);
      assert Bare(tokens)[..|tokens| - 1] == Bare(front);
    }
  }

  /** A slice of a record on token boundaries reads the same from the file and from the record: the same text,
      or the same refusal. The window must read alone: no length byte of two-byte rank before its last token. */
  lemma SliceReadsTheSame(book: Book, begin: nat, end: nat, i: nat, j: nat, slice: Slice)
    requires begin <= end <= |book.bytes| && i <= j <= |RecordOf(book, begin, end).tokens|
    requires slice.byteBegin == Boundary(RecordOf(book, begin, end).tokens, i, end)
    requires slice.byteEnd == Boundary(RecordOf(book, begin, end).tokens, j, end)
    requires ReadsAlone(book, RecordOf(book, begin, end), i, j)
    ensures Decoded(book, slice) == Projected(RecordOf(book, begin, end).tokens, slice)
  {
    hide RecordOf, Tile, ReadsAlone, Walk, FramingHolds, Framed, Abut, EndOf, Reading;
    var tokens := RecordOf(book, begin, end).tokens;
    WindowIsReadAgain(book, begin, end, i, j);
    DecodedRecordVerifies(book, begin, end);
    var window := tokens[i..j];
    ProjectedWindow(tokens, begin, end, i, j, slice);
    BareReading(window, slice);
  }

  lemma ProjectedWindow(tokens: seq<Token>, begin: nat, end: nat, i: nat, j: nat, slice: Slice)
    requires Tile(tokens, begin, end) && i <= j <= |tokens|
    requires slice.byteBegin == Boundary(tokens, i, end) && slice.byteEnd == Boundary(tokens, j, end)
    ensures slice.byteBegin <= slice.byteEnd && Projected(tokens, slice) == Reading(tokens[i..j], slice)
  {
    hide Tile, Abut, EndOf, Reading;
    WithinIsWindow(tokens, begin, end, i, j, |tokens|);
    assert tokens[..|tokens|] == tokens;
    WindowTiles(tokens, begin, end, i, j);
    TileAbuts(tokens[i..j], slice.byteBegin, slice.byteEnd);
  }

  lemma BareReading(tokens: seq<Token>, slice: Slice)
    ensures Reading(Bare(tokens), slice) == Reading(tokens, slice)
  {
    BareText(tokens);
  }

  lemma {:induction false} WithinAreTokens(tokens: seq<Token>, begin: nat, end: nat)
    ensures forall t | t in Within(tokens, begin, end) :: t in tokens
  {
    if tokens != [] { WithinAreTokens(tokens[..|tokens| - 1], begin, end); }
  }

  /** The window starts and ends where tokens start and end. */
  ghost predicate OnBoundaries(tokens: seq<Token>, end: nat, slice: Slice) {
    exists i, j :: 0 <= i <= j <= |tokens|
      && slice.byteBegin == Boundary(tokens, i, end) && slice.byteEnd == Boundary(tokens, j, end)
  }

  /** Projecting a non-empty window finds whole tokens exactly when both its ends are token boundaries. */
  lemma ProjectionNeedsBoundaries(tokens: seq<Token>, begin: nat, end: nat, slice: Slice)
    requires Tile(tokens, begin, end) && slice.byteBegin < slice.byteEnd
    ensures Projected(tokens, slice) != Refused(NotTiled) <==> OnBoundaries(tokens, end, slice)
  {
    hide Tile, Abut, Reading, OnBoundaries;
    var inside := Within(tokens, slice.byteBegin, slice.byteEnd);
    ReadingIsNotTiling(inside, slice);
    if Projected(tokens, slice) != Refused(NotTiled) {
      FoundOnBoundaries(tokens, begin, end, slice);
    }
    if OnBoundaries(tokens, end, slice) {
      var i, j := Boundaries(tokens, end, slice);
      ProjectedWindow(tokens, begin, end, i, j, slice);
      ReadingIsNotTiling(tokens[i..j], slice);
    }
  }

  lemma Boundaries(tokens: seq<Token>, end: nat, slice: Slice) returns (i: nat, j: nat)
    requires OnBoundaries(tokens, end, slice)
    ensures i <= j <= |tokens|
    ensures slice.byteBegin == Boundary(tokens, i, end) && slice.byteEnd == Boundary(tokens, j, end)
  {
    i, j :| 0 <= i <= j <= |tokens|
      && slice.byteBegin == Boundary(tokens, i, end) && slice.byteEnd == Boundary(tokens, j, end);
  }

  lemma ReadingIsNotTiling(tokens: seq<Token>, slice: Slice)
    ensures Reading(tokens, slice) != Refused(NotTiled)
  {
  }

  lemma FoundOnBoundaries(tokens: seq<Token>, begin: nat, end: nat, slice: Slice)
    requires Tile(tokens, begin, end) && slice.byteBegin < slice.byteEnd
    requires Abut(Within(tokens, slice.byteBegin, slice.byteEnd), slice.byteBegin)
    requires EndOf(Within(tokens, slice.byteBegin, slice.byteEnd), slice.byteBegin) == slice.byteEnd
    ensures OnBoundaries(tokens, end, slice)
  {
    hide Tile, Within;
    var inside := Within(tokens, slice.byteBegin, slice.byteEnd);
    var first, last := inside[0], inside[|inside| - 1];
    assert first in inside && last in inside;
    assert inside[..0] == [];
    WithinAreTokens(tokens, slice.byteBegin, slice.byteEnd);
    var i: nat :| i < |tokens| && tokens[i] == first;
    var k: nat :| k < |tokens| && tokens[k] == last;
    BoundariesGrow(tokens, begin, end, k + 1, i);
    BoundariesGrow(tokens, begin, end, k, k);
    assert slice.byteBegin == Boundary(tokens, i, end) && slice.byteEnd == Boundary(tokens, k + 1, end);
  }

  /** Two bytes that are one display line, whose length byte is at the threshold. */
  function LongLine(): Book {
    Book([1, 5], 1, 0, map[])
  }

  function LongLineTokens(): seq<Token> {
    [TokenOf(LongLine(), 0, 1), TokenOf(LongLine(), 1, 1)]
  }

  lemma LongLineWalks()
    ensures LineWalk(LongLine(), 0, 2) == Some(LongLineTokens())
    ensures Walk(LongLine(), 0, 2) == [TokenOf(LongLine(), 0, 2)]
  {
    var book := LongLine();
    assert Content(book, 2, 2, 2) == [] && Content(book, 1, 2, 2) == [TokenOf(book, 1, 1)];
    assert LineEnd(book, 0) == 2 && LineTokens(book, 0, 2) == LongLineTokens();
    assert LineWalk(book, 2, 2) == Some([]) && LongLineTokens() + [] == LongLineTokens();
  }

  lemma LongLineLines()
    ensures DisplayLines(LongLineTokens(), 0, 2) == Some([Line(0, 2)])
  {
    var tokens := LongLineTokens();
    assert tokens[0].value == 1;
    LineStopIs(tokens, 1, 2, 2);
    assert DisplayLines(tokens, 2, 2) == Some([]) && [Line(0, 2)] + [] == [Line(0, 2)];
  }

  /** The condition is needed: across a long length byte the file gives one token where the record has two, so
      the one reading refuses the slice that the other reads. */
  lemma LongLengthReadsApart()
    ensures var r := RecordOf(LongLine(), 0, 2);
            var slice := Slice(0, 2, 0, 2, 0, 0);
            && |r.tokens| == 2 && r.tokens[0].framing == LineLength && r.tokens[1].framing == LineContent
            && Decoded(LongLine(), slice) == Refused(OtherCount) && Projected(r.tokens, slice).Text?
  {
    hide Walk, LineWalk, DisplayLines, TokenOf, Tile, FramingHolds, TokensText, Within;
    var book, slice := LongLine(), Slice(0, 2, 0, 2, 0, 0);
    LongLineWalks();
    LongLineLines();
    var lines := [Line(0, 2)];
    assert lines[0].prefix == 0 && lines[0].end == 2;
    var r := RecordOf(book, 0, 2);
    DecodedRecordVerifies(book, 0, 2);
    assert Boundary(r.tokens, 0, 2) == 0 && Boundary(r.tokens, 2, 2) == 2;
    assert r.tokens[0..2] == r.tokens;
    ProjectedWindow(r.tokens, 0, 2, 0, 2, slice);
  }
}
