// What the two walks agree on, what a record's framing promises, and when bytes decode again to the same tokens.
module TokenLaws {
  import opened Bytes
  import opened Tokens

  /** The tokens cover [begin, end) one after the other, with nothing between them. */
  ghost predicate Tile(tokens: seq<Token>, begin: nat, end: nat) {
    if tokens == [] then begin == end
    else tokens[0].begin == begin && begin < tokens[0].end && Tile(tokens[1..], tokens[0].end, end)
  }

  /** Where token `k` starts; past the last token, where the tokens end. */
  function Boundary(tokens: seq<Token>, k: nat, end: nat): nat
    requires k <= |tokens|
  {
    if k < |tokens| then tokens[k].begin else end
  }

  lemma {:induction false} TileBounds(tokens: seq<Token>, begin: nat, end: nat)
    requires Tile(tokens, begin, end)
    ensures begin <= end
    ensures forall k | 0 <= k < |tokens| :: begin <= tokens[k].begin < tokens[k].end <= end
    ensures tokens != [] ==> tokens[|tokens| - 1].end == end
  {
    if tokens != [] {
      TileBounds(tokens[1..], tokens[0].end, end);
      assert forall k | 1 <= k < |tokens| :: tokens[k] == tokens[1..][k - 1];
    }
  }

  /** A tiling splits at any of its boundaries. */
  lemma {:induction false} TileSplit(tokens: seq<Token>, begin: nat, end: nat, k: nat)
    requires Tile(tokens, begin, end) && k <= |tokens|
    ensures Tile(tokens[..k], begin, Boundary(tokens, k, end))
    ensures Tile(tokens[k..], Boundary(tokens, k, end), end)
  {
    if k == 0 {
      assert tokens[..0] == [] && tokens[0..] == tokens;
    } else {
      var tail := tokens[1..];
      TileSplit(tail, tokens[0].end, end, k - 1);
      assert tokens[..k][1..] == tail[..k - 1];
      assert tokens[k..] == tail[k - 1..];
      assert Boundary(tokens, k, end) == Boundary(tail, k - 1, end);
    }
  }

  lemma {:induction false} TileJoin(left: seq<Token>, right: seq<Token>, begin: nat, middle: nat, end: nat)
    requires Tile(left, begin, middle) && Tile(right, middle, end)
    ensures Tile(left + right, begin, end)
  {
    if left == [] {
      assert left + right == right;
    } else {
      TileJoin(left[1..], right, left[0].end, middle, end);
      assert (left + right)[1..] == left[1..] + right;
    }
  }

  // ----- both walks tile the payload

  lemma {:induction false} WalkTiles(book: Book, at: nat, end: nat)
    requires at <= end <= |book.bytes|
    ensures Tile(Walk(book, at, end), at, end)
    decreases end - at
  {
    if at < end {
      var t := TokenOf(book, at, Width(book, at, end));
      WalkTiles(book, t.end, end);
      assert ([t] + Walk(book, t.end, end))[1..] == Walk(book, t.end, end);
    }
  }

  lemma {:induction false} ContentTiles(book: Book, at: nat, lineEnd: nat, end: nat)
    requires at <= lineEnd <= end <= |book.bytes|
    ensures Tile(Content(book, at, lineEnd, end), at, EndOf(Content(book, at, lineEnd, end), at))
    decreases lineEnd - at
  {
    if at < lineEnd {
      var t := TokenOf(book, at, Width(book, at, end));
      var rest := Content(book, t.end, lineEnd, end);
      if t.end <= lineEnd { ContentTiles(book, t.end, lineEnd, end); }
      assert ([t] + rest)[1..] == rest;
      assert EndOf([t] + rest, at) == EndOf(rest, t.end);
    }
  }

  lemma LineTiles(book: Book, at: nat, end: nat)
    requires at < end <= |book.bytes| && LineEnd(book, at) <= end
    ensures Tile(LineTokens(book, at, end), at, EndOf(LineTokens(book, at, end), at))
  {
    var content := Content(book, at + 1, LineEnd(book, at), end);
    ContentTiles(book, at + 1, LineEnd(book, at), end);
    assert LineTokens(book, at, end)[1..] == content;
  }

  /** When re-decoding line by line succeeds, its tokens cover the payload exactly. */
  lemma {:induction false} LineWalkTiles(book: Book, at: nat, end: nat)
    requires at <= end <= |book.bytes| && LineWalk(book, at, end).Some?
    ensures Tile(LineWalk(book, at, end).value, at, end)
    decreases end - at
  {
    if at < end {
      var next := LineEnd(book, at);
      LineTiles(book, at, end);
      LineWalkTiles(book, next, end);
      TileJoin(LineTokens(book, at, end), LineWalk(book, next, end).value, at, next, end);
    }
  }

  // ----- display lines of either walk

  /** A plain walk goes on from any of its boundaries, and up to it is what a line of that end would hold. */
  lemma {:induction false} WalkCut(book: Book, at: nat, end: nat, k: nat)
    requires at <= end <= |book.bytes| && k <= |Walk(book, at, end)|
    ensures var p := Boundary(Walk(book, at, end), k, end);
            && at <= p <= end && Walk(book, at, end)[k..] == Walk(book, p, end)
            && Content(book, at, p, end) == Walk(book, at, end)[..k]
            && EndOf(Walk(book, at, end)[..k], at) == p
    decreases k
  {
    var w := Walk(book, at, end);
    if k == 0 {
      assert w[0..] == w && w[..0] == [];
    } else {
      var t := w[0];
      var rest := Walk(book, t.end, end);
      assert w == [t] + rest;
      WalkCut(book, t.end, end, k - 1);
      var p := Boundary(rest, k - 1, end);
      assert Boundary(w, k, end) == p;
      assert w[k..] == rest[k - 1..];
      assert w[..k] == [t] + rest[..k - 1];
      assert EndOf(w[..k], at) == EndOf(rest[..k - 1], t.end);
    }
  }

  lemma LineOfWalk(book: Book, at: nat, end: nat, k: nat)
    requires at < end <= |book.bytes| && 0 < k <= |Walk(book, at, end)|
    requires Walk(book, at, end)[0].end == at + 1
    requires Boundary(Walk(book, at, end), k, end) == LineEnd(book, at)
    ensures LineEnd(book, at) <= end && LineTokens(book, at, end) == Walk(book, at, end)[..k]
    ensures Walk(book, at, end)[k..] == Walk(book, LineEnd(book, at), end)
    ensures EndOf(LineTokens(book, at, end), at) == LineEnd(book, at)
  {
    hide Content;
    var w, next := Walk(book, at, end), LineEnd(book, at);
    var rest := Walk(book, at + 1, end);
    assert w == [TokenOf(book, at, 1)] + rest;
    assert Boundary(rest, k - 1, end) == next;
    WalkCut(book, at + 1, end, k - 1);
    assert w[..k] == [TokenOf(book, at, 1)] + rest[..k - 1];
    assert w[k..] == rest[k - 1..];
  }

  lemma FirstLine(tokens: seq<Token>, i: nat, end: nat) returns (stop: nat)
    requires i < |tokens| && DisplayLines(tokens, i, end).Some?
    ensures tokens[i].end == tokens[i].begin + 1 && i < stop <= |tokens|
    ensures Boundary(tokens, stop, end) == tokens[i].end + tokens[i].value
    ensures DisplayLines(tokens, stop, end).Some?
  {
    stop := LineStop(tokens, i + 1, tokens[i].end + tokens[i].value);
  }

  /** Where the plain walk already falls into display lines, the line-by-line walk gives the same tokens. */
  lemma {:induction false} FramedWalkIsLineWalk(book: Book, tokens: seq<Token>, i: nat, at: nat, end: nat)
    requires at <= end <= |book.bytes| && i <= |tokens| && tokens[i..] == Walk(book, at, end)
    requires DisplayLines(tokens, i, end).Some?
    ensures LineWalk(book, at, end) == Some(tokens[i..])
    decreases |tokens| - i
  {
    hide Width, Content, LineTokens, DisplayLines;
    if at < end {
      var w := Walk(book, at, end);
      assert tokens[i] == w[0];
      var next := LineEnd(book, at);
      var stop := FirstLine(tokens, i, end);
      var k := stop - i;
      assert Boundary(tokens, stop, end) == Boundary(w, k, end) by {
        if stop < |tokens| { assert tokens[stop] == tokens[i..][k]; }
      }
      LineOfWalk(book, at, end, k);
      hide Walk;
      assert tokens[stop..] == tokens[i..][k..];
      FramedWalkIsLineWalk(book, tokens, stop, next, end);
      assert tokens[i..] == w[..k] + w[k..];
    }
  }

  lemma LineWalkStarts(book: Book, at: nat, end: nat)
    requires at <= end <= |book.bytes| && LineWalk(book, at, end).Some?
    ensures LineWalk(book, at, end).value == [] <==> at == end
    ensures at < end ==> LineWalk(book, at, end).value[0].begin == at && LineWalk(book, at, end).value[0].end == at + 1
  {
  }

  lemma LineStopIs(tokens: seq<Token>, k: nat, stop: nat, lineEnd: nat)
    requires k <= stop <= |tokens|
    requires forall i | k <= i < stop :: tokens[i].end <= lineEnd
    requires stop < |tokens| ==> tokens[stop].end > lineEnd
    ensures LineStop(tokens, k, lineEnd) == stop
  {
  }

  lemma FirstLineOfLineWalk(book: Book, tokens: seq<Token>, i: nat, at: nat, end: nat)
    requires at < end <= |book.bytes| && i <= |tokens| && LineWalk(book, at, end) == Some(tokens[i..])
    ensures var next := LineEnd(book, at);
            var stop := i + |LineTokens(book, at, end)|;
            && next <= end && i < stop <= |tokens| && tokens[i] == TokenOf(book, at, 1)
            && tokens[i..stop] == LineTokens(book, at, end)
            && LineWalk(book, next, end) == Some(tokens[stop..])
            && LineStop(tokens, i + 1, next) == stop && Boundary(tokens, stop, end) == next
  {
    hide Content, Tile, LineStop, TokenOf;
    var next := LineEnd(book, at);
    var line := LineTokens(book, at, end);
    var rest := LineWalk(book, next, end).value;
    var stop := i + |line|;
    assert tokens[i..] == line + rest;
    assert |tokens[i..]| == |line + rest| && |tokens[i..]| == |tokens| - i;
    assert tokens[i..stop] == tokens[i..][..|line|] == line;
    assert tokens[stop..] == tokens[i..][|line|..] == rest;
    assert tokens[i] == tokens[i..stop][0] == line[0];
    LineTiles(book, at, end);
    TileBounds(line, at, next);
    forall k | i + 1 <= k < stop ensures tokens[k].end <= next {
      assert tokens[k] == tokens[i..stop][k - i] == line[k - i];
    }
    LineWalkStarts(book, next, end);
    if stop < |tokens| { assert tokens[stop] == tokens[stop..][0] == rest[0]; }
    LineStopIs(tokens, i + 1, stop, next);
  }

  /** Whatever the line-by-line walk gives falls into display lines. */
  lemma {:induction false} LineWalkIsFramed(book: Book, tokens: seq<Token>, i: nat, at: nat, end: nat)
    requires at <= end <= |book.bytes| && i <= |tokens| && LineWalk(book, at, end) == Some(tokens[i..])
    ensures DisplayLines(tokens, i, end).Some?
    decreases |tokens| - i
  {
    hide LineWalk, LineTokens, LineStop;
    LineWalkStarts(book, at, end);
    if at < end {
      FirstLineOfLineWalk(book, tokens, i, at, end);
      var stop := i + |LineTokens(book, at, end)|;
      LineWalkIsFramed(book, tokens, stop, LineEnd(book, at), end);
    }
  }

  // ----- which payloads are made of display lines

  /** Taking tokens from `at` on lands exactly on `to`. A byte from the threshold on takes the byte after it along if
      that one lies in the payload. */
  ghost predicate Lands(book: Book, at: nat, to: nat, end: nat)
    requires to <= end <= |book.bytes|
    decreases if at <= to then to - at else 0
  {
    at == to
    || (at < to && Lands(book, if book.bytes[at] >= book.threshold && at + 1 < end then at + 2 else at + 1, to, end))
  }

  /** [at, end) is made of lines: a byte that tells a length, then tokens that fill exactly so many bytes. */
  ghost predicate IsLined(book: Book, at: nat, end: nat)
    requires at <= end <= |book.bytes|
    decreases end - at
  {
    at == end
    || (at < end
        && var next := at + 1 + book.bytes[at];
           next <= end && Lands(book, at + 1, next, end) && IsLined(book, next, end))
  }

  lemma {:induction false} ContentLands(book: Book, at: nat, lineEnd: nat, end: nat)
    requires at <= lineEnd <= end <= |book.bytes|
    ensures EndOf(Content(book, at, lineEnd, end), at) == lineEnd <==> Lands(book, at, lineEnd, end)
    decreases lineEnd - at
  {
    if at < lineEnd {
      var t := TokenOf(book, at, Width(book, at, end));
      var rest := Content(book, t.end, lineEnd, end);
      assert EndOf([t] + rest, at) == EndOf(rest, t.end);
      if t.end <= lineEnd { ContentLands(book, t.end, lineEnd, end); }
    }
  }

  lemma {:induction false} LinedExactly(book: Book, at: nat, end: nat)
    requires at <= end <= |book.bytes|
    ensures LineWalk(book, at, end).Some? <==> IsLined(book, at, end)
    decreases end - at
  {
    hide Content, TokenOf, Lands;
    if at < end && LineEnd(book, at) <= end {
      var content := Content(book, at + 1, LineEnd(book, at), end);
      assert EndOf(LineTokens(book, at, end), at) == EndOf(content, at + 1);
      ContentLands(book, at + 1, LineEnd(book, at), end);
      LinedExactly(book, LineEnd(book, at), end);
    }
  }

  /** A record is framed exactly when its payload is made of display lines. */
  lemma FramedExactly(book: Book, begin: nat, end: nat)
    requires begin <= end <= |book.bytes|
    ensures DisplayLines(RecordTokens(book, begin, end), 0, end).Some? <==> IsLined(book, begin, end)
    ensures LineWalk(book, begin, end).Some? <==> IsLined(book, begin, end)
    ensures DisplayLines(Walk(book, begin, end), 0, end).Some?
            ==> LineWalk(book, begin, end) == Some(Walk(book, begin, end))
  {
    LinedExactly(book, begin, end);
    hide IsLined;
    var plain := Walk(book, begin, end);
    assert plain[0..] == plain;
    if DisplayLines(plain, 0, end).Some? { FramedWalkIsLineWalk(book, plain, 0, begin, end); }
    if LineWalk(book, begin, end).Some? {
      var lined := LineWalk(book, begin, end).value;
      assert lined[0..] == lined;
      LineWalkIsFramed(book, lined, 0, begin, end);
    }
  }

  // ----- roles

  /** Lines follow each other from token `at` to the last one. */
  ghost predicate Chained(lines: seq<Line>, at: nat, count: nat) {
    if lines == [] then at == count
    else lines[0].prefix == at && at < lines[0].end <= count && Chained(lines[1..], lines[0].end, count)
  }

  lemma {:induction false} DisplayLinesAreChained(tokens: seq<Token>, at: nat, end: nat)
    requires at <= |tokens| && DisplayLines(tokens, at, end).Some?
    ensures Chained(DisplayLines(tokens, at, end).value, at, |tokens|)
    decreases |tokens| - at
  {
    if at < |tokens| {
      var stop := LineStop(tokens, at + 1, tokens[at].end + tokens[at].value);
      DisplayLinesAreChained(tokens, stop, end);
      var lines := DisplayLines(tokens, at, end).value;
      assert lines[1..] == DisplayLines(tokens, stop, end).value;
    }
  }

  /** Every token is the length byte of one line or content of one line, never both. */
  lemma {:induction false} OneRoleEach(lines: seq<Line>, at: nat, count: nat, k: nat)
    requires Chained(lines, at, count)
    ensures IsPrefix(lines, k) ==> at <= k < count && !IsContent(lines, k)
    ensures IsContent(lines, k) ==> at <= k < count
    ensures at <= k < count ==> IsPrefix(lines, k) || IsContent(lines, k)
    decreases |lines|
  {
    if lines != [] {
      var rest := lines[1..];
      OneRoleEach(rest, lines[0].end, count, k);
      RolesSplit(lines, k);
    }
  }

  lemma RolesSplit(lines: seq<Line>, k: nat)
    requires lines != []
    ensures IsPrefix(lines, k) <==> lines[0].prefix == k || IsPrefix(lines[1..], k)
    ensures IsContent(lines, k) <==> lines[0].prefix < k < lines[0].end || IsContent(lines[1..], k)
  {
    var rest := lines[1..];
    assert forall i | 0 <= i < |rest| :: rest[i] == lines[i + 1];
    if IsPrefix(lines, k) && lines[0].prefix != k {
      var i :| 0 <= i < |lines| && lines[i].prefix == k;
      assert rest[i - 1].prefix == k;
    }
    if IsContent(lines, k) && !(lines[0].prefix < k < lines[0].end) {
      var i :| 0 <= i < |lines| && lines[i].prefix < k < lines[i].end;
      assert rest[i - 1].prefix < k < rest[i - 1].end;
    }
    if IsPrefix(rest, k) {
      var i :| 0 <= i < |rest| && rest[i].prefix == k;
      assert lines[i + 1].prefix == k;
    }
    if IsContent(rest, k) {
      var i :| 0 <= i < |rest| && rest[i].prefix < k < rest[i].end;
      assert lines[i + 1].prefix < k < lines[i + 1].end;
    }
  }
}
