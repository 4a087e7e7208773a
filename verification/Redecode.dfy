// Reading a byte range of the file again, without its record (logical.cpp).
module Redecode {
  import opened Bytes
  import opened Tokens
  import opened TokenLaws
  import opened RecordFraming

  /** `decode_source_byte_range_tokens`. It never refuses a window that lies in the file. */
  method DecodeRange(book: Book, begin: nat, end: nat) returns (r: Option<seq<Token>>)
    ensures r == if begin <= end <= |book.bytes| then Some(Walk(book, begin, end)) else None
  {
    if begin > end || end > |book.bytes| { return None; }
    var tokens: seq<Token> := [];
    var cursor := begin;
    while cursor < end
      invariant begin <= cursor <= end
      invariant Walk(book, begin, end) == tokens + Walk(book, cursor, end)
    {
      var token, next := DecodeOneToken(book, cursor, end);
      Associate(tokens, [token], Walk(book, next, end));
      tokens, cursor := tokens + [token], next;
      if cursor > end { return None; }
    }
    assert tokens + [] == tokens;
    return Some(tokens);
  }

  /** The tokens without their roles, as a walk yields them. */
  function Bare(tokens: seq<Token>): (bare: seq<Token>) {
    Framed(tokens, None)
  }

  lemma BareFirst(tokens: seq<Token>)
    requires tokens != []
    ensures Bare(tokens) == [tokens[0].(framing := Unframed)] + Bare(tokens[1..])
  {
  }

  /** The token has the width that a walk up to `end` gives its first byte. */
  ghost predicate WalkedWidth(book: Book, t: Token, end: nat) {
    t.begin < |book.bytes| && t.end - t.begin == Width(book, t.begin, end)
  }

  /** A run of tokens that covers a window is read again from its bytes exactly when every token has the width
      that a walk up to the window's end gives its first byte. */
  lemma {:induction false} ReadAgainExactly(book: Book, tokens: seq<Token>, begin: nat, end: nat)
    requires end <= |book.bytes| && Tile(tokens, begin, end)
    requires forall k | 0 <= k < |tokens| :: Genuine(book, tokens[k])
    ensures begin <= end
    ensures Walk(book, begin, end) == Bare(tokens)
            <==> forall k | 0 <= k < |tokens| :: WalkedWidth(book, tokens[k], end)
  {
    TileBounds(tokens, begin, end);
    if tokens != [] {
      var first, rest := tokens[0], tokens[1..];
      ReadAgainExactly(book, rest, first.end, end);
      BareFirst(tokens);
      assert forall k | 1 <= k < |tokens| :: tokens[k] == rest[k - 1];
      var t := TokenOf(book, begin, Width(book, begin, end));
      assert Walk(book, begin, end) == [t] + Walk(book, t.end, end);
      if Walk(book, begin, end) == Bare(tokens) {
        assert Walk(book, begin, end)[0] == t;
        assert Walk(book, begin, end)[1..] == Walk(book, t.end, end);
        assert Bare(tokens)[1..] == Bare(rest);
      }
    }
  }

  // ----- the tokens of a record

  /** In a line-by-line walk every token but a length byte has the width that a walk up to the payload end gives. */
  lemma {:induction false} LineWalkWidths(book: Book, tokens: seq<Token>, i: nat, at: nat, end: nat, k: nat)
    requires at <= end <= |book.bytes| && i <= k < |tokens| && LineWalk(book, at, end) == Some(tokens[i..])
    requires DisplayLines(tokens, i, end).Some?
    ensures !IsPrefix(DisplayLines(tokens, i, end).value, k) ==> AsWalked(book, tokens[k], end)
    decreases |tokens| - i
  {
    hide LineWalk, LineStop, Content, AsWalked, IsContent;
    LineWalkStarts(book, at, end);
    FirstLineOfLineWalk(book, tokens, i, at, end);
    var stop := i + |LineTokens(book, at, end)|;
    var content := Content(book, at + 1, LineEnd(book, at), end);
    var lines := DisplayLines(tokens, i, end).value;
    assert lines == [Line(i, stop)] + DisplayLines(tokens, stop, end).value;
    RolesSplit(lines, k);
    assert lines[1..] == DisplayLines(tokens, stop, end).value;
    if k >= stop {
      LineWalkWidths(book, tokens, stop, LineEnd(book, at), end, k);
    } else if k > i {
      ContentIsAsWalked(book, at + 1, LineEnd(book, at), end);
      assert tokens[k] == tokens[i..stop][k - i] == content[k - i - 1];
    }
  }

  /** In a decoded record a length byte is one byte wide; every other token is as wide as a plain walk makes it. */
  lemma RecordWidths(book: Book, begin: nat, end: nat, k: nat)
    requires begin <= end <= |book.bytes| && k < |RecordOf(book, begin, end).tokens|
    ensures var t := RecordOf(book, begin, end).tokens[k];
            if t.framing == LineLength then t.end == t.begin + 1 else AsWalked(book, t, end)
  {
    hide Walk, LineWalk, DisplayLines, Tile, TokenOf, Chained;
    var tokens, r := RecordTokens(book, begin, end), RecordOf(book, begin, end);
    assert tokens[0..] == tokens;
    if r.lines.Some? {
      FramedExactly(book, begin, end);
      DecodedRecordVerifies(book, begin, end);
      var lines := r.lines.value;
      if IsPrefix(lines, k) {
        var i :| 0 <= i < |lines| && lines[i].prefix == k;
        assert LineHolds(r, lines[i]);
      } else {
        LineWalkWidths(book, tokens, 0, begin, end, k);
      }
      DisplayLinesAreChained(tokens, 0, end);
      OneRoleEach(lines, 0, |tokens|, k);
    } else {
      FramedExactly(book, begin, end);
      WalkIsAsWalked(book, begin, end);
    }
  }

  /** A token is two bytes wide exactly where it is no length byte, its first byte is at or above the threshold and the
      byte after it lies in the payload. */
  lemma TokenIsTwoBytesExactly(book: Book, begin: nat, end: nat, k: nat)
    requires begin <= end <= |book.bytes| && k < |RecordOf(book, begin, end).tokens|
    ensures var t := RecordOf(book, begin, end).tokens[k];
            t.begin < |book.bytes|
            && t.end == t.begin + if t.framing != LineLength && book.bytes[t.begin] >= book.threshold && t.begin + 1 < end
                                  then 2 else 1
  {
    hide RecordOf;
    TokensAreLookedUp(book, begin, end, k);
    RecordWidths(book, begin, end, k);
  }

  /** A length byte that a plain walk would take for the first of two bytes. */
  predicate LongLength(book: Book, t: Token) {
    t.framing == LineLength && t.begin < |book.bytes| && book.bytes[t.begin] >= book.threshold
  }

  /** No such length byte stands in the window, unless the window ends right after it. */
  ghost predicate ReadsAlone(book: Book, r: Record, i: nat, j: nat)
    requires i <= j <= |r.tokens|
  {
    forall k | i <= k < j && LongLength(book, r.tokens[k]) :: r.tokens[k].end == Boundary(r.tokens, j, r.payloadEnd)
  }

  /** Tokens i to j of a record are read again from their own bytes exactly when the window reads alone. A window
      of a record that a plain walk decoded always does, and so does a window inside one line's content. */
  lemma WindowIsReadAgain(book: Book, begin: nat, end: nat, i: nat, j: nat)
    requires begin <= end <= |book.bytes| && i <= j <= |RecordOf(book, begin, end).tokens|
    ensures var r := RecordOf(book, begin, end);
            var from, to := Boundary(r.tokens, i, end), Boundary(r.tokens, j, end);
            && begin <= from <= to <= end && Tile(r.tokens[i..j], from, to)
            && (Walk(book, from, to) == Bare(r.tokens[i..j]) <==> ReadsAlone(book, r, i, j))
  {
    hide Walk, LineWalk, DisplayLines, RecordOf, FramingHolds;
    var r := RecordOf(book, begin, end);
    var tokens := r.tokens;
    var from, to := Boundary(tokens, i, end), Boundary(tokens, j, end);
    DecodedRecordVerifies(book, begin, end);
    RecordTokensAreGenuine(book, begin, end);
    WindowTiles(tokens, begin, end, i, j);
    var window := tokens[i..j];
    assert forall k | 0 <= k < |window| :: window[k] == tokens[i + k];
    ReadAgainExactly(book, window, from, to);
    TileBounds(window, from, to);
    RecordEnds(book, begin, end);
    hide Tile, WalkedWidth, Genuine;
    forall k | i <= k < j
      ensures WalkedWidth(book, tokens[k], to)
              <==> (LongLength(book, tokens[k]) ==> tokens[k].end == to)
    {
      assert window[k - i] == tokens[k];
      RecordWidths(book, begin, end, k);
      WidthInWindow(book, tokens[k], to, end);
    }
    if ReadsAlone(book, r, i, j) {
      forall k | 0 <= k < |window| ensures WalkedWidth(book, window[k], to) {
        assert window[k] == tokens[i + k];
      }
    }
  }

  lemma WidthInWindow(book: Book, t: Token, to: nat, end: nat)
    requires Genuine(book, t) && t.end <= to <= end <= |book.bytes|
    requires if t.framing == LineLength then t.end == t.begin + 1 else AsWalked(book, t, end)
    ensures WalkedWidth(book, t, to) <==> (LongLength(book, t) ==> t.end == to)
  {
  }

  lemma WindowTiles(tokens: seq<Token>, begin: nat, end: nat, i: nat, j: nat)
    requires Tile(tokens, begin, end) && i <= j <= |tokens|
    ensures Tile(tokens[i..j], Boundary(tokens, i, end), Boundary(tokens, j, end))
    ensures begin <= Boundary(tokens, i, end) <= Boundary(tokens, j, end) <= end
  {
    hide Tile;
    TileSplit(tokens, begin, end, j);
    var left := tokens[..j];
    TileSplit(left, begin, Boundary(tokens, j, end), i);
    assert left[i..] == tokens[i..j];
    assert Boundary(left, i, Boundary(tokens, j, end)) == Boundary(tokens, i, end);
    TileBounds(left[..i], begin, Boundary(tokens, i, end));
    TileBounds(tokens[i..j], Boundary(tokens, i, end), Boundary(tokens, j, end));
    TileBounds(tokens[j..], Boundary(tokens, j, end), end);
  }

  /** Every window of a record that the plain walk decoded reads alone; so does a window of line content. */
  lemma WindowsThatReadAlone(book: Book, begin: nat, end: nat, i: nat, j: nat)
    requires begin <= end <= |book.bytes| && i <= j <= |RecordOf(book, begin, end).tokens|
    requires RecordTokens(book, begin, end) == Walk(book, begin, end)
             || forall k | i <= k < j :: RecordOf(book, begin, end).tokens[k].framing == LineContent
    ensures ReadsAlone(book, RecordOf(book, begin, end), i, j)
  {
    hide Walk, LineWalk, DisplayLines, Tile, TokenOf;
    var r := RecordOf(book, begin, end);
    if RecordTokens(book, begin, end) == Walk(book, begin, end) {
      WalkIsAsWalked(book, begin, end);
      DecodedRecordVerifies(book, begin, end);
      WindowTiles(r.tokens, begin, end, i, j);
      TileBounds(r.tokens[i..j], Boundary(r.tokens, i, end), Boundary(r.tokens, j, end));
      forall k | i <= k < j && LongLength(book, r.tokens[k]) ensures r.tokens[k].end == Boundary(r.tokens, j, end) {
        RecordWidths(book, begin, end, k);
        assert r.tokens[k] == r.tokens[i..j][k - i];
        assert AsWalked(book, Walk(book, begin, end)[k], end);
      }
    }
  }
}
