// Cutting a record payload into tokens (logical.cpp) and finding its display lines (display_lines.cpp).
module Tokens {
  import opened Bytes

  type Word = w: int | 0 <= w < 0x1_0000

  type Words = seq<Word>

  /** The file, and what the directory page and the dictionary say about its tokens. `tokenMap` is the
      offset of the one-byte token map. */
  datatype Book = Book(bytes: Bytes, threshold: Byte, tokenMap: nat, dictionary: map<Word, Words>)

  datatype Framing = Unframed | LineLength | LineContent

  datatype Token = Token(begin: nat, end: nat, value: Word, words: Words, framing: Framing)

  predicate HasSpacingControl(words: Words) {
    words != [] && words[0] < 4
  }

  /** The words of a token that are displayed: all but a leading spacing control. */
  function Body(words: Words): Words {
    if HasSpacingControl(words) then words[1..] else words
  }

  function Resolve(book: Book, first: Byte, second: Option<Byte>): Words {
    match second
    case Some(b) =>
      var key := (first as nat) * 0x100 + b;
      if key in book.dictionary then book.dictionary[key] else []
    case None =>
      var entry := book.tokenMap + first * 2;
      if entry + 2 > |book.bytes| then [] else
      var key := (book.bytes[entry] as nat) * 0x100 + book.bytes[entry + 1];
      if key in book.dictionary then book.dictionary[key] else []
  }

  /** The token of this width that starts at `begin`. */
  function TokenOf(book: Book, begin: nat, width: nat): (t: Token)
    requires (width == 1 || width == 2) && begin + width <= |book.bytes|
    ensures t.begin == begin && t.end == begin + width
  {
    var first: nat := book.bytes[begin];
    if width == 2 then
      var second := book.bytes[begin + 1];
      Token(begin, begin + 2, first * 0x100 + second, Resolve(book, first, Some(second)), Unframed)
    else
      Token(begin, begin + 1, first, Resolve(book, first, None), Unframed)
  }

  /** A byte at or above the threshold takes a second byte where one stands before `twoByteEnd`. */
  function Width(book: Book, at: nat, twoByteEnd: nat): (width: nat)
    requires at < |book.bytes|
    ensures width == 1 || width == 2
  {
    if book.bytes[at] >= book.threshold && at + 1 < twoByteEnd then 2 else 1
  }

  method DecodeOneToken(book: Book, cursor: nat, twoByteEnd: nat) returns (token: Token, next: nat)
    requires cursor < |book.bytes| && twoByteEnd <= |book.bytes|
    ensures token == TokenOf(book, cursor, Width(book, cursor, twoByteEnd)) && next == token.end
  {
    var first: nat := book.bytes[cursor];
    next := cursor + 1;
    if first >= book.threshold && next < twoByteEnd {
      var second := book.bytes[next];
      next := next + 1;
      token := Token(cursor, next, first * 0x100 + second, Resolve(book, first, Some(second)), Unframed);
    } else {
      token := Token(cursor, next, first, Resolve(book, first, None), Unframed);
    }
  }

  // ----- the plain left-to-right walk

  function Walk(book: Book, at: nat, end: nat): seq<Token>
    requires at <= end <= |book.bytes|
    decreases end - at
  {
    if at == end then []
    else
      var t := TokenOf(book, at, Width(book, at, end));
      [t] + Walk(book, t.end, end)
  }

  method DecodePlain(book: Book, begin: nat, end: nat) returns (tokens: seq<Token>)
    requires begin <= end <= |book.bytes|
    ensures tokens == Walk(book, begin, end)
  {
    tokens := [];
    var cursor := begin;
    while cursor < end
      invariant begin <= cursor <= end
      invariant Walk(book, begin, end) == tokens + Walk(book, cursor, end)
    {
      var token, next := DecodeOneToken(book, cursor, end);
      Associate(tokens, [token], Walk(book, next, end));
      tokens, cursor := tokens + [token], next;
    }
  }

  // ----- the line-by-line walk

  /** The tokens from `at` until one reaches `lineEnd`; only the payload end cuts a pair of bytes. */
  function Content(book: Book, at: nat, lineEnd: nat, end: nat): seq<Token>
    requires lineEnd <= end <= |book.bytes|
    decreases lineEnd - at
  {
    if at >= lineEnd then []
    else
      var t := TokenOf(book, at, Width(book, at, end));
      [t] + Content(book, t.end, lineEnd, end)
  }

  /** Where a run of tokens that starts at `at` ends. */
  function EndOf(tokens: seq<Token>, at: nat): nat {
    if tokens == [] then at else tokens[|tokens| - 1].end
  }

  function LineEnd(book: Book, at: nat): nat
    requires at < |book.bytes|
  {
    at + 1 + book.bytes[at]
  }

  /** The length byte and the content of the display line that starts at `at`. */
  function LineTokens(book: Book, at: nat, end: nat): seq<Token>
    requires at < end <= |book.bytes| && LineEnd(book, at) <= end
  {
    [TokenOf(book, at, 1)] + Content(book, at + 1, LineEnd(book, at), end)
  }

  function LineWalk(book: Book, at: nat, end: nat): Option<seq<Token>>
    requires at <= end <= |book.bytes|
    decreases end - at
  {
    if at == end then Some([])
    else if LineEnd(book, at) > end then None
    else if EndOf(LineTokens(book, at, end), at) != LineEnd(book, at) then None
    else match LineWalk(book, LineEnd(book, at), end)
      case None => None
      case Some(rest) => Some(LineTokens(book, at, end) + rest)
  }

  function After(tokens: seq<Token>, rest: Option<seq<Token>>): Option<seq<Token>> {
    match rest
    case None => None
    case Some(more) => Some(tokens + more)
  }

  /** `decode_display_line_tokens`. Every turn of either loop moves the cursor on. */
  method DecodeDisplayLines(book: Book, begin: nat, end: nat) returns (r: Option<seq<Token>>)
    requires begin <= end <= |book.bytes|
    ensures r == LineWalk(book, begin, end)
  {
    var tokens: seq<Token> := [];
    var cursor := begin;
    if LineWalk(book, begin, end).Some? { assert [] + LineWalk(book, begin, end).value == LineWalk(book, begin, end).value; }
    while cursor < end
      invariant begin <= cursor <= end
      invariant LineWalk(book, begin, end) == After(tokens, LineWalk(book, cursor, end))
    {
      var length := book.bytes[cursor];
      var lineEnd := cursor + 1 + length;
      if lineEnd > end { return None; }
      ghost var at, before := cursor, tokens;
      var prefix, next := DecodeOneToken(book, cursor, cursor + 1);
      var line := [prefix];
      cursor := next;
      while cursor < lineEnd
        invariant at < cursor && EndOf(line, at) == cursor
        invariant LineTokens(book, at, end) == line + Content(book, cursor, lineEnd, end)
        decreases lineEnd - cursor
      {
        var token;
        token, next := DecodeOneToken(book, cursor, end);
        Associate(line, [token], Content(book, next, lineEnd, end));
        line, cursor := line + [token], next;
      }
      assert line == LineTokens(book, at, end);
      tokens := tokens + line;
      if cursor != lineEnd { return None; }
      if LineWalk(book, cursor, end).Some? {
        Associate(before, line, LineWalk(book, cursor, end).value);
      }
    }
    assert tokens + [] == tokens;
    return Some(tokens);
  }

  // ----- display lines of a token list

  /** A display line: the index of its length byte and the index after its last token. */
  datatype Line = Line(prefix: nat, end: nat)

  /** The number of leading tokens that end by `lineEnd`, from `k` on. */
  function LineStop(tokens: seq<Token>, k: nat, lineEnd: nat): (stop: nat)
    requires k <= |tokens|
    ensures k <= stop <= |tokens|
    ensures forall i | k <= i < stop :: tokens[i].end <= lineEnd
    ensures stop < |tokens| ==> tokens[stop].end > lineEnd
    decreases |tokens| - k
  {
    if k < |tokens| && tokens[k].end <= lineEnd then LineStop(tokens, k + 1, lineEnd) else k
  }

  /** The display lines of the tokens from index `at` on. */
  function DisplayLines(tokens: seq<Token>, at: nat, payloadEnd: nat): Option<seq<Line>>
    requires at <= |tokens|
    decreases |tokens| - at
  {
    if at == |tokens| then Some([])
    else
      var prefix := tokens[at];
      if prefix.end != prefix.begin + 1 then None
      else
        var lineEnd := prefix.end + prefix.value;
        var stop := LineStop(tokens, at + 1, lineEnd);
        if (if stop < |tokens| then tokens[stop].begin else payloadEnd) != lineEnd then None
        else match DisplayLines(tokens, stop, payloadEnd)
          case None => None
          case Some(rest) => Some([Line(at, stop)] + rest)
  }

  /** `token_display_lines`. */
  method TokenDisplayLines(tokens: seq<Token>, payloadEnd: nat) returns (r: Option<seq<Line>>)
    ensures r == DisplayLines(tokens, 0, payloadEnd)
  {
    var lines: seq<Line> := [];
    var at := 0;
    if DisplayLines(tokens, 0, payloadEnd).Some? {
      assert [] + DisplayLines(tokens, 0, payloadEnd).value == DisplayLines(tokens, 0, payloadEnd).value;
    }
    while at < |tokens|
      invariant at <= |tokens|
      invariant DisplayLines(tokens, 0, payloadEnd)
                == match DisplayLines(tokens, at, payloadEnd)
                   case None => None
                   case Some(rest) => Some(lines + rest)
    {
      var prefix := tokens[at];
      if prefix.end != prefix.begin + 1 { return None; }
      var lineEnd := prefix.end + prefix.value;
      var end := at + 1;
      while end < |tokens| && tokens[end].end <= lineEnd
        invariant at < end <= |tokens| && LineStop(tokens, at + 1, lineEnd) == LineStop(tokens, end, lineEnd)
      {
        end := end + 1;
      }
      var boundary := if end < |tokens| then tokens[end].begin else payloadEnd;
      if boundary != lineEnd { return None; }
      if DisplayLines(tokens, end, payloadEnd).Some? {
        Associate(lines, [Line(at, end)], DisplayLines(tokens, end, payloadEnd).value);
      }
      lines, at := lines + [Line(at, end)], end;
    }
    assert lines + [] == lines;
    return Some(lines);
  }

  // ----- a decoded record

  datatype Record = Record(payloadEnd: nat, tokens: seq<Token>, lines: Option<seq<Line>>)

  /** The tokens of a record: its display lines where the payload is made of display lines, else the plain walk. */
  function RecordTokens(book: Book, begin: nat, end: nat): seq<Token>
    requires begin <= end <= |book.bytes|
  {
    match LineWalk(book, begin, end)
    case Some(tokens) => tokens
    case None => Walk(book, begin, end)
  }

  predicate IsPrefix(lines: seq<Line>, k: nat) {
    exists i | 0 <= i < |lines| :: lines[i].prefix == k
  }

  predicate IsContent(lines: seq<Line>, k: nat) {
    exists i | 0 <= i < |lines| :: lines[i].prefix < k < lines[i].end
  }

  /** The role of token `k` in the lines. */
  function RoleOf(lines: seq<Line>, k: nat): Framing {
    if IsContent(lines, k) then LineContent else if IsPrefix(lines, k) then LineLength else Unframed
  }

  /** The tokens with the role that each has in the lines; a record without lines has no roles. */
  function Framed(tokens: seq<Token>, lines: Option<seq<Line>>): (framed: seq<Token>)
    ensures |framed| == |tokens|
  {
    seq(|tokens|, k requires 0 <= k < |tokens| =>
      tokens[k].(framing := if lines.None? then Unframed else RoleOf(lines.value, k)))
  }
}
