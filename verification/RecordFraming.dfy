// Decoding one record payload (logical.cpp) with its display-line framing (display_lines.cpp).
module RecordFraming {
  import opened Bytes
  import opened Tokens
  import opened TokenLaws

  ghost predicate Stamped(tokens: seq<Token>, source: seq<Token>, lines: seq<Line>) {
    && |tokens| == |source|
    && forall k | 0 <= k < |tokens| :: tokens[k] == source[k].(framing := RoleOf(lines, k))
  }

  /** `assign_display_line_framing`. */
  method AssignFraming(source: seq<Token>, payloadEnd: nat) returns (tokens: seq<Token>, lines: Option<seq<Line>>)
    ensures lines == DisplayLines(source, 0, payloadEnd)
    ensures tokens == Framed(source, lines)
  {
    hide DisplayLines, RoleOf;
    tokens := source;
    for k := 0 to |tokens|
      invariant |tokens| == |source|
      invariant forall i | 0 <= i < |source| :: tokens[i] == if i < k then source[i].(framing := Unframed) else source[i]
    {
      tokens := tokens[k := tokens[k].(framing := Unframed)];
    }
    lines := TokenDisplayLines(source, payloadEnd);
    if lines.None? { return; }
    DisplayLinesAreChained(source, 0, payloadEnd);
    var all := lines.value;
    assert all[..0] == [];
    NoRoles();
    for i := 0 to |all|
      invariant Stamped(tokens, source, all[..i])
    {
      tokens := StampLine(tokens, source, all, i);
    }
    assert all[..|all|] == all;
  }

  lemma NoRoles()
    ensures forall k: nat :: RoleOf([], k) == Unframed
  {
  }

  method StampLine(tokens: seq<Token>, ghost source: seq<Token>, lines: seq<Line>, i: nat) returns (stamped: seq<Token>)
    requires i < |lines| && Chained(lines, 0, |source|) && Stamped(tokens, source, lines[..i])
    ensures Stamped(stamped, source, lines[..i + 1])
  {
    hide Chained, RoleOf;
    var line := lines[i];
    ChainedAt(lines, 0, |source|, i);
    stamped := tokens[line.prefix := tokens[line.prefix].(framing := LineLength)];
    for k := line.prefix + 1 to line.end
      invariant |stamped| == |source|
      invariant forall j | 0 <= j < |source| ::
          stamped[j] == if j == line.prefix then source[j].(framing := LineLength)
                        else if line.prefix < j < k then source[j].(framing := LineContent)
                        else tokens[j]
    {
      stamped := stamped[k := stamped[k].(framing := LineContent)];
    }
    forall j | 0 <= j < |source| ensures stamped[j] == source[j].(framing := RoleOf(lines[..i + 1], j)) {
      RolesGrow(lines, i, j, |source|);
    }
  }

  lemma {:induction false} ChainedAt(lines: seq<Line>, at: nat, count: nat, i: nat)
    requires Chained(lines, at, count) && i < |lines|
    ensures at <= lines[i].prefix < lines[i].end <= count
    ensures forall j | 0 <= j < i :: lines[j].end <= lines[i].prefix
    ensures Chained(lines[..i], at, lines[i].prefix)
    ensures Chained(lines[i + 1..], lines[i].end, count)
  {
    if i > 0 {
      ChainedAt(lines[1..], lines[0].end, count, i - 1);
      assert forall j | 1 <= j < i :: lines[j] == lines[1..][j - 1];
      assert lines[..i][1..] == lines[1..][..i - 1];
      assert lines[i + 1..] == lines[1..][i..];
    }
  }

  lemma RolesGrow(lines: seq<Line>, i: nat, k: nat, count: nat)
    requires Chained(lines, 0, count) && i < |lines|
    ensures RoleOf(lines[..i + 1], k) == if k == lines[i].prefix then LineLength
                                         else if lines[i].prefix < k < lines[i].end then LineContent
                                         else RoleOf(lines[..i], k)
  {
    ChainedAt(lines, 0, count, i);
    OneRoleEach(lines[..i], 0, lines[i].prefix, k);
    var before, after := lines[..i], lines[..i + 1];
    assert forall j | 0 <= j < i :: before[j] == after[j];
    assert after[i] == lines[i];
  }

  /** `decode_record_payload_ir`. */
  method DecodeRecord(book: Book, begin: nat, end: nat) returns (record: Record)
    requires begin <= end <= |book.bytes|
    ensures record == RecordOf(book, begin, end)
  {
    var tokens := DecodePlain(book, begin, end);
    var plain := TokenDisplayLines(tokens, end);
    if plain.None? {
      var relined := DecodeDisplayLines(book, begin, end);
      if relined.Some? {
        var again := TokenDisplayLines(relined.value, end);
        if again.Some? { tokens := relined.value; }
      }
    }
    FramedExactly(book, begin, end);
    var framed, lines := AssignFraming(tokens, end);
    record := Record(end, framed, lines);
  }

  /** The record of a payload: its tokens, and its lines when it has them. */
  ghost function RecordOf(book: Book, begin: nat, end: nat): Record
    requires begin <= end <= |book.bytes|
  {
    var tokens := RecordTokens(book, begin, end);
    var lines := DisplayLines(tokens, 0, end);
    Record(end, Framed(tokens, lines), lines)
  }

  // ----- the framing that a consumer may rely on

  /** One line: a length byte that tells where the line ends, then content up to there. */
  ghost predicate LineHolds(record: Record, line: Line)
    requires line.prefix < line.end <= |record.tokens|
  {
    var prefix := record.tokens[line.prefix];
    && prefix.end == prefix.begin + 1
    && Boundary(record.tokens, line.end, record.payloadEnd) == prefix.end + prefix.value
    && prefix.framing == LineLength
    && forall k | line.prefix < k < line.end :: record.tokens[k].framing == LineContent
  }

  ghost predicate LinesHold(record: Record, lines: seq<Line>, at: nat) {
    && Chained(lines, at, |record.tokens|)
    && forall i | 0 <= i < |lines| :: lines[i].prefix < lines[i].end <= |record.tokens| && LineHolds(record, lines[i])
  }

  ghost predicate FramingHolds(record: Record) {
    match record.lines
    case None => forall k | 0 <= k < |record.tokens| :: record.tokens[k].framing == Unframed
    case Some(lines) => LinesHold(record, lines, 0)
  }

  /** `verify_display_line_framing`. */
  method VerifyFraming(record: Record) returns (ok: bool)
    ensures ok <==> FramingHolds(record)
  {
    var count := |record.tokens|;
    if record.lines.None? {
      for k := 0 to count
        invariant forall j | 0 <= j < k :: record.tokens[j].framing == Unframed
      {
        if record.tokens[k].framing != Unframed { return false; }
      }
      return true;
    }
    var lines := record.lines.value;
    var at := 0;
    assert lines[0..] == lines;
    for i := 0 to |lines|
      invariant LinesHold(record, lines, 0) <==> LinesHold(record, lines[i..], at)
    {
      var line := lines[i];
      LinesHoldFirst(record, lines[i..], at);
      if line.prefix != at || line.end <= line.prefix || line.end > count { return false; }
      var prefix := record.tokens[line.prefix];
      if prefix.end != prefix.begin + 1 { return false; }
      var boundary := if line.end < count then record.tokens[line.end].begin else record.payloadEnd;
      if boundary != prefix.end + prefix.value || prefix.framing != LineLength { return false; }
      for k := line.prefix + 1 to line.end
        invariant forall j | line.prefix < j < k :: record.tokens[j].framing == LineContent
      {
        if record.tokens[k].framing != LineContent { return false; }
      }
      at := line.end;
      assert lines[i..][1..] == lines[i + 1..];
    }
    return at == count;
  }

  lemma LinesHoldFirst(record: Record, lines: seq<Line>, at: nat)
    requires lines != []
    ensures LinesHold(record, lines, at) <==>
            && lines[0].prefix == at && at < lines[0].end <= |record.tokens|
            && LineHolds(record, lines[0]) && LinesHold(record, lines[1..], lines[0].end)
  {
    var rest := lines[1..];
    assert forall i | 0 <= i < |rest| :: rest[i] == lines[i + 1];
    if Chained(lines, at, |record.tokens|) && LinesHold(record, rest, lines[0].end) && LineHolds(record, lines[0]) {
      forall i | 0 <= i < |lines|
        ensures lines[i].prefix < lines[i].end <= |record.tokens| && LineHolds(record, lines[i])
      {
        if i > 0 { assert lines[i] == rest[i - 1]; }
      }
    }
  }

  // ----- the verifier accepts exactly the framing that the decoder assigns

  /** Where the lines end, apart from the roles stamped on tokens. */
  ghost predicate LinesEndWell(tokens: seq<Token>, lines: seq<Line>, end: nat) {
    forall i | 0 <= i < |lines| ::
      && lines[i].prefix < lines[i].end <= |tokens|
      && tokens[lines[i].prefix].end == tokens[lines[i].prefix].begin + 1
      && Boundary(tokens, lines[i].end, end) == tokens[lines[i].prefix].end + tokens[lines[i].prefix].value
  }

  lemma {:induction false} TileOrder(tokens: seq<Token>, begin: nat, end: nat, k: nat)
    requires Tile(tokens, begin, end) && k <= |tokens|
    ensures forall i | 0 <= i < k :: tokens[i].end <= Boundary(tokens, k, end)
    ensures k < |tokens| ==> tokens[k].begin < tokens[k].end
  {
    TileSplit(tokens, begin, end, k);
    TileBounds(tokens[..k], begin, Boundary(tokens, k, end));
    TileBounds(tokens[k..], Boundary(tokens, k, end), end);
    assert forall i | 0 <= i < k :: tokens[i] == tokens[..k][i];
    if k < |tokens| { assert tokens[k] == tokens[k..][0]; }
  }

  /** One turn of the line search: the first line ends where the length byte says, or there are no lines. */
  lemma FirstDisplayLine(tokens: seq<Token>, line: Line, rest: seq<Line>, at: nat, begin: nat, end: nat)
    requires Tile(tokens, begin, end) && at < |tokens|
    ensures DisplayLines(tokens, at, end) == Some([line] + rest)
            <==> && line.prefix == at < line.end <= |tokens| && LinesEndWell(tokens, [line], end)
                 && DisplayLines(tokens, line.end, end) == Some(rest)
  {
    hide Tile, LineStop;
    var lineEnd := tokens[at].end + tokens[at].value;
    var stop := LineStop(tokens, at + 1, lineEnd);
    assert [line][0] == line && ([line] + rest)[0] == line && ([line] + rest)[1..] == rest;
    if line.prefix == at < line.end <= |tokens| && LinesEndWell(tokens, [line], end) {
      TileOrder(tokens, begin, end, line.end);
      LineStopIs(tokens, at + 1, line.end, lineEnd);
    }
    if DisplayLines(tokens, at, end).Some? {
      assert DisplayLines(tokens, at, end).value[0] == Line(at, stop);
      assert DisplayLines(tokens, at, end).value[1..] == DisplayLines(tokens, stop, end).value;
    }
  }

  lemma {:induction false} LinesAreDisplayLines(tokens: seq<Token>, lines: seq<Line>, at: nat, begin: nat, end: nat)
    requires Tile(tokens, begin, end) && at <= |tokens|
    ensures DisplayLines(tokens, at, end) == Some(lines)
            <==> Chained(lines, at, |tokens|) && LinesEndWell(tokens, lines, end)
    decreases |tokens| - at
  {
    hide Tile, LinesEndWell;
    if at == |tokens| {
      NoLinesEndWell(tokens, end);
    } else if lines != [] {
      hide DisplayLines;
      var line, rest := lines[0], lines[1..];
      assert lines == [line] + rest;
      FirstDisplayLine(tokens, line, rest, at, begin, end);
      if at < line.end <= |tokens| { LinesAreDisplayLines(tokens, rest, line.end, begin, end); }
      EndWellFirst(tokens, lines, end);
    }
  }

  lemma NoLinesEndWell(tokens: seq<Token>, end: nat)
    ensures LinesEndWell(tokens, [], end)
  {
  }

  lemma EndWellFirst(tokens: seq<Token>, lines: seq<Line>, end: nat)
    requires lines != []
    ensures LinesEndWell(tokens, lines, end) <==> LinesEndWell(tokens, [lines[0]], end) && LinesEndWell(tokens, lines[1..], end)
  {
    var rest := lines[1..];
    assert forall i | 0 <= i < |rest| :: rest[i] == lines[i + 1];
    assert forall i | 1 <= i < |lines| :: lines[i] == rest[i - 1];
    assert [lines[0]][0] == lines[0];
  }

  /** Every token carries the role that the lines give it. */
  ghost predicate RolesStamped(tokens: seq<Token>, lines: seq<Line>) {
    forall k | 0 <= k < |tokens| :: tokens[k].framing == RoleOf(lines, k)
  }

  ghost predicate LineStamped(tokens: seq<Token>, line: Line)
    requires line.prefix < line.end <= |tokens|
  {
    && tokens[line.prefix].framing == LineLength
    && forall k | line.prefix < k < line.end :: tokens[k].framing == LineContent
  }

  lemma {:induction false} StampedLineByLine(tokens: seq<Token>, lines: seq<Line>)
    requires Chained(lines, 0, |tokens|)
    requires forall i | 0 <= i < |lines| :: lines[i].prefix < lines[i].end <= |tokens|
    ensures RolesStamped(tokens, lines) <==> forall i | 0 <= i < |lines| :: LineStamped(tokens, lines[i])
  {
    hide Chained;
    if RolesStamped(tokens, lines) {
      forall i | 0 <= i < |lines| ensures LineStamped(tokens, lines[i]) {
        forall k | lines[i].prefix <= k < lines[i].end
          ensures tokens[k].framing == if k == lines[i].prefix then LineLength else LineContent
        {
          OneRoleEach(lines, 0, |tokens|, k);
        }
      }
    }
    if forall i | 0 <= i < |lines| :: LineStamped(tokens, lines[i]) {
      forall k | 0 <= k < |tokens| ensures tokens[k].framing == RoleOf(lines, k) {
        OneRoleEach(lines, 0, |tokens|, k);
      }
    }
  }

  /** On tokens that cover the payload, the verifier accepts a framed record exactly when its lines are the
      display lines of its tokens and every token carries the role that those lines give it. */
  lemma VerifiedIsAssigned(record: Record, begin: nat)
    requires Tile(record.tokens, begin, record.payloadEnd) && record.lines.Some?
    ensures FramingHolds(record)
            <==> && record.lines == DisplayLines(record.tokens, 0, record.payloadEnd)
                 && RolesStamped(record.tokens, record.lines.value)
  {
    hide Tile, Chained, DisplayLines, RolesStamped;
    var tokens, lines := record.tokens, record.lines.value;
    LinesAreDisplayLines(tokens, lines, 0, begin, record.payloadEnd);
    if Chained(lines, 0, |tokens|) {
      forall i | 0 <= i < |lines| ensures lines[i].prefix < lines[i].end <= |tokens| {
        ChainedAt(lines, 0, |tokens|, i);
      }
      StampedLineByLine(tokens, lines);
    }
  }

  // ----- what a decoded record promises

  lemma {:induction false} FramingIsNotRead(tokens: seq<Token>, framed: seq<Token>, at: nat, end: nat)
    requires at <= |tokens| == |framed|
    requires forall k | 0 <= k < |tokens| :: framed[k] == tokens[k].(framing := framed[k].framing)
    ensures DisplayLines(framed, at, end) == DisplayLines(tokens, at, end)
    decreases |tokens| - at
  {
    hide LineStop;
    if at < |tokens| {
      var lineEnd := tokens[at].end + tokens[at].value;
      var stop := LineStop(tokens, at + 1, lineEnd);
      LineStopIs(framed, at + 1, stop, lineEnd);
      FramingIsNotRead(tokens, framed, stop, end);
    }
  }

  lemma {:induction false} FramingKeepsTiles(tokens: seq<Token>, framed: seq<Token>, begin: nat, end: nat)
    requires Tile(tokens, begin, end) && |tokens| == |framed|
    requires forall k | 0 <= k < |tokens| :: framed[k] == tokens[k].(framing := framed[k].framing)
    ensures Tile(framed, begin, end)
  {
    if tokens != [] { FramingKeepsTiles(tokens[1..], framed[1..], tokens[0].end, end); }
  }

  /** The tokens of a decoded record cover its payload, and its framing is one that the verifier accepts. */
  lemma DecodedRecordVerifies(book: Book, begin: nat, end: nat)
    requires begin <= end <= |book.bytes|
    ensures Tile(RecordOf(book, begin, end).tokens, begin, end)
    ensures FramingHolds(RecordOf(book, begin, end))
  {
    hide Walk, LineWalk, Tile, FramingHolds, DisplayLines;
    var tokens := RecordTokens(book, begin, end);
    var record := RecordOf(book, begin, end);
    if LineWalk(book, begin, end).Some? { LineWalkTiles(book, begin, end); } else { WalkTiles(book, begin, end); }
    FramingKeepsTiles(tokens, record.tokens, begin, end);
    FramingIsNotRead(tokens, record.tokens, 0, end);
    if record.lines.Some? { VerifiedIsAssigned(record, begin); } else { FramingOfNone(record); }
  }

  lemma FramingOfNone(record: Record)
    requires record.lines.None? && forall k | 0 <= k < |record.tokens| :: record.tokens[k].framing == Unframed
    ensures FramingHolds(record)
  {
  }

  /** The token is the one that the book's bytes spell over its range. */
  ghost predicate Genuine(book: Book, t: Token) {
    && (t.end == t.begin + 1 || t.end == t.begin + 2) && t.end <= |book.bytes|
    && t == TokenOf(book, t.begin, t.end - t.begin).(framing := t.framing)
  }

  /** The words that the dictionary has for a key. */
  function Looked(book: Book, key: int): Words {
    if 0 <= key < 0x1_0000 && key in book.dictionary then book.dictionary[key] else []
  }

  /** Every token of a record tells its one or two bytes, the high byte first, and has the words that the dictionary
      gives: for two bytes under their own number, for one byte under the two bytes that the token map holds for it. */
  lemma TokensAreLookedUp(book: Book, begin: nat, end: nat, k: nat)
    requires begin <= end <= |book.bytes| && k < |RecordOf(book, begin, end).tokens|
    ensures var t := RecordOf(book, begin, end).tokens[k];
            && begin <= t.begin < t.end <= end && (t.end == t.begin + 1 || t.end == t.begin + 2)
            && if t.end == t.begin + 2 then
                 && t.value == 0x100 * book.bytes[t.begin] as int + book.bytes[t.begin + 1]
                 && t.words == Looked(book, t.value)
               else
                 && t.value == book.bytes[t.begin]
                 && var entry := book.tokenMap + 2 * t.value as int;
                    t.words == if entry + 1 < |book.bytes|
                               then Looked(book, 0x100 * book.bytes[entry] as int + book.bytes[entry + 1]) else []
  {
    hide Tile, FramingHolds, RecordOf;
    var r := RecordOf(book, begin, end);
    DecodedRecordVerifies(book, begin, end);
    RecordTokensAreGenuine(book, begin, end);
    RecordEnds(book, begin, end);
    TileBounds(r.tokens, begin, end);
    assert Genuine(book, r.tokens[k]);
  }

  lemma RecordEnds(book: Book, begin: nat, end: nat)
    requires begin <= end <= |book.bytes|
    ensures RecordOf(book, begin, end).payloadEnd == end
  {
  }

  /** In a framed record every line starts with a one-byte token that spells the line's length, even where that
      byte is at or above the threshold, and no token reaches past the end of its line. */
  lemma LinesOfARecord(book: Book, begin: nat, end: nat, i: nat)
    requires begin <= end <= |book.bytes| && RecordOf(book, begin, end).lines.Some?
    requires i < |RecordOf(book, begin, end).lines.value|
    ensures var r := RecordOf(book, begin, end);
            var line := r.lines.value[i];
            && line.prefix < line.end <= |r.tokens|
            && var prefix := r.tokens[line.prefix];
            && prefix.end == prefix.begin + 1 <= end && prefix.value == book.bytes[prefix.begin]
            && prefix.end + book.bytes[prefix.begin] == Boundary(r.tokens, line.end, end)
            && (forall k | line.prefix < k < line.end ::
                  prefix.end <= r.tokens[k].begin < r.tokens[k].end <= prefix.end + book.bytes[prefix.begin])
  {
    hide Walk, LineWalk, Tile, DisplayLines, Chained;
    var r := RecordOf(book, begin, end);
    var line := r.lines.value[i];
    DecodedRecordVerifies(book, begin, end);
    assert LineHolds(r, line);
    RecordTokensAreGenuine(book, begin, end);
    TileBounds(r.tokens, begin, end);
    TileOrder(r.tokens, begin, end, line.end);
    forall k | line.prefix < k < line.end
      ensures r.tokens[line.prefix].end <= r.tokens[k].begin < r.tokens[k].end
    {
      TileOrder(r.tokens, begin, end, k);
    }
  }

  /** The token is one byte wide, with a value that fits, or two. */
  predicate WidthHolds(t: Token) {
    (t.end == t.begin + 1 && t.value <= 0xFF) || t.end == t.begin + 2
  }

  /** The tokens cover the payload, their widths are right and the framing holds. */
  ghost predicate TokensVerify(record: Record, begin: nat) {
    && Tile(record.tokens, begin, record.payloadEnd)
    && (forall k | 0 <= k < |record.tokens| :: WidthHolds(record.tokens[k]))
    && FramingHolds(record)
  }

  /** `verify_token_ir`. */
  method VerifyTokens(record: Record, begin: nat) returns (ok: bool)
    ensures ok <==> TokensVerify(record, begin)
  {
    hide FramingHolds;
    if begin > record.payloadEnd {
      if Tile(record.tokens, begin, record.payloadEnd) { TileBounds(record.tokens, begin, record.payloadEnd); }
      return false;
    }
    var expected: nat := begin;
    assert record.tokens[0..] == record.tokens;
    for k := 0 to |record.tokens|
      invariant expected <= record.payloadEnd
      invariant Tile(record.tokens, begin, record.payloadEnd) <==> Tile(record.tokens[k..], expected, record.payloadEnd)
      invariant forall i | 0 <= i < k :: WidthHolds(record.tokens[i])
    {
      var token := record.tokens[k];
      assert record.tokens[k..][1..] == record.tokens[k + 1..];
      if token.begin != expected || !WidthHolds(token) { return false; }
      if token.end > record.payloadEnd {
        if Tile(record.tokens[k + 1..], token.end, record.payloadEnd) {
          TileBounds(record.tokens[k + 1..], token.end, record.payloadEnd);
        }
        return false;
      }
      expected := token.end;
    }
    if expected != record.payloadEnd { return false; }
    ok := VerifyFraming(record);
  }

  /** Every decoded record passes. */
  lemma DecodedTokensVerify(book: Book, begin: nat, end: nat)
    requires begin <= end <= |book.bytes|
    ensures TokensVerify(RecordOf(book, begin, end), begin)
  {
    hide FramingHolds, Tile;
    DecodedRecordVerifies(book, begin, end);
    RecordTokensAreGenuine(book, begin, end);
    var tokens := RecordOf(book, begin, end).tokens;
    forall k | 0 <= k < |tokens| ensures WidthHolds(tokens[k]) { assert Genuine(book, tokens[k]); }
  }

  /** The token's width is the one that a plain walk up to `end` gives its first byte. */
  ghost predicate AsWalked(book: Book, t: Token, end: nat) {
    && t.begin < |book.bytes| && t.begin + Width(book, t.begin, end) <= |book.bytes|
    && t == TokenOf(book, t.begin, Width(book, t.begin, end)).(framing := t.framing)
  }

  lemma {:induction false} WalkIsAsWalked(book: Book, at: nat, end: nat)
    requires at <= end <= |book.bytes|
    ensures forall k | 0 <= k < |Walk(book, at, end)| :: AsWalked(book, Walk(book, at, end)[k], end)
    decreases end - at
  {
    if at < end {
      var t := TokenOf(book, at, Width(book, at, end));
      WalkIsAsWalked(book, t.end, end);
      assert AsWalked(book, t, end);
      hide AsWalked;
      assert Walk(book, at, end) == [t] + Walk(book, t.end, end);
    }
  }

  lemma {:induction false} ContentIsAsWalked(book: Book, at: nat, lineEnd: nat, end: nat)
    requires lineEnd <= end <= |book.bytes|
    ensures forall k | 0 <= k < |Content(book, at, lineEnd, end)| :: AsWalked(book, Content(book, at, lineEnd, end)[k], end)
    decreases lineEnd - at
  {
    if at < lineEnd {
      var t := TokenOf(book, at, Width(book, at, end));
      ContentIsAsWalked(book, t.end, lineEnd, end);
      assert AsWalked(book, t, end);
      hide AsWalked;
      assert Content(book, at, lineEnd, end) == [t] + Content(book, t.end, lineEnd, end);
    }
  }

  lemma {:induction false} LineWalkIsGenuine(book: Book, at: nat, end: nat)
    requires at <= end <= |book.bytes| && LineWalk(book, at, end).Some?
    ensures forall k | 0 <= k < |LineWalk(book, at, end).value| :: Genuine(book, LineWalk(book, at, end).value[k])
    decreases end - at
  {
    hide Content, TokenOf, AsWalked;
    if at < end {
      var next := LineEnd(book, at);
      var content := Content(book, at + 1, next, end);
      ContentIsAsWalked(book, at + 1, next, end);
      FirstIsGenuine(book, at);
      forall k | 0 <= k < |content| ensures Genuine(book, content[k]) { WalkedIsGenuine(book, content[k], end); }
      LineWalkIsGenuine(book, next, end);
      hide Genuine;
      assert LineWalk(book, at, end).value == [TokenOf(book, at, 1)] + content + LineWalk(book, next, end).value;
    }
  }

  lemma WalkedIsGenuine(book: Book, t: Token, end: nat)
    requires AsWalked(book, t, end)
    ensures Genuine(book, t)
  {
  }

  lemma FirstIsGenuine(book: Book, at: nat)
    requires at < |book.bytes|
    ensures Genuine(book, TokenOf(book, at, 1))
  {
  }

  lemma RecordTokensAreGenuine(book: Book, begin: nat, end: nat)
    requires begin <= end <= |book.bytes|
    ensures forall k | 0 <= k < |RecordTokens(book, begin, end)| :: Genuine(book, RecordTokens(book, begin, end)[k])
    ensures forall k | 0 <= k < |RecordOf(book, begin, end).tokens| :: Genuine(book, RecordOf(book, begin, end).tokens[k])
  {
    hide Walk, LineWalk, DisplayLines, TokenOf;
    var walk := Walk(book, begin, end);
    WalkIsAsWalked(book, begin, end);
    forall k | 0 <= k < |walk| ensures Genuine(book, walk[k]) { WalkedIsGenuine(book, walk[k], end); }
    if LineWalk(book, begin, end).Some? { LineWalkIsGenuine(book, begin, end); }
    var tokens, r := RecordTokens(book, begin, end), RecordOf(book, begin, end);
    forall k | 0 <= k < |r.tokens| ensures Genuine(book, r.tokens[k]) {
      assert Genuine(book, tokens[k]);
    }
  }
}
