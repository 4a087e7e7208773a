// The rules by which controls are withdrawn and lines put back together, in the words and tokens themselves
// (display_lines.cpp).
module DemotionRules {
  import opened Bytes
  import opened Tokens
  import Assembly
  import opened SpanSearch
  import opened SegmentCuts
  import opened ControlIR
  import opened ControlSegments
  import opened ControlLaws
  import opened Demotion

  // ----- how a token is spelled

  /** The words from 4 on. */
  function Letters(words: Words): Words {
    if words == [] then [] else (if words[0] < 4 then [] else [words[0]]) + Letters(words[1..])
  }

  function Blanks(n: nat): Bytes {
    seq(n, _ => 0x20)
  }

  lemma {:induction false} LettersAppend(front: Words, last: Word)
    ensures Letters(front + [last]) == Letters(front) + if last < 4 then [] else [last]
  {
    var all := front + [last];
    if front == [] {
      assert all == [last];
      assert Letters([last]) == (if last < 4 then [] else [last]) + Letters([]);
    } else {
      assert all[0] == front[0] && all[1..] == front[1..] + [last];
      LettersAppend(front[1..], last);
      assert Letters(all) == (if front[0] < 4 then [] else [front[0]]) + Letters(all[1..]);
      assert Letters(front) == (if front[0] < 4 then [] else [front[0]]) + Letters(front[1..]);
      hide Letters;
    }
  }

  lemma {:induction false} AsciiWordsAre(words: Words)
    ensures AsciiWords(words).None? <==> exists k :: 0 <= k < |words| && words[k] > 0x7F
    ensures AsciiWords(words).Some? ==> AsciiWords(words).value == Letters(words)
  {
    if words != [] {
      var front, last := words[..|words| - 1], words[|words| - 1];
      AsciiWordsAre(front);
      assert words == front + [last];
      LettersAppend(front, last);
    }
  }

  lemma {:induction false} TrimmedFrontIs(text: Bytes) returns (n: nat)
    ensures text == Blanks(n) + TrimmedFront(text) && (TrimmedFront(text) != [] ==> TrimmedFront(text)[0] != 0x20)
  {
    n := 0;
    if text != [] && text[0] == 0x20 {
      var m := TrimmedFrontIs(text[1..]);
      n := m + 1;
      assert Blanks(n) == [0x20] + Blanks(m) && text == [text[0]] + text[1..];
    } else {
      assert text == Blanks(0) + text;
    }
  }

  lemma {:induction false} TrimmedBackIs(text: Bytes) returns (n: nat)
    ensures text == TrimmedBack(text) + Blanks(n) && TrimmedBack(text) <= text
    ensures TrimmedBack(text) != [] ==> TrimmedBack(text)[|TrimmedBack(text)| - 1] != 0x20
  {
    n := 0;
    if text != [] && text[|text| - 1] == 0x20 {
      var front := text[..|text| - 1];
      var m := TrimmedBackIs(front);
      n := m + 1;
      assert Blanks(n) == Blanks(m) + [0x20] && text == front + [0x20];
    } else {
      assert text == text + Blanks(0);
    }
  }

  /** A token is spelled as its words from 4 on without the blanks around them; if one of its words is not ASCII, as
      nothing. */
  lemma SpellingExactly(words: Words) returns (before: nat, after: nat)
    ensures (exists k :: 0 <= k < |words| && words[k] > 0x7F) ==> Spelling(words) == []
    ensures (forall k | 0 <= k < |words| :: words[k] <= 0x7F) ==>
              var text := Spelling(words);
              && Letters(words) == Blanks(before) + text + Blanks(after)
              && (text != [] ==> text[0] != 0x20 && text[|text| - 1] != 0x20)
  {
    AsciiWordsAre(words);
    before, after := 0, 0;
    if AsciiWords(words).Some? {
      var all := AsciiWords(words).value;
      before := TrimmedFrontIs(all);
      after := TrimmedBackIs(TrimmedFront(all));
    }
  }

  // ----- the tokens of an opcode

  /** The opcode's first word is a word of token `t`. */
  ghost predicate OpcodeFrom(d: Decoded, c: Control, t: nat) {
    && c.opcodeRange.begin < c.opcodeRange.end
    && var words := BytesToWords(d.env.view.words, c.opcodeRange);
       && words.begin < words.end && words.begin < |d.sources|
       && d.sources[words.begin].kind == Assembly.TokenWord && d.sources[words.begin].token == t
  }

  predicate SameLetters(a: Bytes, b: Bytes) {
    |a| == |b| && forall k | 0 <= k < |a| ::
      (if 'A' as int <= a[k] <= 'Z' as int then a[k] as int + 32 else a[k])
      == if 'A' as int <= b[k] <= 'Z' as int then b[k] as int + 32 else b[k]
  }

  lemma LoweredExactly(a: Bytes, b: Bytes)
    ensures Lowered(a) == Lowered(b) <==> SameLetters(a, b)
  {
    if Lowered(a) == Lowered(b) {
      assert |a| == |Lowered(a)| == |Lowered(b)| == |b|;
      forall k | 0 <= k < |a| ensures Lower(a[k]) == Lower(b[k]) { assert Lowered(a)[k] == Lowered(b)[k]; }
    }
  }

  /** A control is the spelling of a length byte: it scopes or selects, or stands on a selected line; its opcode comes
      from a token that is a line's length byte; and its first token is spelled like its opcode. */
  lemma LengthSpellingExactly(d: Decoded, c: Control, selected: bool)
    ensures IsLengthSpelling(d, c, selected)
            <==> && c.kind != PlainText && c.opcode != []
                 && (selected || c.kind in {MenuStart, MenuItem, MenuEnd, TableStart, TableEnd, MessageStart, Select})
                 && (exists t :: 0 <= t < |d.tokens| && OpcodeFrom(d, c, t) && d.tokens[t].framing == LineLength)
                 && c.tokens != [] && c.tokens[0] < |d.tokens|
                 && SameLetters(Spelling(d.tokens[c.tokens[0]].words), c.opcode)
  {
    hide BytesToWords, Spelling;
    if c.tokens != [] && c.tokens[0] < |d.tokens| {
      LoweredExactly(Spelling(d.tokens[c.tokens[0]].words), c.opcode);
    }
    hide Lowered, SameLetters;
    if IsLengthOpcode(d, c) { assert OpcodeFrom(d, c, OpcodeToken(d, c).value); }
  }

  /** The line that a selector without payload selects, and a segment that is display text now. */
  lemma SelectedAndPlain(c: Control)
    ensures IsOpenSelect(c) <==> c.kind == Select && c.payloadRange.begin == c.payloadRange.end
    ensures var r := AsDisplayText(c);
            && r.kind == PlainText && r.displayText && r.opcode == [] && r.complete == c.complete
            && r.payloadRange == c.complete && r.opcodeRange == Range(c.complete.begin, c.complete.begin)
            && r.operandRange == Range(c.complete.begin, c.complete.begin)
            && r.tokens == c.tokens && r.index == c.index && r.malformed == c.malformed
  {
  }

  // ----- words inside a display line

  /** The token shows something. */
  predicate Shows(token: Token) {
    exists k | 0 <= k < |token.words| :: token.words[k] != 0x20
  }

  /** The first token of these that shows something and is no length byte. */
  ghost predicate FirstShown(d: Decoded, tokens: seq<nat>, first: nat) {
    exists k ::
      && 0 <= k < |tokens| && tokens[k] == first && ShownContent(d, first)
      && forall j | 0 <= j < k :: !ShownContent(d, tokens[j])
  }

  predicate ShownContent(d: Decoded, t: nat) {
    t < |d.tokens| && Shows(d.tokens[t]) && d.tokens[t].framing != LineLength
  }

  lemma {:induction false} FirstVisibleExactly(d: Decoded, tokens: seq<nat>, first: nat)
    ensures FirstVisible(d, tokens) == Some(first) <==> FirstShown(d, tokens, first)
  {
    hide Shows, IsVisible;
    if tokens != [] {
      var t, rest := tokens[0], tokens[1..];
      ShowsExactly(d, t);
      FirstVisibleExactly(d, rest, first);
      assert forall k | 0 <= k < |rest| :: rest[k] == tokens[k + 1];
      if FirstShown(d, tokens, first) && !ShownContent(d, t) {
        var k :| 0 <= k < |tokens| && tokens[k] == first && ShownContent(d, first)
                 && forall j | 0 <= j < k :: !ShownContent(d, tokens[j]);
        assert rest[k - 1] == first;
      }
      if FirstShown(d, rest, first) && !ShownContent(d, t) {
        var k :| 0 <= k < |rest| && rest[k] == first && ShownContent(d, first)
                 && forall j | 0 <= j < k :: !ShownContent(d, rest[j]);
        assert tokens[k + 1] == first;
        forall j | 0 <= j < k + 1 ensures !ShownContent(d, tokens[j]) { if j > 0 { assert rest[j - 1] == tokens[j]; } }
      }
      if ShownContent(d, t) && t == first { assert tokens[0] == first; }
    }
  }

  lemma ShowsExactly(d: Decoded, t: nat)
    ensures t < |d.tokens| && IsVisible(d.tokens[t]) && !IsLengthToken(d, t) <==> ShownContent(d, t)
  {
  }

  /** The last line that holds the token past its length byte. */
  ghost predicate LastHolds(lines: seq<Line>, n: nat, i: nat, t: nat)
    requires n <= |lines|
  {
    i < n && lines[i].prefix < t < lines[i].end && forall j | i < j < n :: !(lines[j].prefix < t < lines[j].end)
  }

  lemma {:induction false} LastAroundExactly(lines: seq<Line>, n: nat, i: nat, t: nat)
    requires n <= |lines|
    ensures LastAround(lines, n, t) == Some(i) <==> LastHolds(lines, n, i, t)
  {
    if n > 0 { LastAroundExactly(lines, n - 1, i, t); }
  }

  /** A control word stands inside its display line: something shows in the line before it; or it does not stand in the
      line's first cell and is a title, the index keyword, or has an opcode. */
  ghost predicate InsideLine(d: Decoded, c: Control, first: nat, line: Line) {
    || (exists t :: line.prefix < t < first && t < |d.tokens| && Shows(d.tokens[t]))
    || (first != line.prefix + 1
        && (|| c.kind == Title || c.opcode != []
            || (c.kind == PlainText && c.tokens != [] && c.tokens[0] < |d.tokens|
                && SameLetters(Spelling(d.tokens[c.tokens[0]].words), ['s' as int, 'i' as int]))))
  }

  /** A display line owns a control word: the opcode of a topic start past the line's first cell, or the first shown
      token of a structural control, a title, a layout directive or text inside its line. */
  lemma OwnedExactly(d: Decoded, c: Control)
    ensures IsOwned(d, c)
            <==> && c.tokens != []
                 && (|| (c.kind == TopicStart
                         && exists t: nat, i: nat ::
                              && i < |d.env.lines| && OpcodeFrom(d, c, t) && FirstHolds(d.env.lines, 0, i, t)
                              && t > d.env.lines[i].prefix + 1)
                     || (c.kind in {Structural, Title, PlainText, LayoutDirective}
                         && exists first: nat, i: nat ::
                              && i < |d.env.lines| && FirstShown(d, c.tokens, first)
                              && LastHolds(d.env.lines, |d.env.lines|, i, first)
                              && InsideLine(d, c, first, d.env.lines[i])))
  {
    EmbeddedExactly(d, c);
    StandsInsideExactly(d, c);
    hide StandsInside, IsEmbeddedOpcode, OpcodeFrom, FirstHolds, FirstShown, LastHolds, InsideLine;
  }

  lemma {:induction false} LineOfExactly(lines: seq<Line>, t: nat, k: nat, i: nat)
    requires k <= |lines|
    ensures LineOf(lines, t, k) == Some(i) <==> FirstHolds(lines, k, i, t)
    decreases |lines| - k
  {
    if k < |lines| { LineOfExactly(lines, t, k + 1, i); }
  }

  lemma EmbeddedExactly(d: Decoded, c: Control)
    ensures IsEmbeddedOpcode(d, c)
            <==> exists t: nat, i: nat ::
                   && i < |d.env.lines| && OpcodeFrom(d, c, t) && FirstHolds(d.env.lines, 0, i, t)
                   && t > d.env.lines[i].prefix + 1
  {
    hide BytesToWords, FirstHolds, LineOf;
    if IsEmbeddedOpcode(d, c) {
      var t := OpcodeToken(d, c).value;
      LineOfExactly(d.env.lines, t, 0, LineOf(d.env.lines, t, 0).value);
      assert OpcodeFrom(d, c, t);
    }
    if t: nat, i: nat :| i < |d.env.lines| && OpcodeFrom(d, c, t) && FirstHolds(d.env.lines, 0, i, t)
                         && t > d.env.lines[i].prefix + 1 {
      LineOfExactly(d.env.lines, t, 0, i);
    }
  }

  lemma InsideLineExactly(d: Decoded, c: Control, first: nat, line: Line)
    ensures InsideLine(d, c, first, line)
            <==> || VisibleBetween(d, line.prefix + 1, first)
                 || (first != line.prefix + 1 && (c.kind == Title || IsIndexKeyword(d, c) || c.opcode != []))
  {
    hide Spelling;
    if c.tokens != [] && c.tokens[0] < |d.tokens| {
      LoweredExactly(Spelling(d.tokens[c.tokens[0]].words), SI);
      assert Lowered(SI) == SI;
    }
  }

  lemma StandsInsideExactly(d: Decoded, c: Control)
    ensures StandsInside(d, c)
            <==> exists first: nat, i: nat ::
                   && i < |d.env.lines| && FirstShown(d, c.tokens, first) && LastHolds(d.env.lines, |d.env.lines|, i, first)
                   && InsideLine(d, c, first, d.env.lines[i])
  {
    hide FirstVisible, LastAround, VisibleBetween, IsIndexKeyword, FirstShown, LastHolds, InsideLine;
    var lines := d.env.lines;
    if StandsInside(d, c) {
      var first := FirstVisible(d, c.tokens).value;
      var i := LastAround(lines, |lines|, first).value;
      FirstVisibleExactly(d, c.tokens, first);
      LastAroundExactly(lines, |lines|, i, first);
      InsideLineExactly(d, c, first, lines[i]);
    }
    if first: nat, i: nat :| i < |lines| && FirstShown(d, c.tokens, first) && LastHolds(lines, |lines|, i, first)
                             && InsideLine(d, c, first, lines[i]) {
      FirstVisibleExactly(d, c.tokens, first);
      LastAroundExactly(lines, |lines|, i, first);
      InsideLineExactly(d, c, first, lines[i]);
    }
  }

  // ----- lines put back together

  /** What takes in the rest of its display line: selectors, messages, controls that start with "sr" and go on, and the
      first segment of a record whose line the record before it selects. */
  lemma TakesLineExactly(c: Control, first: bool, carried: bool)
    ensures TakesLine(c, first, carried)
            <==> || c.kind == Select || c.kind == MessageStart
                 || (c.kind == Structural && |c.opcode| >= 3 && (c.opcode[0] == 's' as int || c.opcode[0] == 'S' as int)
                     && (c.opcode[1] == 'r' as int || c.opcode[1] == 'R' as int))
                 || (carried && first && c.kind == PlainText && !c.displayText)
  {
    if |c.opcode| > 2 {
      var two := Lowered(c.opcode)[..2];
      assert two == [Lower(c.opcode[0]), Lower(c.opcode[1])];
    }
  }

  /** Display text that opens on the line, but not in its first cell. */
  ghost predicate GoesOn(lines: seq<Line>, i: nat, next: Control)
    requires i < |lines|
  {
    && next.displayText && next.kind == PlainText && next.tokens != [] && FirstHolds(lines, 0, i, next.tokens[0])
    && next.tokens[0] != lines[i].prefix + 1
  }

  /** How far a segment grows: over the display text that goes on in the line of its last token. */
  lemma RejoinEndExactly(d: Decoded, controls: seq<Control>, at: nat, carried: bool)
    requires at < |controls|
    ensures var c, end, lines := controls[at], RejoinEnd(d, controls, at, carried), d.env.lines;
            && (!TakesLine(c, at == 0, carried) || c.tokens == [] ==> end == at + 1)
            && (TakesLine(c, at == 0, carried) && c.tokens != [] ==>
                  && ((forall i | 0 <= i < |lines| :: !HoldsToken(lines[i], c.tokens[|c.tokens| - 1])) ==> end == at + 1)
                  && forall i: nat | FirstHolds(lines, 0, i, c.tokens[|c.tokens| - 1]) ::
                       && at + 1 <= end <= |controls| && (forall k | at + 1 <= k < end :: GoesOn(lines, i, controls[k]))
                       && (end < |controls| ==> !GoesOn(lines, i, controls[end])))
  {
    hide TakesLine, FirstHolds, LineOf;
    var c, lines := controls[at], d.env.lines;
    if TakesLine(c, at == 0, carried) && c.tokens != [] {
      var last := c.tokens[|c.tokens| - 1];
      if LineOf(lines, last, 0).Some? { LineOfExactly(lines, last, 0, LineOf(lines, last, 0).value); }
      forall i: nat | FirstHolds(lines, 0, i, last) ensures LineOf(lines, last, 0) == Some(i) {
        LineOfExactly(lines, last, 0, i);
      }
      forall i: nat, next: Control | i < |lines| ensures ContinuesLine(lines, i)(next) <==> GoesOn(lines, i, next) {
        if next.tokens != [] { LineOfExactly(lines, next.tokens[0], 0, i); }
      }
    }
  }

  /** What the grown segment is. */
  lemma GrownExactly(c: Control, end: nat, index: nat, tokens: seq<nat>)
    ensures var r := Grown(c, end, index, tokens);
            && r.index == index && r.tokens == tokens && r.complete == Range(c.complete.begin, end)
            && r.kind == c.kind && r.opcode == c.opcode && r.opcodeRange == c.opcodeRange && r.displayText == c.displayText
            && if c.kind == MessageStart && c.operandRange.begin == c.operandRange.end then
                 r.operandRange == Range(c.operandRange.begin, end) && r.payloadRange == Range(end, end) && !r.malformed
               else
                 && r.operandRange == c.operandRange && r.payloadRange == Range(c.payloadRange.begin, end)
                 && r.malformed == c.malformed
  {
  }

  /** How far a menu item takes in text: all that opens on the line of its first token, if that is not the length byte. */
  lemma BoundEndExactly(d: Decoded, controls: seq<Control>, at: nat)
    requires at < |controls|
    ensures var c, end, lines := controls[at], BoundEnd(d, controls, at), d.env.lines;
            && (forall i: nat :: ItemLine(d, c) == Some(i)
                  <==> c.kind == MenuItem && c.tokens != [] && FirstHolds(lines, 0, i, c.tokens[0])
                       && c.tokens[0] != lines[i].prefix)
            && (ItemLine(d, c).None? ==> end == at + 1)
            && forall i: nat | ItemLine(d, c) == Some(i) ::
                 && at + 1 <= end <= |controls|
                 && (forall k | at + 1 <= k < end :: OpensOn(lines, i, controls[k]))
                 && (end < |controls| ==> !OpensOn(lines, i, controls[end]))
  {
    hide FirstHolds, LineOf;
    var c, lines := controls[at], d.env.lines;
    if c.tokens != [] {
      forall i: nat ensures LineOf(lines, c.tokens[0], 0) == Some(i) <==> FirstHolds(lines, 0, i, c.tokens[0]) {
        LineOfExactly(lines, c.tokens[0], 0, i);
      }
    }
    forall i: nat, next: Control ensures IsOnLine(lines, i)(next) <==> OpensOn(lines, i, next) {
      if next.tokens != [] { LineOfExactly(lines, next.tokens[0], 0, i); }
    }
  }

  /** Text that opens on the line. */
  ghost predicate OpensOn(lines: seq<Line>, i: nat, next: Control) {
    next.kind == PlainText && next.tokens != [] && FirstHolds(lines, 0, i, next.tokens[0])
  }

  /** The item ends with what it took in, or already where its line does if that cuts its payload; only its extent, its
      payload, its tokens and its number change. */
  lemma ItemEndsExactly(env: Env, c: Control, line: nat, end: nat, index: nat, tokens: seq<nat>)
    requires Sound(env.view) && line < |env.lines|
    ensures var next := env.lines[line].end;
            var lineEnd := if next >= |env.view.spans| then |env.text| else Start(env.view, env.view.spans[next].begin);
            ItemEnd(env, c, line, end) == if c.payloadRange.begin < lineEnd < end then lineEnd else end
    ensures var r := Ending(c, end, index, tokens);
            && r.index == index && r.tokens == tokens && r.complete == Range(c.complete.begin, end)
            && r.payloadRange == Range(c.payloadRange.begin, end) && r.kind == c.kind && r.opcode == c.opcode
            && r.opcodeRange == c.opcodeRange && r.operandRange == c.operandRange && r.malformed == c.malformed
            && r.displayText == c.displayText
  {
    hide Sound, Offset;
  }
}
