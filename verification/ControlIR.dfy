// The control segments of a record: opcode, operands and payload ranges, and the tokens behind them (control_ir.cpp).
module ControlIR {
  import opened Bytes
  import opened Tokens
  import opened Ascii
  import opened Assembly
  import opened SpanSearch
  import opened Splitter
  import opened SegmentCuts

  datatype Kind =
    | PlainText | TopicStart | TopicNumber | ParentTopic | ForwardLevel | BackLevel | Summary | HeadingLevel
    | SourceFile | Title | Font | Select | Spacing | RevisionDefinition | LayoutDirective | TableStart | TableEnd
    | MenuStart | MenuItem | MenuEnd | MessageStart | ArtStart | ArtEnd | ArtDescriptionStart | ArtDescription
    | ArtDescriptionEnd | Structural | Unknown

  datatype WordSpan = WordSpan(begin: nat, end: nat, geometry: bool)

  datatype Control = Control(index: nat, kind: Kind, opcode: Bytes, complete: Range, opcodeRange: Range,
                             operandRange: Range, payloadRange: Range, tokens: seq<nat>, malformed: bool,
                             displayText: bool)

  /** What an operand grammar makes of a control: how many of the words after the opcode are operands, or a byte
      where the operands end. */
  datatype Reading = Reading(malformed: bool, count: nat, end: Option<nat>)

  /** A record, its display lines, and the two vocabularies: which opcode is which control, and how the controls
      with a grammar of their own read their words. */
  datatype Env = Env(view: View, text: Bytes, lines: seq<Line>, classify: Bytes -> Kind,
                     grammar: Grammar)

  /** A grammar counts words that are there. An explicit end lies in the last operand, except for a revision
      definition, which reads its operands off the tokens. */
  ghost predicate Reads(kind: Kind, words: seq<WordSpan>, reading: Reading) {
    && reading.count < |words|
    && (reading.end.Some? && kind != RevisionDefinition ==>
          reading.count > 0 && words[reading.count].begin <= reading.end.value <= words[reading.count].end)
  }

  type Grammar = (Kind, Range, seq<WordSpan>) -> Reading

  ghost predicate GrammarReads(grammar: Grammar) {
    forall kind, opcode, words: seq<WordSpan> | words != [] :: Reads(kind, words, grammar(kind, opcode, words))
  }

  ghost predicate SoundEnv(env: Env) {
    Sound(env.view) && env.text == TextOf(env.view.words) && GrammarReads(env.grammar)
  }

  // ----- words of the text

  /** Box drawing is payload, never opcode or operand. */
  predicate IsGeometry(word: Word) {
    0x2500 <= word <= 0x257F
  }

  /** Byte `at` shows a box-drawing word. */
  ghost predicate GeometryByte(words: Words, at: nat) {
    exists w :: 0 <= w < |words| && Offset(words, w) <= at < Offset(words, w + 1) && IsGeometry(words[w])
  }

  /** The bytes that show box drawing are marked. */
  ghost predicate ShowsGeometry(words: Words, geometry: seq<bool>) {
    && |geometry| == |TextOf(words)|
    && forall at: nat | at < |geometry| :: geometry[at] <==> GeometryByte(words, at)
  }

  /** `display_geometry_bytes`. */
  method DisplayGeometryBytes(words: Words, size: nat) returns (geometry: seq<bool>)
    requires size == |TextOf(words)|
    ensures ShowsGeometry(words, geometry)
  {
    hide Offset;
    geometry := seq(size, _ => false);
    var byte := 0;
    OffsetOfAll(words);
    for index := 0 to |words|
      invariant |geometry| == size && byte == Offset(words, index)
      invariant forall at: nat | at < size :: geometry[at] <==> GeometryUpTo(words, index, at)
    {
      var width := WordWidth(words[index]);
      OffsetNext(words, index);
      OffsetsIncrease(words, index + 1, |words|);
      ghost var before := geometry;
      if IsGeometry(words[index]) {
        var at := byte;
        while at < byte + width && at < size
          invariant byte <= at <= byte + width && |geometry| == size
          invariant forall k: nat | k < size :: geometry[k] == (before[k] || byte <= k < at)
        {
          geometry := geometry[at := true];
          at := at + 1;
        }
      }
      forall at: nat | at < size ensures geometry[at] <==> GeometryUpTo(words, index + 1, at) {
        GeometryNext(words, index, at);
      }
      byte := byte + width;
    }
  }

  ghost predicate GeometryUpTo(words: Words, n: nat, at: nat)
    requires n <= |words|
  {
    exists w :: 0 <= w < n && Offset(words, w) <= at < Offset(words, w + 1) && IsGeometry(words[w])
  }

  lemma GeometryNext(words: Words, n: nat, at: nat)
    requires n < |words|
    ensures GeometryUpTo(words, n + 1, at)
            <==> GeometryUpTo(words, n, at) || (Offset(words, n) <= at < Offset(words, n + 1) && IsGeometry(words[n]))
    ensures GeometryUpTo(words, |words|, at) <==> GeometryByte(words, at)
  {
    hide Offset;
  }

  predicate GeometryAt(geometry: seq<bool>, at: nat) {
    at < |geometry| && geometry[at]
  }

  /** The words of a stretch of text: parted by blanks and by every change between box drawing and other bytes. */
  ghost predicate WordsHold(text: Bytes, geometry: seq<bool>, words: seq<WordSpan>, begin: nat, end: nat)
    requires end <= |text|
  {
    WordsLie(words, begin, end) && WordsAreUniform(text, geometry, words, end) && WordsCover(text, words, begin, end)
    && WordsAreWhole(words)
  }

  ghost predicate WordsLie(words: seq<WordSpan>, begin: nat, end: nat) {
    && (forall i | 0 <= i < |words| :: begin <= words[i].begin < words[i].end <= end)
    && (forall i, j | 0 <= i < j < |words| :: words[i].end <= words[j].begin)
  }

  ghost predicate WordsAreUniform(text: Bytes, geometry: seq<bool>, words: seq<WordSpan>, end: nat)
    requires end <= |text|
  {
    forall i, at: nat | 0 <= i < |words| && words[i].begin <= at < words[i].end && at < end ::
      !IsSpace(text[at]) && (GeometryAt(geometry, at) <==> words[i].geometry)
  }

  ghost predicate WordsCover(text: Bytes, words: seq<WordSpan>, begin: nat, end: nat)
    requires end <= |text|
  {
    forall at: nat | begin <= at < end && !IsSpace(text[at]) :: InWord(words, at)
  }

  ghost predicate WordsAreWhole(words: seq<WordSpan>) {
    forall i, j | 0 <= i < j < |words| && words[i].end == words[j].begin :: words[i].geometry != words[j].geometry
  }

  ghost predicate InWord(words: seq<WordSpan>, at: nat) {
    exists i :: 0 <= i < |words| && words[i].begin <= at < words[i].end
  }

  /** `words_in`. */
  method WordsIn(text: Bytes, begin: nat, end: nat, geometry: seq<bool>) returns (words: seq<WordSpan>)
    requires begin <= end <= |text|
    ensures WordsHold(text, geometry, words, begin, end)
  {
    hide WordsHold, IsSpace, GeometryAt;
    words := [];
    var cursor := begin;
    NoWordsHold(text, geometry, begin);
    while cursor < end
      invariant begin <= cursor <= end && WordsHold(text, geometry, words, begin, cursor)
      invariant words != [] && cursor < end && words[|words| - 1].end == cursor ==>
          IsSpace(text[cursor]) || GeometryAt(geometry, cursor) != words[|words| - 1].geometry
    {
      var skipped := cursor;
      while cursor < end && IsSpace(text[cursor])
        invariant skipped <= cursor <= end && forall at | skipped <= at < cursor :: IsSpace(text[at])
      {
        cursor := cursor + 1;
      }
      if cursor == end {
        BlanksHold(text, geometry, words, begin, skipped, end);
        break;
      }
      var wordBegin, wordGeometry := cursor, GeometryAt(geometry, cursor);
      while cursor < end && !IsSpace(text[cursor]) && GeometryAt(geometry, cursor) == wordGeometry
        invariant wordBegin <= cursor <= end && (cursor == wordBegin ==> !IsSpace(text[cursor]))
        invariant forall at | wordBegin <= at < cursor ::
            !IsSpace(text[at]) && (GeometryAt(geometry, at) <==> wordGeometry)
      {
        cursor := cursor + 1;
      }
      LastWordEnds(text, geometry, words, begin, skipped);
      WordAdded(text, geometry, words, begin, skipped, WordSpan(wordBegin, cursor, wordGeometry));
      words := words + [WordSpan(wordBegin, cursor, wordGeometry)];
    }
  }

  lemma NoWordsHold(text: Bytes, geometry: seq<bool>, begin: nat)
    requires begin <= |text|
    ensures WordsHold(text, geometry, [], begin, begin)
  {
  }

  lemma BlanksHold(text: Bytes, geometry: seq<bool>, words: seq<WordSpan>, begin: nat, skipped: nat, end: nat)
    requires begin <= skipped <= end <= |text| && WordsHold(text, geometry, words, begin, skipped)
    requires forall at | skipped <= at < end :: IsSpace(text[at])
    ensures WordsHold(text, geometry, words, begin, end)
  {
    hide IsSpace, GeometryAt;
  }

  lemma LastWordEnds(text: Bytes, geometry: seq<bool>, words: seq<WordSpan>, begin: nat, end: nat)
    requires end <= |text| && WordsHold(text, geometry, words, begin, end)
    ensures words != [] ==> words[|words| - 1].end <= end
  {
  }

  lemma WordAdded(text: Bytes, geometry: seq<bool>, words: seq<WordSpan>, begin: nat, skipped: nat, word: WordSpan)
    requires begin <= skipped <= word.begin < word.end <= |text| && WordsHold(text, geometry, words, begin, skipped)
    requires forall at | skipped <= at < word.begin :: IsSpace(text[at])
    requires forall at | word.begin <= at < word.end :: !IsSpace(text[at]) && (GeometryAt(geometry, at) <==> word.geometry)
    requires words != [] && words[|words| - 1].end == word.begin ==> words[|words| - 1].geometry != word.geometry
    ensures WordsHold(text, geometry, words + [word], begin, word.end)
  {
    hide IsSpace, GeometryAt, InWord;
    var grown := words + [word];
    WordCovers(words, word);
    OnlyLastTouches(text, geometry, words, begin, skipped);
    assert WordsAreWhole(grown) by { WholeGrows(words, word); }
    assert WordsAreUniform(text, geometry, grown, word.end) by {
      forall i, at: nat | 0 <= i < |grown| && grown[i].begin <= at < grown[i].end && at < word.end
        ensures !IsSpace(text[at]) && (GeometryAt(geometry, at) <==> grown[i].geometry)
      {
        if i < |words| { assert words[i].end <= skipped; }
      }
    }
  }

  lemma WholeGrows(words: seq<WordSpan>, word: WordSpan)
    requires WordsAreWhole(words) && forall i | 0 <= i < |words| - 1 :: words[i].end < word.begin
    requires words != [] && words[|words| - 1].end == word.begin ==> words[|words| - 1].geometry != word.geometry
    ensures WordsAreWhole(words + [word])
  {
    var grown := words + [word];
    forall i, j | 0 <= i < j < |grown| && grown[i].end == grown[j].begin ensures grown[i].geometry != grown[j].geometry {
      if j < |words| { assert words[i].end == words[j].begin; }
    }
  }

  lemma OnlyLastTouches(text: Bytes, geometry: seq<bool>, words: seq<WordSpan>, begin: nat, end: nat)
    requires end <= |text| && WordsHold(text, geometry, words, begin, end)
    ensures forall i | 0 <= i < |words| - 1 :: words[i].end < end
  {
    if words != [] {
      assert forall i | 0 <= i < |words| - 1 :: words[i].end <= words[|words| - 1].begin;
    }
  }

  lemma WordCovers(words: seq<WordSpan>, word: WordSpan)
    ensures forall at: nat | InWord(words, at) || word.begin <= at < word.end :: InWord(words + [word], at)
  {
    var grown := words + [word];
    forall at: nat | InWord(words, at) || word.begin <= at < word.end ensures InWord(grown, at) {
      if InWord(words, at) {
        var i :| 0 <= i < |words| && words[i].begin <= at < words[i].end;
        assert grown[i] == words[i];
      } else {
        assert grown[|words|] == word;
      }
    }
  }

  // ----- the record around a control

  /** `display_line_end_byte`: where the display line of a token ends; the end of the text where there is none. */
  function LineEndByte(env: Env, token: nat, i: nat): nat
    requires Sound(env.view) && i <= |env.lines|
    decreases |env.lines| - i
  {
    if i == |env.lines| then |env.text|
    else
      var line := env.lines[i];
      if token < line.prefix || token >= line.end then LineEndByte(env, token, i + 1)
      else if line.end >= |env.view.spans| then |env.text|
      else ByteOfWord(env.view, env.view.spans[line.end].begin)
  }

  method DisplayLineEnd(env: Env, token: nat) returns (byte: nat)
    requires Sound(env.view)
    ensures byte == LineEndByte(env, token, 0)
  {
    hide Sound;
    for i := 0 to |env.lines|
      invariant LineEndByte(env, token, 0) == LineEndByte(env, token, i)
    {
      var line := env.lines[i];
      if token < line.prefix || token >= line.end { continue; }
      if line.end >= |env.view.spans| { break; }
      var next := env.view.spans[line.end];
      return WordRangeToByteRange(env.view, Range(next.begin, next.begin)).begin;
    }
    return |env.text|;
  }

  /** The token spells a separator at the end of the word, past the word's first byte. */
  predicate EndsWithSeparator(view: View, word: WordSpan, t: nat)
    requires Sound(view) && t < |view.spans|
  {
    var bytes := WordsToBytes(view.words, BodyRange(view, t));
    bytes.end == word.end && bytes.begin > word.begin && IsSeparatorToken(BodyOf(view, t))
  }

  /** Where the first separator token that ends the word starts; the word's end where none does. */
  function SeparatorStart(env: Env, word: WordSpan, t: nat): nat
    requires Sound(env.view) && t <= |env.view.spans|
    decreases |env.view.spans| - t
  {
    if t == |env.view.spans| then word.end
    else if EndsWithSeparator(env.view, word, t) then WordsToBytes(env.view.words, BodyRange(env.view, t)).begin
    else SeparatorStart(env, word, t + 1)
  }

  function OpcodeEndOf(env: Env, word: WordSpan): nat
    requires Sound(env.view) && word.begin < word.end <= |env.text|
  {
    if env.text[word.end - 1] == COMMA then SeparatorStart(env, word, 0) else word.end
  }

  /** `opcode_end_without_separator`: a separator token's comma is not part of the opcode in front of it. */
  method OpcodeEnd(env: Env, word: WordSpan) returns (end: nat)
    requires Sound(env.view) && word.begin < word.end <= |env.text|
    ensures end == OpcodeEndOf(env, word) && word.begin < end <= word.end
  {
    hide BodyOf, BodyRange, IsSeparatorToken, WordsToBytes, Sound;
    if env.text[word.end - 1] != COMMA { return word.end; }
    for t := 0 to |env.view.spans|
      invariant SeparatorStart(env, word, 0) == SeparatorStart(env, word, t)
    {
      var bytes := WordRangeToByteRange(env.view, BodyRange(env.view, t));
      if bytes.end != word.end || bytes.begin <= word.begin { continue; }
      if !IsSeparatorToken(BodyOf(env.view, t)) { continue; }
      SeparatorIsNotEmpty(env.view, t);
      return bytes.begin;
    }
    return word.end;
  }

  lemma SeparatorIsNotEmpty(view: View, t: nat)
    requires Sound(view) && t < |view.spans| && IsSeparatorToken(BodyOf(view, t))
    ensures var bytes := WordsToBytes(view.words, BodyRange(view, t)); bytes.begin < bytes.end
  {
    var r := BodyRange(view, t);
    assert r.begin < r.end;
    OffsetsIncrease(view.words, r.begin, r.end);
  }

  /** `fixed_operand_count`. */
  function FixedOperands(kind: Kind): nat {
    match kind
    case TopicNumber | ParentTopic | ForwardLevel | BackLevel | HeadingLevel | SourceFile | MenuItem | MessageStart
       | ArtDescriptionStart => 1
    case RevisionDefinition => 2
    case Summary | Select => 3
    case _ => 0
  }

  /** The controls that read their words by a grammar of their own. */
  predicate HasGrammar(kind: Kind) {
    kind == Font || kind == RevisionDefinition || kind == Spacing || kind == LayoutDirective
  }

  // ----- what every control segment promises

  /** A byte that may stand before the first word of a segment. */
  predicate IsLeadIn(b: Byte) {
    IsSpace(b) || b == COMMA || b == QUESTION
  }

  ghost predicate OnlyLeadIn(text: Bytes, begin: nat, end: nat)
    requires end <= |text|
  {
    forall at | begin <= at < end :: IsLeadIn(text[at])
  }

  /** The ranges of a control lie in order in its segment. A revision definition's operands end where its last
      operand token does, which may be anywhere. */
  ghost predicate RangesHold(env: Env, c: Control) {
    && c.complete.begin < c.complete.end <= |env.text|
    && c.complete.begin <= c.opcodeRange.begin <= c.opcodeRange.end <= c.operandRange.begin <= c.complete.end
    && c.operandRange.end == c.payloadRange.begin && c.payloadRange.end == c.complete.end
    && (c.kind != RevisionDefinition ==> c.operandRange.begin <= c.operandRange.end <= c.payloadRange.end)
    && OnlyLeadIn(env.text, c.complete.begin, c.opcodeRange.begin)
  }

  /** Text has no opcode; a control has the opcode that its kind is read from, at the start of its opcode range. */
  ghost predicate OpcodeHolds(env: Env, c: Control) {
    if c.kind == PlainText then
      c.opcode == [] && c.opcodeRange.begin == c.opcodeRange.end && c.operandRange == c.opcodeRange
    else
      && c.opcode != [] && StandsAt(env.text, c.opcodeRange.begin, c.opcode)
      && c.opcodeRange.begin + |c.opcode| <= c.opcodeRange.end && c.operandRange.begin == c.opcodeRange.end
      && (c.kind == TopicStart || env.classify(c.opcode) == c.kind)
  }

  /** The tokens are what a search for the segment's words gives. */
  ghost predicate TokensHold(env: Env, c: Control) {
    IsFound(env.view.spans, |env.view.words|, BytesToWords(env.view.words, c.complete), c.tokens)
  }

  ghost predicate Proper(env: Env, c: Control) {
    RangesHold(env, c) && OpcodeHolds(env, c) && TokensHold(env, c)
  }

  /** The tokens whose words the byte range touches. */
  method TokensOfBytes(env: Env, bytes: Range) returns (tokens: seq<nat>)
    requires Sound(env.view)
    ensures IsFound(env.view.spans, |env.view.words|, BytesToWords(env.view.words, bytes), tokens)
  {
    var words := ByteRangeToWordRange(env.view.words, env.view.offsets, bytes);
    tokens := TokensMeeting(env.view.spans, |env.view.words|, words);
  }

  /** The token opens a display line: it is the first one after a length byte. */
  predicate OpensLine(env: Env, token: nat) {
    exists i | 0 <= i < |env.lines| :: env.lines[i].prefix + 1 == token < env.lines[i].end
  }

  /** The words before the first box drawing: past it, everything is payload. */
  method BeforeGeometry(words: seq<WordSpan>) returns (kept: seq<WordSpan>)
    ensures BeforeDrawing(words, kept)
  {
    var n := 0;
    while n < |words| && !words[n].geometry
      invariant n <= |words| && forall i | 0 <= i < n :: !words[i].geometry
    {
      n := n + 1;
    }
    kept := words[..n];
  }

  /** The operands of a control: malformed or not, and where they end. A grammar tells, or a fixed count of words. */
  function OperandsOf(env: Env, kind: Kind, opcode: Range, words: seq<WordSpan>, byGrammar: bool): (operands: (bool, nat))
    requires SoundEnv(env) && words != []
  {
    var reading := env.grammar(kind, opcode, words);
    assert Reads(kind, words, reading);
    var fixed := FixedOperands(kind);
    var few := fixed > |words| - 1;
    var count := if byGrammar then reading.count else if few then |words| - 1 else fixed;
    var end := if count == 0 then opcode.end else words[count].end;
    if !byGrammar then (few, end)
    else (reading.malformed, if reading.end.Some? then reading.end.value else end)
  }

  /** A summary reads its words by the grammar where its opcode opens a display line. */
  predicate SummaryByLine(env: Env, tokens: seq<nat>) {
    tokens != [] && OpensLine(env, tokens[0])
  }

  ghost predicate OperandsAre(env: Env, kind: Kind, opcode: Range, words: seq<WordSpan>, malformed: bool, end: nat)
    requires SoundEnv(env) && words != []
  {
    if kind == Summary then
      exists tokens :: IsFound(env.view.spans, |env.view.words|, BytesToWords(env.view.words, opcode), tokens)
                       && (malformed, end) == OperandsOf(env, kind, opcode, words, SummaryByLine(env, tokens))
    else (malformed, end) == OperandsOf(env, kind, opcode, words, HasGrammar(kind))
  }

  method CountOperands(env: Env, kind: Kind, opcode: Range, words: seq<WordSpan>, byGrammar: bool)
    returns (malformed: bool, end: nat)
    requires SoundEnv(env) && words != [] && words[0].end == opcode.end
    requires forall i | 0 <= i < |words| :: words[i].begin < words[i].end
    requires forall i, j | 0 <= i < j < |words| :: words[i].end <= words[j].begin
    ensures (malformed, end) == OperandsOf(env, kind, opcode, words, byGrammar)
    ensures kind != RevisionDefinition ==> opcode.end <= end <= words[|words| - 1].end
  {
    var reading := env.grammar(kind, opcode, words);
    assert Reads(kind, words, reading);
    hide SoundEnv, Sound, GrammarReads, FixedOperands;
    var count := FixedOperands(kind);
    malformed := false;
    if byGrammar {
      malformed, count := reading.malformed, reading.count;
      if reading.end.Some? { return malformed, reading.end.value; }
    } else if count > |words| - 1 {
      malformed, count := true, |words| - 1;
    }
    end := if count == 0 then opcode.end else words[count].end;
  }

  /** Where the operands of a control end, and whether it is malformed. */
  method OperandsEnd(env: Env, kind: Kind, opcode: Range, words: seq<WordSpan>) returns (malformed: bool, end: nat)
    requires SoundEnv(env) && words != [] && words[0].end == opcode.end <= |env.text|
    requires forall i | 0 <= i < |words| :: words[i].begin < words[i].end <= |env.text|
    requires forall i, j | 0 <= i < j < |words| :: words[i].end <= words[j].begin
    ensures OperandsAre(env, kind, opcode, words, malformed, end)
    ensures kind != RevisionDefinition ==> opcode.end <= end <= words[|words| - 1].end
  {
    assert Sound(env.view);
    hide SoundEnv, Sound, IsFound, BytesToWords, OpensLine, OperandsOf;
    var byGrammar := HasGrammar(kind);
    if kind == Summary {
      var tokens := TokensOfBytes(env, opcode);
      byGrammar := SummaryByLine(env, tokens);
    }
    malformed, end := CountOperands(env, kind, opcode, words, byGrammar);
  }

  /** Where an opcode ends that starts in the display line of the first of these tokens. */
  function ClippedEnd(env: Env, word: WordSpan, tokens: seq<nat>): nat
    requires Sound(env.view)
  {
    if tokens == [] then word.end
    else
      var lineEnd := LineEndByte(env, tokens[0], 0);
      if word.begin < lineEnd < word.end then lineEnd else word.end
  }

  ghost predicate IsClipped(env: Env, word: WordSpan, end: nat)
    requires Sound(env.view)
  {
    exists tokens :: end == ClippedEnd(env, word, tokens)
      && IsFound(env.view.spans, |env.view.words|, BytesToWords(env.view.words, Range(word.begin, word.end)), tokens)
  }

  /** An opcode ends where its own display line ends. */
  method ClipOpcode(env: Env, word: WordSpan) returns (end: nat)
    requires Sound(env.view) && word.begin < word.end
    ensures IsClipped(env, word, end) && word.begin < end <= word.end
  {
    hide Sound, IsFound, BytesToWords;
    var tokens := TokensOfBytes(env, Range(word.begin, word.end));
    end := word.end;
    if tokens != [] {
      var lineEnd := DisplayLineEnd(env, tokens[0]);
      if word.begin < lineEnd < word.end { end := lineEnd; }
    }
    assert end == ClippedEnd(env, word, tokens);
  }

  method SkipLeadIn(text: Bytes, begin: nat, end: nat) returns (start: nat)
    requires begin <= end <= |text|
    ensures begin <= start <= end && OnlyLeadIn(text, begin, start) && (start < end ==> !IsLeadIn(text[start]))
  {
    start := begin;
    while start < end && IsLeadIn(text[start])
      invariant begin <= start <= end && OnlyLeadIn(text, begin, start)
    {
      start := start + 1;
    }
  }

  lemma NoLeadIn(text: Bytes, begin: nat)
    requires begin <= |text|
    ensures OnlyLeadIn(text, begin, begin)
  {
  }

  lemma OpcodeStands(text: Bytes, begin: nat, end: nat)
    requires begin <= end <= |text|
    ensures StandsAt(text, begin, text[begin..end])
  {
  }

  /** A segment without words before its box drawing. */
  lemma NoWordsIsText(env: Env, index: nat, complete: Range, start: nat, tokens: seq<nat>)
    requires complete.begin <= start <= complete.end <= |env.text| && complete.begin < complete.end
    requires OnlyLeadIn(env.text, complete.begin, start)
    ensures var nothing := Range(start, start);
            var c := Control(index, PlainText, [], complete, nothing, nothing, Range(start, complete.end), tokens, false, false);
            RangesHold(env, c) && OpcodeHolds(env, c)
  {
  }

  /** The words of a segment, the first one clipped. */
  function WithFirstEnd(words: seq<WordSpan>, end: nat): (clipped: seq<WordSpan>)
    requires words != []
    ensures |clipped| == |words|
  {
    words[0 := words[0].(end := end)]
  }

  /** What a segment reads as that has words before its box drawing: the control that its opcode is classified as, with
      that opcode and its operands, or text where it is classified as none. */
  ghost predicate ReadsClipped(env: Env, c: Control, words: seq<WordSpan>, end: nat)
    requires SoundEnv(env) && words != [] && words[0].begin < end <= |env.text|
  {
    var clipped := WithFirstEnd(words, end);
    var opcodeEnd := OpcodeEndOf(env, clipped[0]);
    && words[0].begin <= opcodeEnd <= |env.text|
    && var opcode := env.text[words[0].begin..opcodeEnd];
       && c.kind == env.classify(opcode)
       && if c.kind == PlainText then
            c.opcodeRange == Range(c.complete.begin, c.complete.begin) && c.payloadRange == c.complete && !c.malformed
          else
            && c.opcode == opcode && c.opcodeRange == Range(words[0].begin, end)
            && OperandsAre(env, c.kind, c.opcodeRange, clipped, c.malformed, c.payloadRange.begin)
  }

  ghost predicate ReadsAs(env: Env, c: Control, words: seq<WordSpan>)
    requires SoundEnv(env) && words != []
  {
    exists end: nat :: IsClipped(env, words[0], end) && words[0].begin < end <= |env.text| && ReadsClipped(env, c, words, end)
  }

  /** A segment that its first words make a control, or that stays text. */
  method ReadWords(env: Env, index: nat, complete: Range, words: seq<WordSpan>, tokens: seq<nat>) returns (c: Control)
    requires SoundEnv(env) && complete.begin < complete.end <= |env.text| && words != []
    requires forall i | 0 <= i < |words| :: complete.begin <= words[i].begin < words[i].end <= complete.end
    requires OnlyLeadIn(env.text, complete.begin, words[0].begin)
    requires forall i, j | 0 <= i < j < |words| :: words[i].end <= words[j].begin
    ensures c.index == index && c.complete == complete && c.tokens == tokens && !c.displayText
    ensures RangesHold(env, c) && OpcodeHolds(env, c) && ReadsAs(env, c, words)
  {
    assert Sound(env.view);
    hide SoundEnv, Sound, StandsAt, OnlyLeadIn, IsLeadIn, OperandsAre, IsClipped, OpcodeEndOf;
    var wordEnd := ClipOpcode(env, words[0]);
    var clipped := WithFirstEnd(words, wordEnd);
    var opcodeEnd := OpcodeEnd(env, clipped[0]);
    var opcode := env.text[words[0].begin..opcodeEnd];
    OpcodeStands(env.text, words[0].begin, opcodeEnd);
    NoLeadIn(env.text, complete.begin);
    var kind := env.classify(opcode);
    if kind == PlainText {
      var nothing := Range(complete.begin, complete.begin);
      c := Control(index, PlainText, [], complete, nothing, nothing, complete, tokens, false, false);
    } else {
      var opcodeRange := Range(words[0].begin, wordEnd);
      var malformed, operandEnd := OperandsEnd(env, kind, opcodeRange, clipped);
      c := Control(index, kind, opcode, complete, opcodeRange, Range(wordEnd, operandEnd),
                   Range(operandEnd, complete.end), tokens, malformed, false);
    }
    assert ReadsClipped(env, c, words, wordEnd);
  }

  /** The words of a stretch of text that starts at `start` after its lead-in, up to the first box drawing. */
  ghost predicate LeadingWords(text: Bytes, geometry: seq<bool>, complete: Range, start: nat, words: seq<WordSpan>) {
    && complete.begin <= start <= complete.end <= |text| && OnlyLeadIn(text, complete.begin, start)
    && (start < complete.end ==> !IsLeadIn(text[start]))
    && exists all :: WordsHold(text, geometry, all, start, complete.end) && BeforeDrawing(all, words)
  }

  ghost predicate BeforeDrawing(all: seq<WordSpan>, words: seq<WordSpan>) {
    && words <= all && (forall i | 0 <= i < |words| :: !words[i].geometry)
    && (|words| < |all| ==> all[|words|].geometry)
  }

  /** A segment is text exactly where it has no words before its box drawing or their opcode is classified as none. */
  ghost predicate IsReading(env: Env, geometry: seq<bool>, c: Control)
    requires SoundEnv(env)
  {
    && !c.displayText
    && exists start: nat, words ::
         && LeadingWords(env.text, geometry, c.complete, start, words)
         && if words == [] then c.kind == PlainText && c.payloadRange == Range(start, c.complete.end) && !c.malformed
            else ReadsAs(env, c, words)
  }

  /** One turn of `decode_control_segments`: reads the segment [begin, end) of the text. */
  method ReadControl(env: Env, geometry: seq<bool>, index: nat, begin: nat, end: nat) returns (c: Control)
    requires SoundEnv(env) && begin < end <= |env.text|
    ensures c.index == index && c.complete == Range(begin, end) && Proper(env, c) && IsReading(env, geometry, c)
  {
    assert Sound(env.view);
    hide SoundEnv, Sound, IsFound, WordsHold, BytesToWords, RangesHold, OpcodeHolds, OnlyLeadIn, IsLeadIn, ReadsAs;
    var complete := Range(begin, end);
    var tokens := TokensOfBytes(env, complete);
    var start := SkipLeadIn(env.text, begin, end);
    var all := WordsIn(env.text, start, end, geometry);
    var words := BeforeGeometry(all);
    assert LeadingWords(env.text, geometry, complete, start, words);
    if words == [] {
      NoWordsIsText(env, index, complete, start, tokens);
      var nothing := Range(start, start);
      c := Control(index, PlainText, [], complete, nothing, nothing, Range(start, end), tokens, false, false);
    } else {
      FirstWordStarts(env.text, geometry, all, start, end);
      c := ReadWords(env, index, complete, words, tokens);
    }
  }

  /** The first word starts where the text after the lead-in does. */
  lemma FirstWordStarts(text: Bytes, geometry: seq<bool>, words: seq<WordSpan>, begin: nat, end: nat)
    requires begin <= end <= |text| && WordsHold(text, geometry, words, begin, end) && words != []
    requires begin < end ==> !IsLeadIn(text[begin])
    ensures words[0].begin == begin
    ensures forall i | 0 <= i < |words| :: begin <= words[i].begin < words[i].end <= end
    ensures forall i, j | 0 <= i < j < |words| :: words[i].end <= words[j].begin
  {
    assert InWord(words, begin);
  }
}
