// Withdrawing the controls that a display line owns, and putting back together the lines that they cut
// (display_lines.cpp).
module Demotion {
  import opened Bytes
  import opened Tokens
  import opened Ascii
  import Assembly
  import opened SpanSearch
  import opened SegmentCuts
  import opened ControlIR
  import opened ControlSegments

  /** A decoded record: its text with its display lines, its tokens, and the source of every word. */
  datatype Decoded = Decoded(env: Env, tokens: seq<Token>, sources: seq<Assembly.Source>)

  ghost predicate SoundDecoded(d: Decoded) {
    SoundEnv(d.env) && |d.tokens| == |d.env.view.spans|
  }

  lemma ViewIsSound(d: Decoded)
    requires SoundDecoded(d)
    ensures Sound(d.env.view)
  {
    hide Sound;
  }

  /** The tokens of a segment are tokens of the record. */
  lemma TokensAreThere(d: Decoded, c: Control)
    requires SoundDecoded(d) && Proper(d.env, c)
    ensures forall k | 0 <= k < |c.tokens| :: c.tokens[k] < |d.tokens|
  {
    FoundAscends(d.env.view.spans, |d.env.view.words|, BytesToWords(d.env.view.words, c.complete), c.tokens);
  }

  // ----- tokens in their display lines

  /** `display_line_of_token`: the first line that holds the token. */
  function LineOf(lines: seq<Line>, t: nat, i: nat): (line: Option<nat>)
    requires i <= |lines|
    ensures line.Some? ==> i <= line.value < |lines| && lines[line.value].prefix <= t < lines[line.value].end
    decreases |lines| - i
  {
    if i == |lines| then None
    else if lines[i].prefix <= t < lines[i].end then Some(i)
    else LineOf(lines, t, i + 1)
  }

  method DisplayLineOf(lines: seq<Line>, t: nat) returns (line: Option<nat>)
    ensures line == LineOf(lines, t, 0)
  {
    for i := 0 to |lines|
      invariant LineOf(lines, t, 0) == LineOf(lines, t, i)
    {
      if lines[i].prefix <= t < lines[i].end { return Some(i); }
    }
    return None;
  }

  /** `is_display_line_length_token`. */
  predicate IsLengthToken(d: Decoded, t: nat) {
    t < |d.tokens| && d.tokens[t].framing == LineLength
  }

  /** `opcode_token`: the token that the opcode's first word comes from. */
  function OpcodeToken(d: Decoded, c: Control): Option<nat> {
    var words := BytesToWords(d.env.view.words, c.opcodeRange);
    if c.opcodeRange.begin >= c.opcodeRange.end || words.begin >= words.end || words.begin >= |d.sources| then None
    else if d.sources[words.begin].kind != Assembly.TokenWord then None
    else Some(d.sources[words.begin].token)
  }

  method FindOpcodeToken(d: Decoded, c: Control) returns (t: Option<nat>)
    requires SoundDecoded(d)
    ensures t == OpcodeToken(d, c)
  {
    hide BytesToWords;
    if c.opcodeRange.begin >= c.opcodeRange.end { return None; }
    var words := ByteRangeToWordRange(d.env.view.words, d.env.view.offsets, c.opcodeRange);
    if words.begin >= words.end || words.begin >= |d.sources| { return None; }
    var source := d.sources[words.begin];
    t := if source.kind == Assembly.TokenWord then Some(source.token) else None;
  }

  /** The opcode stands on the length byte of a display line. */
  predicate IsLengthOpcode(d: Decoded, c: Control) {
    OpcodeToken(d, c).Some? && IsLengthToken(d, OpcodeToken(d, c).value)
  }

  /** The opcode stands inside a display line, past its first cell. */
  predicate IsEmbeddedOpcode(d: Decoded, c: Control) {
    var t := OpcodeToken(d, c);
    && t.Some?
    && var line := LineOf(d.env.lines, t.value, 0);
       line.Some? && t.value > d.env.lines[line.value].prefix + 1
  }

  // ----- how a token is spelled

  /** The ASCII words of a token without its spacing controls; nothing if a word is not ASCII. */
  function AsciiWords(words: Words): Option<Bytes> {
    if words == [] then Some([])
    else
      var last := words[|words| - 1];
      match AsciiWords(words[..|words| - 1])
      case None => None
      case Some(text) => if last < 4 then Some(text) else if last > 0x7F then None else Some(text + [last])
  }

  const SPACE: Byte := 0x20

  function TrimmedFront(text: Bytes): Bytes {
    if text != [] && text[0] == SPACE then TrimmedFront(text[1..]) else text
  }

  function TrimmedBack(text: Bytes): Bytes {
    if text != [] && text[|text| - 1] == SPACE then TrimmedBack(text[..|text| - 1]) else text
  }

  function Spelling(words: Words): Bytes {
    match AsciiWords(words)
    case None => []
    case Some(text) => TrimmedBack(TrimmedFront(text))
  }

  lemma {:induction false} AsciiWordsStop(words: Words, k: nat)
    requires k <= |words| && AsciiWords(words[..k]).None?
    ensures AsciiWords(words).None?
    decreases |words|
  {
    if k < |words| {
      assert words[..|words| - 1][..k] == words[..k];
      AsciiWordsStop(words[..|words| - 1], k);
    } else {
      assert words[..k] == words;
    }
  }

  /** `token_word_text`. */
  method TokenWordText(words: Words) returns (text: Bytes)
    ensures text == Spelling(words)
  {
    text := [];
    for k := 0 to |words|
      invariant AsciiWords(words[..k]) == Some(text)
    {
      assert words[..k + 1][..k] == words[..k];
      if words[k] < 4 { continue; }
      if words[k] > 0x7F {
        AsciiWordsStop(words, k + 1);
        return [];
      }
      text := text + [words[k]];
    }
    assert words[..|words|] == words;
    var begin := 0;
    while begin < |text| && text[begin] == SPACE
      invariant begin <= |text| && TrimmedFront(text) == TrimmedFront(text[begin..])
    {
      assert text[begin..][1..] == text[begin + 1..];
      begin := begin + 1;
    }
    text := text[begin..];
    var end := |text|;
    assert text[..end] == text;
    while end > 0 && text[end - 1] == SPACE
      invariant end <= |text| && TrimmedBack(text) == TrimmedBack(text[..end])
    {
      assert text[..end][..end - 1] == text[..end - 1];
      end := end - 1;
    }
    text := text[..end];
  }

  /** `ascii_lower`. */
  function Lowered(text: Bytes): Bytes {
    seq(|text|, k requires 0 <= k < |text| => Lower(text[k]))
  }

  // ----- a segment that turns out to be display text

  function AsDisplayText(c: Control): Control {
    var nothing := Range(c.complete.begin, c.complete.begin);
    c.(kind := PlainText, displayText := true, opcode := [], opcodeRange := nothing, operandRange := nothing,
       payloadRange := c.complete)
  }

  lemma DisplayTextIsProper(env: Env, c: Control)
    requires Proper(env, c)
    ensures Proper(env, AsDisplayText(c))
  {
    hide IsFound, BytesToWords, StandsAt;
  }

  /** A row stays one when a segment of it becomes display text. */
  lemma DisplayTextKeepsRow(env: Env, controls: seq<Control>, i: nat)
    requires Row(env, controls) && i < |controls|
    ensures Row(env, controls[i := AsDisplayText(controls[i])])
  {
    hide Proper;
    assert Proper(env, controls[i]) && EndBefore(controls, i) <= controls[i].complete.begin;
    assert i + 1 < |controls| ==> EndBefore(controls, i + 1) <= controls[i + 1].complete.begin;
    DisplayTextIsProper(env, controls[i]);
    RowGrows(env, controls, i, AsDisplayText(controls[i]));
  }

  // ----- controls that a length byte spells

  predicate IsOpenSelect(c: Control) {
    c.kind == Select && c.payloadRange.begin == c.payloadRange.end
  }

  /** Segment `i` opens on the line that a selector without payload selects. */
  predicate OnSelectedLine(controls: seq<Control>, i: nat, carried: bool)
    requires i < |controls|
  {
    if i == 0 then carried else IsOpenSelect(controls[i - 1])
  }

  predicate IsScopeOrSelector(kind: Kind) {
    kind == MenuStart || kind == MenuItem || kind == MenuEnd || kind == TableStart || kind == TableEnd
    || kind == MessageStart || kind == Select
  }

  /** The control is the spelling of a display line's length byte. */
  predicate IsLengthSpelling(d: Decoded, c: Control, selected: bool) {
    && c.kind != PlainText && c.opcode != [] && (IsScopeOrSelector(c.kind) || selected)
    && c.tokens != [] && c.tokens[0] < |d.tokens| && IsLengthOpcode(d, c)
    && Lowered(Spelling(d.tokens[c.tokens[0]].words)) == Lowered(c.opcode)
  }

  ghost predicate WithoutLengths(d: Decoded, controls: seq<Control>, result: seq<Control>, carried: bool) {
    && |result| == |controls|
    && forall i | 0 <= i < |controls| :: WithoutLength(d, controls, result, carried, i)
  }

  ghost predicate WithoutLength(d: Decoded, controls: seq<Control>, result: seq<Control>, carried: bool, i: nat)
    requires i < |controls| == |result|
  {
    result[i] == if IsLengthSpelling(d, controls[i], OnSelectedLine(result, i, carried)) then AsDisplayText(controls[i])
                 else controls[i]
  }

  method SpelledByLength(d: Decoded, c: Control, selected: bool) returns (spelled: bool)
    requires SoundDecoded(d) && Proper(d.env, c)
    ensures spelled == IsLengthSpelling(d, c, selected)
  {
    TokensAreThere(d, c);
    hide SoundDecoded, OpcodeToken, Spelling, Proper;
    if c.kind == PlainText || c.opcode == [] || (!IsScopeOrSelector(c.kind) && !selected) || c.tokens == [] { return false; }
    var t := FindOpcodeToken(d, c);
    if t.None? || !IsLengthToken(d, t.value) { return false; }
    var text := TokenWordText(d.tokens[c.tokens[0]].words);
    spelled := Lowered(text) == Lowered(c.opcode);
  }

  /** `demote_length_byte_controls`. */
  method DemoteLengths(d: Decoded, controls: seq<Control>, carried: bool) returns (result: seq<Control>)
    requires SoundDecoded(d) && Row(d.env, controls)
    ensures Row(d.env, result) && WithoutLengths(d, controls, result, carried)
  {
    hide SoundDecoded, Row, Proper, IsLengthSpelling, AsDisplayText;
    result := controls;
    for i := 0 to |controls|
      invariant |result| == |controls| && Row(d.env, result)
      invariant forall k | 0 <= k < i :: WithoutLength(d, controls, result, carried, k)
      invariant forall k | i <= k < |controls| :: result[k] == controls[k]
    {
      var selected := OnSelectedLine(result, i, carried);
      RowIsProper(d.env, result, i);
      var spelled := SpelledByLength(d, result[i], selected);
      if spelled {
        DisplayTextKeepsRow(d.env, result, i);
        ghost var before := result;
        result := result[i := AsDisplayText(result[i])];
        forall k | 0 <= k < i ensures WithoutLength(d, controls, result, carried, k) {
          assert WithoutLength(d, controls, before, carried, k);
        }
      }
    }
  }

  lemma RowIsProper(env: Env, controls: seq<Control>, i: nat)
    requires Row(env, controls) && i < |controls|
    ensures Proper(env, controls[i]) && controls[i].index == i && EndBefore(controls, i) <= controls[i].complete.begin
  {
  }

  // ----- control words inside a display line

  predicate IsVisible(token: Token) {
    exists k | 0 <= k < |token.words| :: token.words[k] != BLANK
  }

  /** The first token that shows something and is no length byte. */
  function FirstVisible(d: Decoded, tokens: seq<nat>): (first: Option<nat>)
    ensures first.Some? ==> first.value < |d.tokens|
  {
    if tokens == [] then None
    else if tokens[0] < |d.tokens| && IsVisible(d.tokens[tokens[0]]) && !IsLengthToken(d, tokens[0]) then Some(tokens[0])
    else FirstVisible(d, tokens[1..])
  }

  /** The last of the first n lines that holds the token past its length byte. */
  function LastAround(lines: seq<Line>, n: nat, t: nat): (line: Option<nat>)
    requires n <= |lines|
    ensures line.Some? ==> line.value < n && lines[line.value].prefix < t < lines[line.value].end
  {
    if n == 0 then None
    else if lines[n - 1].prefix < t < lines[n - 1].end then Some(n - 1)
    else LastAround(lines, n - 1, t)
  }

  predicate VisibleBetween(d: Decoded, begin: nat, end: nat) {
    exists t | begin <= t < end :: t < |d.tokens| && IsVisible(d.tokens[t])
  }

  const SI: Bytes := ['s' as int, 'i' as int]

  predicate IsIndexKeyword(d: Decoded, c: Control) {
    c.kind == PlainText && c.tokens != [] && c.tokens[0] < |d.tokens|
    && Lowered(Spelling(d.tokens[c.tokens[0]].words)) == SI
  }

  /** The segment's first visible token stands where no control opens: behind another one in its line, or past the
      line's first cell. */
  predicate StandsInside(d: Decoded, c: Control) {
    var first := FirstVisible(d, c.tokens);
    && first.Some?
    && var line := LastAround(d.env.lines, |d.env.lines|, first.value);
       && line.Some?
       && var origin := d.env.lines[line.value].prefix + 1;
          || VisibleBetween(d, origin, first.value)
          || (first.value != origin && (c.kind == Title || IsIndexKeyword(d, c) || c.opcode != []))
  }

  /** The display line owns the word that the control was read from. */
  predicate IsOwned(d: Decoded, c: Control) {
    && c.tokens != []
    && ((c.kind == TopicStart && IsEmbeddedOpcode(d, c))
        || ((c.kind == Structural || c.kind == Title || c.kind == PlainText || c.kind == LayoutDirective)
            && StandsInside(d, c)))
  }

  ghost predicate WithoutOwned(d: Decoded, controls: seq<Control>, result: seq<Control>) {
    && |result| == |controls|
    && forall i | 0 <= i < |controls| ::
         result[i] == if IsOwned(d, controls[i]) then AsDisplayText(controls[i]) else controls[i]
  }

  method Visible(token: Token) returns (visible: bool)
    ensures visible == IsVisible(token)
  {
    for k := 0 to |token.words|
      invariant forall i | 0 <= i < k :: token.words[i] == BLANK
    {
      if token.words[k] != BLANK { return true; }
    }
    return false;
  }

  method FindFirstVisible(d: Decoded, tokens: seq<nat>) returns (first: Option<nat>)
    requires forall k | 0 <= k < |tokens| :: tokens[k] < |d.tokens|
    ensures first == FirstVisible(d, tokens)
  {
    hide IsVisible;
    assert tokens[0..] == tokens;
    for k := 0 to |tokens|
      invariant FirstVisible(d, tokens) == FirstVisible(d, tokens[k..])
    {
      assert tokens[k..][1..] == tokens[k + 1..];
      var visible := Visible(d.tokens[tokens[k]]);
      if visible && !IsLengthToken(d, tokens[k]) { return Some(tokens[k]); }
    }
    return None;
  }

  method FindLineAround(lines: seq<Line>, t: nat) returns (line: Option<nat>)
    ensures line == LastAround(lines, |lines|, t)
  {
    line := None;
    for i := 0 to |lines|
      invariant line == LastAround(lines, i, t)
    {
      if lines[i].prefix < t < lines[i].end { line := Some(i); }
    }
  }

  method AnyVisible(d: Decoded, begin: nat, end: nat) returns (visible: bool)
    requires end <= |d.tokens|
    ensures visible == VisibleBetween(d, begin, end)
  {
    hide IsVisible;
    visible := false;
    var t := begin;
    while t < end
      invariant begin <= t && (t <= end || t == begin) && visible == VisibleBetween(d, begin, t)
    {
      var shown := Visible(d.tokens[t]);
      if shown { visible := true; }
      t := t + 1;
    }
  }

  /** Whether the segment stands inside a display line. */
  method Inside(d: Decoded, c: Control) returns (inside: bool)
    requires forall k | 0 <= k < |c.tokens| :: c.tokens[k] < |d.tokens|
    requires c.tokens != []
    ensures inside == StandsInside(d, c)
  {
    hide FirstVisible, LastAround, VisibleBetween, Spelling;
    var spelling := TokenWordText(d.tokens[c.tokens[0]].words);
    var keyword := c.kind == PlainText && Lowered(spelling) == SI;
    var first := FindFirstVisible(d, c.tokens);
    if first.None? { return false; }
    var around := FindLineAround(d.env.lines, first.value);
    if around.None? { return false; }
    var origin := d.env.lines[around.value].prefix + 1;
    var visibleBefore := AnyVisible(d, origin, first.value);
    if (c.kind == Title || keyword) && first.value != origin { visibleBefore := true; }
    inside := visibleBefore || (c.opcode != [] && first.value != origin);
  }

  method Owned(d: Decoded, c: Control) returns (owned: bool)
    requires SoundDecoded(d) && Proper(d.env, c)
    ensures owned == IsOwned(d, c)
  {
    TokensAreThere(d, c);
    hide SoundDecoded, Proper, StandsInside, OpcodeToken;
    if c.tokens == [] { return false; }
    if c.kind == TopicStart {
      var t := FindOpcodeToken(d, c);
      if t.Some? {
        var line := DisplayLineOf(d.env.lines, t.value);
        if line.Some? && t.value > d.env.lines[line.value].prefix + 1 { return true; }
      }
    }
    if c.kind != Structural && c.kind != Title && c.kind != PlainText && c.kind != LayoutDirective { return false; }
    owned := Inside(d, c);
  }

  /** The middle loop of `demote_display_line_owned_controls`. */
  method DemoteOwned(d: Decoded, controls: seq<Control>) returns (result: seq<Control>)
    requires SoundDecoded(d) && Row(d.env, controls)
    ensures Row(d.env, result) && WithoutOwned(d, controls, result)
  {
    hide SoundDecoded, Row, Proper, IsOwned, AsDisplayText;
    result := controls;
    for i := 0 to |controls|
      invariant |result| == |controls| && Row(d.env, result)
      invariant forall k | 0 <= k < i ::
          result[k] == if IsOwned(d, controls[k]) then AsDisplayText(controls[k]) else controls[k]
      invariant forall k | i <= k < |controls| :: result[k] == controls[k]
    {
      RowIsProper(d.env, result, i);
      var owned := Owned(d, result[i]);
      if owned {
        DisplayTextKeepsRow(d.env, result, i);
        result := result[i := AsDisplayText(result[i])];
      }
    }
  }

  // ----- segments joined into groups

  /** The first segment from `j` on that does not join. */
  function RunEnd(controls: seq<Control>, j: nat, joins: Control -> bool): (end: nat)
    requires j <= |controls|
    ensures j <= end <= |controls|
    ensures forall k | j <= k < end :: joins(controls[k])
    ensures end < |controls| ==> !joins(controls[end])
    decreases |controls| - j
  {
    if j < |controls| && joins(controls[j]) then RunEnd(controls, j + 1, joins) else j
  }

  /** The starts of consecutive groups, with the number of segments at the end. */
  ghost predicate AreStarts(starts: seq<nat>, count: nat) {
    && starts != [] && starts[0] == 0 && starts[|starts| - 1] == count
    && forall i, j | 0 <= i < j < |starts| :: starts[i] < starts[j]
  }

  lemma StartsGrow(starts: seq<nat>, at: nat, end: nat)
    requires AreStarts(starts, at) && at < end
    ensures AreStarts(starts + [end], end)
  {
  }

  /** Every segment is in a group. */
  lemma {:induction false} GroupOf(starts: seq<nat>, count: nat, j: nat) returns (i: nat)
    requires AreStarts(starts, count) && j < count
    ensures i + 1 < |starts| && starts[i] <= j < starts[i + 1]
  {
    i := 0;
    while starts[i + 1] <= j
      invariant i + 1 < |starts| && starts[i] <= j
      decreases |starts| - i
    {
      i := i + 1;
    }
  }

  // ----- lines that a selector selects

  const SR: Bytes := ['s' as int, 'r' as int]

  /** The segment's payload is a whole display line. */
  predicate TakesLine(c: Control, first: bool, carried: bool) {
    || c.kind == Select || c.kind == MessageStart
    || (c.kind == Structural && |c.opcode| > 2 && Lowered(c.opcode)[..2] == SR)
    || (carried && first && c.kind == PlainText && !c.displayText)
  }

  /** The segment is display text that opens on the line, past its first cell. */
  function ContinuesLine(lines: seq<Line>, line: nat): Control -> bool
    requires line < |lines|
  {
    (next: Control) =>
      next.displayText && next.kind == PlainText && next.tokens != [] && LineOf(lines, next.tokens[0], 0) == Some(line)
      && next.tokens[0] != lines[line].prefix + 1
  }

  /** Where the group ends that segment `at` opens. */
  function RejoinEnd(d: Decoded, controls: seq<Control>, at: nat, carried: bool): (end: nat)
    requires at < |controls|
    ensures at < end <= |controls|
  {
    var c := controls[at];
    if !TakesLine(c, at == 0, carried) || c.tokens == [] then at + 1
    else match LineOf(d.env.lines, c.tokens[|c.tokens| - 1], 0)
      case None => at + 1
      case Some(line) => RunEnd(controls, at + 1, ContinuesLine(d.env.lines, line))
  }

  /** The segment grown over what follows it. A message whose words were cut off has them as its operand. */
  function Grown(c: Control, end: nat, index: nat, tokens: seq<nat>): Control {
    var operands := c.kind == MessageStart && c.operandRange.begin == c.operandRange.end;
    c.(index := index, complete := Range(c.complete.begin, end), tokens := tokens,
       operandRange := if operands then Range(c.operandRange.begin, end) else c.operandRange,
       payloadRange := if operands then Range(end, end) else Range(c.payloadRange.begin, end),
       malformed := !operands && c.malformed)
  }

  /** The segment `r` is the group [at, end). */
  ghost predicate IsRejoined(d: Decoded, controls: seq<Control>, at: nat, end: nat, r: Control)
    requires at < end <= |controls|
  {
    if end == at + 1 then r == controls[at].(index := r.index)
    else
      && r == Grown(controls[at], controls[end - 1].complete.end, r.index, r.tokens)
      && IsFound(d.env.view.spans, |d.env.view.words|, BytesToWords(d.env.view.words, r.complete), r.tokens)
  }

  ghost predicate RejoinedBy(d: Decoded, controls: seq<Control>, carried: bool, starts: seq<nat>, result: seq<Control>) {
    && |starts| == |result| + 1
    && forall i | 0 <= i < |result| ::
         && starts[i] < |controls| && starts[i + 1] == RejoinEnd(d, controls, starts[i], carried)
         && IsRejoined(d, controls, starts[i], starts[i + 1], result[i])
  }

  /** The segments grouped from the first to the last, each group one segment. */
  ghost predicate Rejoined(d: Decoded, controls: seq<Control>, result: seq<Control>, carried: bool) {
    exists starts :: AreStarts(starts, |controls|) && RejoinedBy(d, controls, carried, starts, result)
  }

  method FindRunEnd(controls: seq<Control>, j: nat, joins: Control -> bool) returns (end: nat)
    requires j <= |controls|
    ensures end == RunEnd(controls, j, joins)
  {
    end := j;
    while end < |controls| && joins(controls[end])
      invariant j <= end <= |controls| && RunEnd(controls, j, joins) == RunEnd(controls, end, joins)
    {
      end := end + 1;
    }
  }

  method FindRejoinEnd(d: Decoded, controls: seq<Control>, at: nat, carried: bool) returns (end: nat)
    requires at < |controls|
    ensures end == RejoinEnd(d, controls, at, carried)
  {
    hide TakesLine;
    var c := controls[at];
    if !TakesLine(c, at == 0, carried) || c.tokens == [] { return at + 1; }
    var line := DisplayLineOf(d.env.lines, c.tokens[|c.tokens| - 1]);
    if line.None? { return at + 1; }
    end := FindRunEnd(controls, at + 1, ContinuesLine(d.env.lines, line.value));
  }

  /** A row's segments begin and end in order. */
  lemma {:induction false} RowAscends(env: Env, controls: seq<Control>, i: nat, j: nat)
    requires Row(env, controls) && i <= j < |controls|
    ensures controls[i].complete.begin < controls[i].complete.end <= controls[j].complete.end <= |env.text|
    ensures i < j ==> controls[i].complete.end <= controls[j].complete.begin
    decreases j - i
  {
    hide Row, Proper;
    RowIsProper(env, controls, j);
    ProperEnds(env, controls[j]);
    RowIsProper(env, controls, i);
    ProperEnds(env, controls[i]);
    if i < j { RowAscends(env, controls, i, j - 1); }
  }

  lemma GrownIsProper(env: Env, c: Control, end: nat, index: nat, tokens: seq<nat>)
    requires Proper(env, c) && c.complete.end <= end <= |env.text| && c.kind != RevisionDefinition
    requires IsFound(env.view.spans, |env.view.words|, BytesToWords(env.view.words, Range(c.complete.begin, end)), tokens)
    ensures Proper(env, Grown(c, end, index, tokens))
  {
    hide IsFound, BytesToWords, OnlyLeadIn, StandsAt;
  }

  lemma RenumberedIsProper(env: Env, c: Control, index: nat)
    requires Proper(env, c)
    ensures Proper(env, c.(index := index))
  {
    hide IsFound, BytesToWords, OnlyLeadIn, StandsAt;
  }

  /** One turn of the loop: the segment of a group. */
  method RejoinOne(d: Decoded, controls: seq<Control>, at: nat, end: nat, index: nat) returns (r: Control)
    requires SoundDecoded(d) && Row(d.env, controls) && at < end <= |controls|
    requires end > at + 1 ==> controls[at].kind != RevisionDefinition
    ensures IsRejoined(d, controls, at, end, r) && Proper(d.env, r) && r.index == index
    ensures r.complete == Range(controls[at].complete.begin, controls[end - 1].complete.end)
  {
    hide SoundDecoded, Row, Proper, IsFound, BytesToWords, Sound, RunEnd, LineOf;
    ViewIsSound(d);
    RowIsProper(d.env, controls, at);
    RowAscends(d.env, controls, at, end - 1);
    var c := controls[at];
    if end == at + 1 {
      RenumberedIsProper(d.env, c, index);
      return c.(index := index);
    }
    var limit := controls[end - 1].complete.end;
    var tokens := TokensOfBytes(d.env, Range(c.complete.begin, limit));
    GrownIsProper(d.env, c, limit, index, tokens);
    r := Grown(c, limit, index, tokens);
  }

  lemma OnlyLinesGrow(d: Decoded, controls: seq<Control>, at: nat, carried: bool)
    requires at < |controls| && RejoinEnd(d, controls, at, carried) > at + 1
    ensures controls[at].kind != RevisionDefinition
  {
  }

  /** `rejoin_selected_line_display_text`. */
  method Rejoin(d: Decoded, controls: seq<Control>, carried: bool) returns (result: seq<Control>)
    requires SoundDecoded(d) && Row(d.env, controls)
    ensures Row(d.env, result) && Rejoined(d, controls, result, carried)
  {
    hide SoundDecoded, Row, Proper, IsRejoined, RejoinEnd, AreStarts, RejoinedBy;
    result := [];
    ghost var starts: seq<nat> := [0];
    var at := 0;
    EmptyRow(d.env);
    NothingRejoined(d, controls, carried);
    while at < |controls|
      invariant at <= |controls| && AreStarts(starts, at) && RejoinedBy(d, controls, carried, starts, result)
      invariant Row(d.env, result) && EndBefore(result, |result|) <= EndBefore(controls, at)
    {
      var end := FindRejoinEnd(d, controls, at, carried);
      if end > at + 1 { OnlyLinesGrow(d, controls, at, carried); }
      var r := RejoinOne(d, controls, at, end, |result|);
      RowIsProper(d.env, controls, at);
      RowAppends(d.env, result, r);
      RejoinedGrows(d, controls, carried, starts, result, at, end, r);
      result, starts, at := result + [r], starts + [end], end;
    }
  }

  lemma NothingRejoined(d: Decoded, controls: seq<Control>, carried: bool)
    ensures AreStarts([0], 0) && RejoinedBy(d, controls, carried, [0], [])
  {
  }

  lemma RejoinedGrows(d: Decoded, controls: seq<Control>, carried: bool, starts: seq<nat>, result: seq<Control>,
                      at: nat, end: nat, r: Control)
    requires AreStarts(starts, at) && RejoinedBy(d, controls, carried, starts, result) && at < |controls|
    requires end == RejoinEnd(d, controls, at, carried) && IsRejoined(d, controls, at, end, r)
    ensures AreStarts(starts + [end], end) && RejoinedBy(d, controls, carried, starts + [end], result + [r])
  {
    hide IsRejoined, RejoinEnd;
    StartsGrow(starts, at, end);
  }

  lemma EmptyRow(env: Env)
    ensures Row(env, [])
  {
  }

  // ----- menu items and their display lines

  /** Where a display line ends in the text. */
  function LineEnd(env: Env, line: nat): nat
    requires Sound(env.view) && line < |env.lines|
  {
    var next := env.lines[line].end;
    if next >= |env.view.spans| then |env.text| else ByteOfWord(env.view, env.view.spans[next].begin)
  }

  /** The line of a menu item whose opcode is not the spelling of the line's length byte. */
  function ItemLine(d: Decoded, c: Control): (line: Option<nat>)
    ensures line.Some? ==> line.value < |d.env.lines| && c.kind == MenuItem
  {
    if c.kind != MenuItem || c.tokens == [] then None
    else
      var line := LineOf(d.env.lines, c.tokens[0], 0);
      if line.Some? && c.tokens[0] != d.env.lines[line.value].prefix then line else None
  }

  /** The segment is text that opens on the line. */
  function IsOnLine(lines: seq<Line>, line: nat): Control -> bool {
    (next: Control) =>
      next.kind == PlainText && next.tokens != [] && LineOf(lines, next.tokens[0], 0) == Some(line)
  }

  function BoundEnd(d: Decoded, controls: seq<Control>, at: nat): (end: nat)
    requires at < |controls|
    ensures at < end <= |controls|
  {
    match ItemLine(d, controls[at])
    case None => at + 1
    case Some(line) => RunEnd(controls, at + 1, IsOnLine(d.env.lines, line))
  }

  /** Where the item ends: at its line's end, if that cuts its payload. */
  function ItemEnd(env: Env, c: Control, line: nat, end: nat): nat
    requires Sound(env.view) && line < |env.lines|
  {
    if c.payloadRange.begin < LineEnd(env, line) < end then LineEnd(env, line) else end
  }

  /** The segment with another end, index and tokens. */
  function Ending(c: Control, end: nat, index: nat, tokens: seq<nat>): Control {
    c.(index := index, complete := Range(c.complete.begin, end), payloadRange := Range(c.payloadRange.begin, end),
       tokens := tokens)
  }

  /** The segment `r` is the group [at, end). */
  ghost predicate IsBounded(d: Decoded, controls: seq<Control>, at: nat, end: nat, r: Control)
    requires SoundDecoded(d) && at < end <= |controls|
  {
    match ItemLine(d, controls[at])
    case None => r == controls[at].(index := r.index)
    case Some(line) =>
      && r == Ending(controls[at], ItemEnd(d.env, controls[at], line, controls[end - 1].complete.end), r.index, r.tokens)
      && IsFound(d.env.view.spans, |d.env.view.words|, BytesToWords(d.env.view.words, r.complete), r.tokens)
  }

  ghost predicate BoundedBy(d: Decoded, controls: seq<Control>, starts: seq<nat>, result: seq<Control>)
    requires SoundDecoded(d)
  {
    && |starts| == |result| + 1
    && forall i | 0 <= i < |result| ::
         && starts[i] < |controls| && starts[i + 1] == BoundEnd(d, controls, starts[i])
         && IsBounded(d, controls, starts[i], starts[i + 1], result[i])
  }

  ghost predicate ItemsBounded(d: Decoded, controls: seq<Control>, result: seq<Control>)
    requires SoundDecoded(d)
  {
    exists starts :: AreStarts(starts, |controls|) && BoundedBy(d, controls, starts, result)
  }

  lemma EndingIsProper(env: Env, c: Control, end: nat, index: nat, tokens: seq<nat>)
    requires Proper(env, c) && c.kind == MenuItem && (c.payloadRange.begin < end || c.complete.end <= end)
    requires end <= |env.text|
    requires IsFound(env.view.spans, |env.view.words|, BytesToWords(env.view.words, Range(c.complete.begin, end)), tokens)
    ensures Proper(env, Ending(c, end, index, tokens))
  {
    hide IsFound, BytesToWords, OnlyLeadIn, StandsAt;
  }

  /** One turn of the loop: the segment of a group. */
  method BoundOne(d: Decoded, controls: seq<Control>, at: nat, end: nat, index: nat) returns (r: Control)
    requires SoundDecoded(d) && Row(d.env, controls) && at < |controls| && end == BoundEnd(d, controls, at)
    ensures IsBounded(d, controls, at, end, r) && Proper(d.env, r) && r.index == index
    ensures r.complete.begin == controls[at].complete.begin && r.complete.end <= controls[end - 1].complete.end
  {
    hide SoundDecoded, Row, Proper, IsFound, BytesToWords, Sound, LineEnd, RunEnd, LineOf;
    ViewIsSound(d);
    RowIsProper(d.env, controls, at);
    RowAscends(d.env, controls, at, end - 1);
    var c := controls[at];
    var line := FindItemLine(d, c);
    if line.None? {
      RenumberedIsProper(d.env, c, index);
      return c.(index := index);
    }
    var lineEnd := FindLineEnd(d.env, line.value);
    var limit := controls[end - 1].complete.end;
    if c.payloadRange.begin < lineEnd < limit { limit := lineEnd; }
    var tokens := TokensOfBytes(d.env, Range(c.complete.begin, limit));
    EndingIsProper(d.env, c, limit, index, tokens);
    r := Ending(c, limit, index, tokens);
  }

  method FindItemLine(d: Decoded, c: Control) returns (line: Option<nat>)
    ensures line == ItemLine(d, c)
  {
    if c.kind != MenuItem || c.tokens == [] { return None; }
    line := DisplayLineOf(d.env.lines, c.tokens[0]);
    if line.Some? && c.tokens[0] == d.env.lines[line.value].prefix { return None; }
  }

  method FindLineEnd(env: Env, line: nat) returns (byte: nat)
    requires Sound(env.view) && line < |env.lines|
    ensures byte == LineEnd(env, line)
  {
    var token := env.lines[line].end;
    if token >= |env.view.spans| { return |env.text|; }
    var begin := env.view.spans[token].begin;
    byte := WordRangeToByteRange(env.view, Range(begin, begin)).begin;
  }

  method FindBoundEnd(d: Decoded, controls: seq<Control>, at: nat) returns (end: nat)
    requires at < |controls|
    ensures end == BoundEnd(d, controls, at)
  {
    var line := FindItemLine(d, controls[at]);
    if line.None? { return at + 1; }
    end := FindRunEnd(controls, at + 1, IsOnLine(d.env.lines, line.value));
  }

  /** `bound_menu_items_to_display_lines`. */
  method Bound(d: Decoded, controls: seq<Control>) returns (result: seq<Control>)
    requires SoundDecoded(d) && Row(d.env, controls)
    ensures Row(d.env, result) && ItemsBounded(d, controls, result)
  {
    hide SoundDecoded, Row, Proper, IsBounded, BoundEnd;
    result := [];
    ghost var starts: seq<nat> := [0];
    var at := 0;
    EmptyRow(d.env);
    while at < |controls|
      invariant at <= |controls| && AreStarts(starts, at) && BoundedBy(d, controls, starts, result)
      invariant Row(d.env, result) && EndBefore(result, |result|) <= EndBefore(controls, at)
    {
      var end := FindBoundEnd(d, controls, at);
      var r := BoundOne(d, controls, at, end, |result|);
      RowIsProper(d.env, controls, at);
      RowAppends(d.env, result, r);
      StartsGrow(starts, at, end);
      result, starts, at := result + [r], starts + [end], end;
    }
  }

  // ----- the whole pass

  /** The four passes one after the other, with a row after each. */
  ghost predicate DemotedBy(d: Decoded, controls: seq<Control>, plain: seq<Control>, free: seq<Control>,
                            joined: seq<Control>, result: seq<Control>, carried: bool)
    requires SoundDecoded(d)
  {
    && WithoutLengths(d, controls, plain, carried) && WithoutOwned(d, plain, free) && Row(d.env, free)
    && Rejoined(d, free, joined, carried) && Row(d.env, joined) && ItemsBounded(d, joined, result)
  }

  ghost predicate Demoted(d: Decoded, controls: seq<Control>, result: seq<Control>, carried: bool)
    requires SoundDecoded(d)
  {
    exists plain, free, joined :: DemotedBy(d, controls, plain, free, joined, result, carried)
  }

  /** `demote_display_line_owned_controls`, for a record that is made of display lines. */
  method Demote(d: Decoded, controls: seq<Control>, carried: bool) returns (result: seq<Control>)
    requires SoundDecoded(d) && Row(d.env, controls)
    ensures Row(d.env, result) && Demoted(d, controls, result, carried)
    ensures Verified(|d.env.view.spans|, |d.env.text|, result)
  {
    hide SoundDecoded, Row, Verified, WithoutLengths, WithoutOwned, Rejoined, ItemsBounded;
    var plain := DemoteLengths(d, controls, carried);
    var free := DemoteOwned(d, plain);
    var joined := Rejoin(d, free, carried);
    result := Bound(d, joined);
    ViewIsSound(d);
    RowIsVerified(d.env, result);
    assert DemotedBy(d, controls, plain, free, joined, result, carried);
  }
}
