// Building, repairing and verifying the control segments of a record (control_ir.cpp).
module ControlSegments {
  import opened Bytes
  import opened Tokens
  import opened Ascii
  import opened Assembly
  import opened SpanSearch
  import opened Splitter
  import opened SegmentCuts
  import opened ControlIR

  // ----- what the verifier checks

  ghost predicate VerifiedOne(tokenCount: nat, size: nat, c: Control, index: nat, previousEnd: nat) {
    && c.index == index
    && previousEnd <= c.complete.begin < c.complete.end <= size
    && c.complete.begin <= c.opcodeRange.begin && c.opcodeRange.end <= c.operandRange.begin
    && c.operandRange.end == c.payloadRange.begin && c.payloadRange.end == c.complete.end
    && (forall j, k | 0 <= j < k < |c.tokens| :: c.tokens[j] <= c.tokens[k])
    && (forall k | 0 <= k < |c.tokens| :: c.tokens[k] < tokenCount)
  }

  function EndBefore(controls: seq<Control>, i: nat): nat
    requires i <= |controls|
  {
    if i == 0 then 0 else controls[i - 1].complete.end
  }

  ghost predicate Verified(tokenCount: nat, size: nat, controls: seq<Control>) {
    forall i | 0 <= i < |controls| :: VerifiedOne(tokenCount, size, controls[i], i, EndBefore(controls, i))
  }

  method IsSorted(tokens: seq<nat>) returns (sorted: bool)
    ensures sorted <==> forall j, k | 0 <= j < k < |tokens| :: tokens[j] <= tokens[k]
  {
    var k := 1;
    while k < |tokens|
      invariant 1 <= k && forall i, j | 0 <= i < j < k && j < |tokens| :: tokens[i] <= tokens[j]
    {
      if tokens[k] < tokens[k - 1] { return false; }
      k := k + 1;
    }
    return true;
  }

  method AllBelow(tokens: seq<nat>, count: nat) returns (below: bool)
    ensures below <==> forall k | 0 <= k < |tokens| :: tokens[k] < count
  {
    for k := 0 to |tokens|
      invariant forall i | 0 <= i < k :: tokens[i] < count
    {
      if tokens[k] >= count { return false; }
    }
    return true;
  }

  method VerifySegment(tokenCount: nat, size: nat, c: Control, index: nat, previousEnd: nat) returns (ok: bool)
    ensures ok <==> VerifiedOne(tokenCount, size, c, index, previousEnd)
  {
    if c.index != index { return false; }
    if c.complete.begin >= c.complete.end || c.complete.end > size || c.complete.begin < previousEnd { return false; }
    if c.opcodeRange.begin < c.complete.begin || c.opcodeRange.end > c.operandRange.begin
       || c.operandRange.end != c.payloadRange.begin || c.payloadRange.end != c.complete.end { return false; }
    var sorted := IsSorted(c.tokens);
    var below := AllBelow(c.tokens, tokenCount);
    ok := sorted && below;
  }

  /** `verify_control_segments`. */
  method VerifyControlSegments(words: Words, tokenCount: nat, controls: seq<Control>) returns (ok: bool)
    ensures ok <==> Verified(tokenCount, |TextOf(words)|, controls)
  {
    hide VerifiedOne, TextOf;
    var previousEnd := 0;
    var text := TokenWordsToAscii(words);
    var size := |text|;
    for index := 0 to |controls|
      invariant previousEnd == EndBefore(controls, index)
      invariant forall i | 0 <= i < index :: VerifiedOne(tokenCount, size, controls[i], i, EndBefore(controls, i))
    {
      var good := VerifySegment(tokenCount, size, controls[index], index, previousEnd);
      if !good { return false; }
      previousEnd := controls[index].complete.end;
    }
    return true;
  }

  // ----- what the decoder keeps

  /** Proper segments, numbered in order and following each other. */
  ghost predicate Row(env: Env, controls: seq<Control>) {
    forall i | 0 <= i < |controls| ::
      Proper(env, controls[i]) && controls[i].index == i && EndBefore(controls, i) <= controls[i].complete.begin
  }

  ghost predicate Shown(controls: seq<Control>, at: nat) {
    exists i :: 0 <= i < |controls| && controls[i].complete.begin <= at < controls[i].complete.end
  }

  lemma RowIsVerified(env: Env, controls: seq<Control>)
    requires Sound(env.view) && Row(env, controls)
    ensures Verified(|env.view.spans|, |env.text|, controls)
  {
    forall i | 0 <= i < |controls|
      ensures VerifiedOne(|env.view.spans|, |env.text|, controls[i], i, EndBefore(controls, i))
    {
      var c := controls[i];
      FoundAscends(env.view.spans, |env.view.words|, BytesToWords(env.view.words, c.complete), c.tokens);
    }
  }

  /** A row keeps when one of its segments grows into a gap beside it. */
  lemma RowGrows(env: Env, controls: seq<Control>, i: nat, c: Control)
    requires Row(env, controls) && i < |controls| && Proper(env, c) && c.index == i
    requires EndBefore(controls, i) <= c.complete.begin
    requires i + 1 < |controls| ==> c.complete.end <= controls[i + 1].complete.begin
    ensures Row(env, controls[i := c])
  {
    hide Proper;
    var grown := controls[i := c];
    forall k | 0 <= k < |grown|
      ensures Proper(env, grown[k]) && grown[k].index == k && EndBefore(grown, k) <= grown[k].complete.begin
    {
      assert Proper(env, controls[k]) && EndBefore(controls, k) <= controls[k].complete.begin;
    }
  }

  // ----- commas that the splitter left out

  /** A separator token stands on the one byte at `gap`. */
  predicate SeparatorAt(view: View, gap: nat, t: nat)
    requires Sound(view) && t < |view.spans|
  {
    WordsToBytes(view.words, BodyRange(view, t)) == Range(gap, gap + 1) && IsSeparatorToken(BodyOf(view, t))
  }

  function FirstSeparator(view: View, gap: nat, t: nat): (first: Option<nat>)
    requires Sound(view) && t <= |view.spans|
    decreases |view.spans| - t
  {
    if t == |view.spans| then None
    else if SeparatorAt(view, gap, t) then Some(t)
    else FirstSeparator(view, gap, t + 1)
  }

  method FindSeparator(view: View, gap: nat) returns (first: Option<nat>)
    requires Sound(view)
    ensures first == FirstSeparator(view, gap, 0)
  {
    hide Sound, BodyRange, BodyOf, IsSeparatorToken, WordsToBytes;
    for t := 0 to |view.spans|
      invariant FirstSeparator(view, gap, 0) == FirstSeparator(view, gap, t)
    {
      var bytes := WordRangeToByteRange(view, BodyRange(view, t));
      if bytes.begin == gap && bytes.end == gap + 1 && IsSeparatorToken(BodyOf(view, t)) { return Some(t); }
    }
    return None;
  }

  predicate CommaAt(text: Bytes, at: nat) {
    at < |text| && text[at] == COMMA
  }

  /** Segment `i` is text whose split took a separator token's comma away from its front. */
  predicate Reclaims(env: Env, controls: seq<Control>, i: nat)
    requires Sound(env.view) && i < |controls|
  {
    && i > 0 && controls[i].kind == PlainText && controls[i].payloadRange.begin == controls[i].complete.begin
    && var gap := controls[i - 1].complete.end;
       controls[i].complete.begin == gap + 1 && CommaAt(env.text, gap) && FirstSeparator(env.view, gap, 0).Some?
  }

  /** The segment with the comma before it. */
  function WithComma(c: Control, gap: nat, tokens: seq<nat>): Control {
    c.(complete := Range(gap, c.complete.end), opcodeRange := Range(gap, gap), operandRange := Range(gap, gap),
       payloadRange := Range(gap, c.payloadRange.end), tokens := tokens)
  }

  /** Segment `i` after the pass: with its comma where it takes one back, else as before. */
  predicate ReclaimedAt(env: Env, controls: seq<Control>, result: seq<Control>, i: nat)
    requires Sound(env.view) && i < |controls| == |result|
  {
    result[i] == if Reclaims(env, controls, i) then WithComma(controls[i], EndBefore(controls, i), result[i].tokens)
                 else controls[i]
  }

  /** `reclaim_split_separators`. */
  method Reclaim(env: Env, controls: seq<Control>) returns (result: seq<Control>)
    requires Sound(env.view) && Row(env, controls)
    ensures Row(env, result) && |result| == |controls|
    ensures forall i | 0 <= i < |controls| :: ReclaimedAt(env, controls, result, i)
  {
    hide Sound, Row, Proper, FirstSeparator, IsFound, BytesToWords;
    result := controls;
    var index := 0;
    while index + 1 < |controls|
      invariant index <= |controls| && Row(env, result) && |result| == |controls|
      invariant forall i | 0 <= i <= index && i < |controls| :: ReclaimedAt(env, controls, result, i)
      invariant forall i | index < i < |controls| :: result[i] == controls[i]
    {
      index := index + 1;
      var segment := result[index];
      assert ReclaimedAt(env, controls, result, index - 1);
      if segment.kind != PlainText || segment.payloadRange.begin != segment.complete.begin { continue; }
      var gap := result[index - 1].complete.end;
      if segment.complete.begin != gap + 1 || !CommaAt(env.text, gap) { continue; }
      var separator := FindSeparator(env.view, gap);
      if separator.None? { continue; }
      var tokens := TokensOfBytes(env, Range(gap, segment.complete.end));
      var grown := WithComma(segment, gap, tokens);
      CommaBefore(env, result, index, tokens);
      ghost var before := result;
      result := result[index := grown];
      forall i | 0 <= i < index ensures ReclaimedAt(env, controls, result, i) {
        assert ReclaimedAt(env, controls, before, i);
      }
    }
  }

  lemma CommaBefore(env: Env, controls: seq<Control>, i: nat, tokens: seq<nat>)
    requires Sound(env.view) && Row(env, controls) && 0 < i < |controls| && controls[i].kind == PlainText
    requires controls[i].complete.begin == controls[i - 1].complete.end + 1
    requires IsFound(env.view.spans, |env.view.words|,
                     BytesToWords(env.view.words, Range(controls[i - 1].complete.end, controls[i].complete.end)), tokens)
    ensures Row(env, controls[i := WithComma(controls[i], controls[i - 1].complete.end, tokens)])
  {
    hide IsFound, BytesToWords, Sound;
    assert Proper(env, controls[i]);
    assert i + 1 < |controls| ==> EndBefore(controls, i + 1) <= controls[i + 1].complete.begin;
    RowGrows(env, controls, i, WithComma(controls[i], controls[i - 1].complete.end, tokens));
  }

  // ----- commas that a display line draws

  /** Token `t` stands inside a display line, past its length byte. */
  predicate InsideLine(lines: seq<Line>, t: nat) {
    exists i | 0 <= i < |lines| :: lines[i].prefix < t < lines[i].end
  }

  /** The comma between segments `i - 1` and `i` is drawn inside a display line. */
  predicate KeepsComma(env: Env, controls: seq<Control>, i: nat)
    requires Sound(env.view) && i < |controls|
  {
    && i > 0
    && var gap := controls[i - 1].complete.end;
       && controls[i - 1].payloadRange.end == gap < controls[i].complete.begin && CommaAt(env.text, gap)
       && FirstSeparator(env.view, gap, 0).Some? && InsideLine(env.lines, FirstSeparator(env.view, gap, 0).value)
  }

  function WithCommaAfter(c: Control, tokens: seq<nat>): Control {
    c.(complete := Range(c.complete.begin, c.complete.end + 1),
       payloadRange := Range(c.payloadRange.begin, c.complete.end + 1), tokens := tokens)
  }

  predicate KeptAt(env: Env, controls: seq<Control>, result: seq<Control>, i: nat)
    requires Sound(env.view) && i < |controls| == |result|
  {
    result[i] == if i + 1 < |controls| && KeepsComma(env, controls, i + 1)
                 then WithCommaAfter(controls[i], result[i].tokens) else controls[i]
  }

  /** `keep_framed_line_separators`. */
  method KeepFramed(env: Env, controls: seq<Control>) returns (result: seq<Control>)
    requires Sound(env.view) && Row(env, controls)
    ensures Row(env, result) && |result| == |controls|
    ensures forall i | 0 <= i < |controls| :: KeptAt(env, controls, result, i)
  {
    hide Sound, Row, Proper, FirstSeparator, IsFound, BytesToWords;
    result := controls;
    if env.lines == [] { return; }
    var index := 0;
    while index + 1 < |controls|
      invariant index <= |controls| && Row(env, result) && |result| == |controls|
      invariant forall i | 0 <= i < |controls| ::
          result[i] == if i + 1 <= index && i + 1 < |controls| && KeepsComma(env, controls, i + 1)
                       then WithCommaAfter(controls[i], result[i].tokens) else controls[i]
    {
      index := index + 1;
      var previous := result[index - 1];
      assert previous == controls[index - 1] && result[index] == controls[index];
      var gap := previous.complete.end;
      if previous.payloadRange.end != gap || result[index].complete.begin <= gap || !CommaAt(env.text, gap) { continue; }
      var separator := FindSeparator(env.view, gap);
      if separator.None? || !InsideLine(env.lines, separator.value) { continue; }
      var tokens := TokensOfBytes(env, Range(previous.complete.begin, gap + 1));
      CommaAfter(env, result, index - 1, tokens);
      result := result[index - 1 := WithCommaAfter(previous, tokens)];
    }
  }

  lemma CommaAfter(env: Env, controls: seq<Control>, i: nat, tokens: seq<nat>)
    requires Sound(env.view) && Row(env, controls) && i + 1 < |controls|
    requires controls[i].complete.end < controls[i + 1].complete.begin
    requires IsFound(env.view.spans, |env.view.words|,
                     BytesToWords(env.view.words, Range(controls[i].complete.begin, controls[i].complete.end + 1)), tokens)
    ensures Row(env, controls[i := WithCommaAfter(controls[i], tokens)])
  {
    hide Proper, IsFound, BytesToWords, Sound;
    assert Proper(env, controls[i]) && controls[i].index == i && EndBefore(controls, i) <= controls[i].complete.begin;
    assert Proper(env, controls[i + 1]);
    ProperEnds(env, controls[i + 1]);
    LongerIsProper(env, controls[i], tokens);
    RowGrows(env, controls, i, WithCommaAfter(controls[i], tokens));
  }

  lemma ProperEnds(env: Env, c: Control)
    requires Proper(env, c)
    ensures c.complete.begin < c.complete.end <= |env.text|
  {
  }

  lemma LongerIsProper(env: Env, c: Control, tokens: seq<nat>)
    requires Proper(env, c) && c.complete.end < |env.text|
    requires IsFound(env.view.spans, |env.view.words|,
                     BytesToWords(env.view.words, Range(c.complete.begin, c.complete.end + 1)), tokens)
    ensures Proper(env, WithCommaAfter(c, tokens))
  {
    hide IsFound, BytesToWords, OnlyLeadIn, StandsAt;
  }

  // ----- topic starts

  /** `topic_identifier_word`. */
  predicate IsTopicIdentifier(opcode: Bytes) {
    |opcode| > 2 && Lower(opcode[0]) == 's' as int && Lower(opcode[1]) == 'h' as int
    && forall k | 0 <= k < |opcode| :: IsTopicIdChar(opcode[k])
  }

  /** Between lead-in and blanks, [begin, end) is the one word of the stretch up to `limit`, and a topic identifier. */
  ghost predicate LoneTopicWord(text: Bytes, begin: nat, end: nat, limit: nat)
    requires limit <= |text|
  {
    && begin < end <= limit && OnlyLeadIn(text, 0, begin) && IsTopicIdentifier(text[begin..end])
    && forall at | end <= at < limit :: IsSpace(text[at])
  }

  /** The record's first segment names a topic, and the second one numbers it. */
  ghost predicate Corroborated(env: Env, controls: seq<Control>) {
    && |controls| >= 2 && controls[0].kind == PlainText && controls[1].kind == TopicNumber
    && controls[0].complete.begin == 0 && controls[0].complete.end <= |env.text|
    && exists begin: nat, end: nat :: LoneTopicWord(env.text, begin, end, controls[0].complete.end)
  }

  /** The lone topic word of the text up to `limit`, if there is one. */
  method FindTopicWord(text: Bytes, limit: nat) returns (word: Option<Range>)
    requires limit <= |text|
    ensures word.Some? ==> LoneTopicWord(text, word.value.begin, word.value.end, limit)
    ensures word.None? ==> forall b: nat, e: nat :: !LoneTopicWord(text, b, e, limit)
  {
    hide IsTopicIdentifier, WordsHold, LoneTopicWord, OnlyLeadIn, IsLeadIn;
    var begin := SkipLeadIn(text, 0, limit);
    var words := WordsIn(text, begin, limit, []);
    if |words| == 1 {
      var only := words[0];
      OnlyWord(text, words, begin, limit);
      if IsTopicIdentifier(text[only.begin..only.end]) {
        IsLone(text, only.begin, only.end, limit);
        return Some(Range(only.begin, only.end));
      }
    }
    NoneIsLone(text, words, begin, limit);
    return None;
  }

  /** The segment as a topic start that is named by the word. */
  function TopicAt(text: Bytes, c: Control, word: Range): Control
    requires word.begin <= word.end <= |text|
  {
    c.(kind := TopicStart, opcode := text[word.begin..word.end], opcodeRange := word,
       operandRange := Range(word.end, word.end), payloadRange := Range(word.end, c.complete.end))
  }

  /** The segments after promotion: exactly a lone topic identifier before a topic number starts a topic. */
  ghost predicate Promoted(env: Env, controls: seq<Control>, result: seq<Control>) {
    if Corroborated(env, controls) then
      && |result| == |controls|
      && var word := result[0].opcodeRange;
         && LoneTopicWord(env.text, word.begin, word.end, controls[0].complete.end)
         && result == controls[0 := TopicAt(env.text, controls[0], word)]
    else result == controls
  }

  /** `promote_corroborated_topic_start`. */
  method PromoteTopic(env: Env, controls: seq<Control>) returns (result: seq<Control>)
    requires Row(env, controls)
    ensures Row(env, result) && Promoted(env, controls, result)
  {
    hide Row, Proper, LoneTopicWord, OnlyLeadIn, StandsAt;
    result := controls;
    if |controls| < 2 || controls[0].kind != PlainText || controls[1].kind != TopicNumber
       || controls[0].complete.begin != 0 { return; }
    FirstIsSound(env, controls);
    var segment := controls[0];
    var found := FindTopicWord(env.text, segment.complete.end);
    if found.None? { return; }
    var word := found.value;
    LoneWordIs(env.text, word.begin, word.end, segment.complete.end);
    var promoted := TopicAt(env.text, segment, word);
    PromotedIsProper(env, segment, promoted);
    RowGrows(env, controls, 0, promoted);
    result := controls[0 := promoted];
  }

  lemma LoneWordIs(text: Bytes, begin: nat, end: nat, limit: nat)
    requires limit <= |text| && LoneTopicWord(text, begin, end, limit)
    ensures begin < end <= limit && OnlyLeadIn(text, 0, begin)
  {
  }

  lemma IsLone(text: Bytes, begin: nat, end: nat, limit: nat)
    requires begin < end <= limit <= |text| && OnlyLeadIn(text, 0, begin) && IsTopicIdentifier(text[begin..end])
    requires forall at | end <= at < limit :: IsSpace(text[at])
    ensures LoneTopicWord(text, begin, end, limit)
  {
  }

  /** A lone topic word is all that the search for words finds. */
  lemma LoneIsFound(text: Bytes, words: seq<WordSpan>, begin: nat, b: nat, e: nat, limit: nat)
    requires begin <= limit <= |text| && WordsHold(text, [], words, begin, limit) && OnlyLeadIn(text, 0, begin)
    requires begin < limit ==> !IsLeadIn(text[begin])
    requires LoneTopicWord(text, b, e, limit)
    ensures |words| == 1 && words[0].begin == b && words[0].end == e
  {
    TopicBytes(text, b, e);
    assert begin == b;
    assert forall at | e <= at < limit :: IsSpace(text[at]);
    assert InWord(words, b);
    FirstWordStarts(text, [], words, begin, limit);
    hide WordsHold, LoneTopicWord, OnlyLeadIn, IsTopicIdentifier;
    if |words| > 1 { WordsArePartedByBlank(text, words, begin, limit); }
    WordHasNoBlank(text, words, begin, limit, e);
    assert InWord(words, e - 1);
  }

  lemma WordsArePartedByBlank(text: Bytes, words: seq<WordSpan>, begin: nat, end: nat)
    requires begin <= end <= |text| && WordsHold(text, [], words, begin, end) && |words| > 1
    ensures words[0].end < words[1].begin && IsSpace(text[words[0].end]) && !IsSpace(text[words[1].begin])
    ensures words[1].begin < end
  {
    var first, next := words[0], words[1];
    assert !GeometryAt([], first.begin) && !GeometryAt([], next.begin);
    assert first.end <= next.begin;
    assert !InWord(words, first.end);
  }

  lemma WordHasNoBlank(text: Bytes, words: seq<WordSpan>, begin: nat, end: nat, at: nat)
    requires begin <= end <= |text| && WordsHold(text, [], words, begin, end) && words != []
    ensures words[0].begin <= at < words[0].end ==> at < end && !IsSpace(text[at])
  {
  }

  lemma TopicBytes(text: Bytes, b: nat, e: nat)
    requires b < e <= |text| && IsTopicIdentifier(text[b..e])
    ensures forall at | b <= at < e :: !IsSpace(text[at]) && !IsLeadIn(text[at])
  {
    forall at | b <= at < e ensures !IsSpace(text[at]) && !IsLeadIn(text[at]) {
      assert IsTopicIdChar(text[b..e][at - b]);
    }
  }

  lemma NoneIsLone(text: Bytes, words: seq<WordSpan>, begin: nat, limit: nat)
    requires begin <= limit <= |text| && WordsHold(text, [], words, begin, limit) && OnlyLeadIn(text, 0, begin)
    requires begin < limit ==> !IsLeadIn(text[begin])
    requires |words| == 1 ==>
               words[0].begin <= words[0].end <= |text| && !IsTopicIdentifier(text[words[0].begin..words[0].end])
    ensures forall b: nat, e: nat :: !LoneTopicWord(text, b, e, limit)
  {
    hide WordsHold, OnlyLeadIn, IsTopicIdentifier;
    forall b: nat, e: nat ensures !LoneTopicWord(text, b, e, limit) {
      if LoneTopicWord(text, b, e, limit) { LoneIsFound(text, words, begin, b, e, limit); }
    }
  }

  lemma OnlyWord(text: Bytes, words: seq<WordSpan>, begin: nat, end: nat)
    requires begin <= end <= |text| && |words| == 1 && WordsHold(text, [], words, begin, end)
    requires begin < end ==> !IsLeadIn(text[begin])
    ensures begin == words[0].begin < words[0].end <= end
    ensures forall at | words[0].end <= at < end :: IsSpace(text[at])
  {
    FirstWordStarts(text, [], words, begin, end);
    assert forall at: nat | InWord(words, at) :: words[0].begin <= at < words[0].end;
  }

  lemma PromotedIsProper(env: Env, c: Control, promoted: Control)
    requires Proper(env, c) && promoted.kind == TopicStart
    requires promoted.complete == c.complete && promoted.tokens == c.tokens
    requires var word := promoted.opcodeRange;
             && c.complete.begin <= word.begin < word.end <= c.complete.end
             && OnlyLeadIn(env.text, c.complete.begin, word.begin)
             && promoted.opcode == env.text[word.begin..word.end]
             && promoted.operandRange == Range(word.end, word.end)
             && promoted.payloadRange == Range(word.end, c.complete.end)
    ensures Proper(env, promoted)
  {
    hide TokensHold, StandsAt;
    OpcodeStands(env.text, promoted.opcodeRange.begin, promoted.opcodeRange.end);
    assert TokensHold(env, promoted) by { SameTokens(env, c, promoted); }
  }

  lemma SameTokens(env: Env, c: Control, d: Control)
    requires TokensHold(env, c) && d.complete == c.complete && d.tokens == c.tokens
    ensures TokensHold(env, d)
  {
  }

  lemma FirstIsSound(env: Env, controls: seq<Control>)
    requires Row(env, controls) && controls != []
    ensures Proper(env, controls[0]) && controls[0].index == 0 && controls[0].complete.end <= |env.text|
    ensures |controls| > 1 ==> controls[0].complete.end <= controls[1].complete.begin
  {
    assert Proper(env, controls[0]);
    assert |controls| > 1 ==> EndBefore(controls, 1) <= controls[1].complete.begin;
  }

  // ----- the whole pass

  /** Every segment is read as one control, all with the same map of the box drawing. */
  ghost predicate ReadFrom(env: Env, segments: seq<Segment>, controls: seq<Control>)
    requires SoundEnv(env)
  {
    && |controls| == |segments|
    && exists geometry :: ShowsGeometry(env.view.words, geometry) && AllRead(env, geometry, segments, controls)
  }

  ghost predicate AllRead(env: Env, geometry: seq<bool>, segments: seq<Segment>, controls: seq<Control>)
    requires SoundEnv(env) && |controls| <= |segments|
  {
    forall i | 0 <= i < |controls| ::
      controls[i].complete == Range(segments[i].begin, segments[i].end) && IsReading(env, geometry, controls[i])
  }

  /** The segments as controls, one by one. */
  method ReadSegments(env: Env, segments: seq<Segment>) returns (controls: seq<Control>)
    requires SoundEnv(env) && InRow(segments, 0, |env.text|)
    ensures Row(env, controls) && ReadFrom(env, segments, controls)
  {
    var geometry := DisplayGeometryBytes(env.view.words, |env.text|);
    InRowBounds(segments, 0, |env.text|);
    hide SoundEnv, Proper, IsReading, ShowsGeometry, Row, InRow, AllRead;
    controls := [];
    NothingRead(env, geometry, segments);
    for i := 0 to |segments|
      invariant |controls| == i && Row(env, controls) && AllRead(env, geometry, segments, controls)
      invariant forall k | 0 <= k < i :: controls[k].complete == Range(segments[k].begin, segments[k].end)
    {
      var source := segments[i];
      var control := ReadControl(env, geometry, |controls|, source.begin, source.end);
      ghost var before := controls;
      controls := controls + [control];
      InRowAt(env, segments, before, i);
      RowAppends(env, before, control);
      ReadAppends(env, geometry, segments, before, control);
    }
  }

  lemma NothingRead(env: Env, geometry: seq<bool>, segments: seq<Segment>)
    requires SoundEnv(env)
    ensures Row(env, []) && AllRead(env, geometry, segments, [])
  {
  }

  /** The next segment starts after the controls that were read. */
  lemma InRowAt(env: Env, segments: seq<Segment>, controls: seq<Control>, i: nat)
    requires InRow(segments, 0, |env.text|) && |controls| == i < |segments|
    requires forall k | 0 <= k < i :: controls[k].complete == Range(segments[k].begin, segments[k].end)
    ensures EndBefore(controls, i) <= segments[i].begin
  {
    InRowBounds(segments, 0, |env.text|);
  }

  lemma ReadAppends(env: Env, geometry: seq<bool>, segments: seq<Segment>, controls: seq<Control>, c: Control)
    requires SoundEnv(env) && |controls| < |segments| && AllRead(env, geometry, segments, controls)
    requires c.complete == Range(segments[|controls|].begin, segments[|controls|].end) && IsReading(env, geometry, c)
    ensures AllRead(env, geometry, segments, controls + [c])
    ensures forall k | 0 <= k <= |controls| ::
              (controls + [c])[k].complete == Range(segments[k].begin, segments[k].end)
  {
    hide IsReading, SoundEnv;
  }

  lemma RowAppends(env: Env, controls: seq<Control>, c: Control)
    requires Row(env, controls) && Proper(env, c) && c.index == |controls|
    requires EndBefore(controls, |controls|) <= c.complete.begin
    ensures Row(env, controls + [c])
  {
    hide Proper;
    var grown := controls + [c];
    forall i | 0 <= i < |grown|
      ensures Proper(env, grown[i]) && grown[i].index == i && EndBefore(grown, i) <= grown[i].complete.begin
    {
      if i < |controls| {
        assert Proper(env, controls[i]) && EndBefore(controls, i) <= controls[i].complete.begin;
        assert EndBefore(grown, i) == EndBefore(controls, i);
      }
    }
  }

  /** Controls only grow over the segments they were read from. */
  ghost predicate Covers(controls: seq<Control>, segments: seq<Segment>) {
    |controls| == |segments|
    && forall i | 0 <= i < |segments| ::
         controls[i].complete.begin <= segments[i].begin && segments[i].end <= controls[i].complete.end
  }

  lemma CoversKeepsText(text: Bytes, controls: seq<Control>, segments: seq<Segment>)
    requires Covers(controls, segments) && LosesOnlySeparators(text, segments, 0, |text|)
    ensures forall at: nat | at < |text| && !Shown(controls, at) :: IsSeparator(text[at])
  {
    forall at: nat | Inside(segments, at) ensures Shown(controls, at) {
      var i :| 0 <= i < |segments| && segments[i].begin <= at < segments[i].end;
      assert controls[i].complete.begin <= at < controls[i].complete.end;
    }
  }

  ghost predicate BoundedIn(segments: seq<Segment>, size: nat) {
    forall s | s in segments :: s.begin <= s.end <= size
  }

  /** A row of segments that loses only separators still does so once it is cut again. */
  lemma CuttingKeeps(text: Bytes, segments: seq<Segment>, cuts: seq<CutPlace>, counts: (CutPlace, nat) -> bool)
    requires InRow(segments, 0, |text|) && LosesOnlySeparators(text, segments, 0, |text|)
    ensures BoundedIn(segments, |text|)
    ensures var result := CutAll(text, segments, cuts, counts);
            InRow(result, 0, |text|) && LosesOnlySeparators(text, result, 0, |text|)
  {
    hide CutAll;
    InRowBounds(segments, 0, |text|);
    CuttingKeepsText(text, segments, 0, cuts, counts);
  }

  /** The splitter's segments, cut where tokens glue a control to the text before it. */
  ghost function Unglued(env: Env, widths: seq<nat>): (segments: seq<Segment>)
    requires Sound(env.view)
    ensures InRow(segments, 0, |env.text|) && LosesOnlySeparators(env.text, segments, 0, |env.text|)
  {
    var split, cuts := Split(env.text, 0, 0), GluedCuts(env.view, widths, |env.view.spans|);
    SplitKeepsText(env.text, 0, 0);
    CuttingKeeps(env.text, split, cuts, DisplayFollows(env.view, |env.text|));
    CutAll(env.text, split, cuts, DisplayFollows(env.view, |env.text|))
  }

  /** The same, cut once more where a display line opens with a script control. */
  ghost function CutUp(env: Env, widths: seq<nat>): (segments: seq<Segment>)
    requires Sound(env.view)
    ensures InRow(segments, 0, |env.text|) && LosesOnlySeparators(env.text, segments, 0, |env.text|)
  {
    var unglued, cuts := Unglued(env, widths), LineCuts(env.view, env.lines);
    CuttingKeeps(env.text, unglued, cuts, Always());
    CutAll(env.text, unglued, cuts, Always())
  }

  /** The segments before the controls are read. */
  method CutRecord(env: Env, widths: seq<nat>) returns (segments: seq<Segment>)
    requires Sound(env.view)
    ensures segments == CutUp(env, widths)
  {
    hide Split, GluedCuts, LineCuts, DisplayFollows, Always, Sound, CutAll;
    var split := SplitRecord(env.text);
    SplitKeepsText(env.text, 0, 0);
    InRowBounds(split, 0, |env.text|);
    var unglued := SplitGlued(env.view, widths, env.text, split);
    assert unglued == Unglued(env, widths);
    InRowBounds(unglued, 0, |env.text|);
    segments := SplitScriptLines(env.view, env.lines, env.text, unglued);
  }

  /** The passes from the cut segments to the controls: each segment is read, separators are reclaimed and kept, and
      the topic start is promoted. */
  ghost predicate Built(env: Env, segments: seq<Segment>, plain: seq<Control>, reclaimed: seq<Control>,
                        kept: seq<Control>, controls: seq<Control>)
    requires SoundEnv(env)
  {
    && ReadFrom(env, segments, plain)
    && |reclaimed| == |plain| && (forall i | 0 <= i < |plain| :: ReclaimedAt(env, plain, reclaimed, i))
    && |kept| == |reclaimed| && (forall i | 0 <= i < |reclaimed| :: KeptAt(env, reclaimed, kept, i))
    && Promoted(env, kept, controls)
  }

  ghost predicate BuiltFrom(env: Env, segments: seq<Segment>, controls: seq<Control>)
    requires SoundEnv(env)
  {
    exists plain, reclaimed, kept :: Built(env, segments, plain, reclaimed, kept, controls)
  }

  /** `decode_control_segments`: the segments satisfy everything that the verifier checks; they are the segments of the
      cut record, one by one, read and repaired; their ranges, opcodes and tokens are right; and nothing but separators
      is left outside them. */
  method DecodeControlSegments(env: Env, widths: seq<nat>) returns (controls: seq<Control>)
    requires SoundEnv(env)
    ensures Verified(|env.view.spans|, |env.text|, controls)
    ensures Row(env, controls) && BuiltFrom(env, CutUp(env, widths), controls) && Covers(controls, CutUp(env, widths))
    ensures forall at: nat | at < |env.text| && !Shown(controls, at) :: IsSeparator(env.text[at])
  {
    assert Sound(env.view);
    var segments := CutRecord(env, widths);
    hide SoundEnv, Sound, Proper, Row, InRow, CutUp, Covers, ReclaimedAt, KeptAt, TextOf, Verified, Promoted, ReadFrom;
    var plain := ReadSegments(env, segments);
    ReadKeepsExtent(env, segments, plain);
    var reclaimed := Reclaim(env, plain);
    ReclaimingCovers(env, plain, reclaimed, segments);
    var kept := KeepFramed(env, reclaimed);
    KeepingCovers(env, reclaimed, kept, segments);
    controls := PromoteTopic(env, kept);
    assert Built(env, segments, plain, reclaimed, kept, controls);
    PromotionCovers(env, kept, controls, segments);
    CoversKeepsText(env.text, controls, segments);
    RowIsVerified(env, controls);
  }

  lemma ReadKeepsExtent(env: Env, segments: seq<Segment>, controls: seq<Control>)
    requires SoundEnv(env) && ReadFrom(env, segments, controls)
    ensures |controls| == |segments|
    ensures forall i | 0 <= i < |controls| :: controls[i].complete == Range(segments[i].begin, segments[i].end)
  {
  }

  lemma KeepingCovers(env: Env, controls: seq<Control>, result: seq<Control>, segments: seq<Segment>)
    requires Sound(env.view) && |controls| == |result| && Covers(controls, segments)
    requires forall i | 0 <= i < |controls| :: KeptAt(env, controls, result, i)
    ensures Covers(result, segments)
  {
    hide Sound, FirstSeparator;
    forall i | 0 <= i < |segments|
      ensures result[i].complete.begin <= segments[i].begin && segments[i].end <= result[i].complete.end
    {
      assert KeptAt(env, controls, result, i);
    }
  }

  lemma PromotionCovers(env: Env, controls: seq<Control>, result: seq<Control>, segments: seq<Segment>)
    requires Covers(controls, segments) && Promoted(env, controls, result)
    ensures Covers(result, segments)
  {
  }

  lemma ReclaimingCovers(env: Env, plain: seq<Control>, result: seq<Control>, segments: seq<Segment>)
    requires Sound(env.view) && |plain| == |result| == |segments|
    requires forall i | 0 <= i < |segments| :: plain[i].complete == Range(segments[i].begin, segments[i].end)
    requires forall i | 0 <= i < |plain| :: ReclaimedAt(env, plain, result, i)
    ensures Covers(result, segments)
  {
    hide Sound, FirstSeparator;
    forall i | 0 <= i < |segments|
      ensures result[i].complete.begin <= segments[i].begin && segments[i].end <= result[i].complete.end
    {
      assert ReclaimedAt(env, plain, result, i);
    }
  }

  /** Where no token hides another, a segment's tokens are exactly those that meet its words. */
  lemma TokensAreExact(env: Env, c: Control)
    requires Sound(env.view) && env.text == TextOf(env.view.words) && Proper(env, c)
    requires InOrder(env.view.spans) && NoneHidden(env.view.spans, |env.view.words|)
    ensures c.tokens == Meeting(env.view.spans, BytesToWords(env.view.words, c.complete))
  {
    var words := BytesToWords(env.view.words, c.complete);
    BytesTouchWords(env.view.words, c.complete, 0);
    FoundIsWalk(env.view.spans, |env.view.words|, words, c.tokens);
  }
}
