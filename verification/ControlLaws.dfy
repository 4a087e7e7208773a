// What the control decoder goes by, in the words and bytes themselves (control_ir.cpp).
module ControlLaws {
  import opened Bytes
  import opened Tokens
  import opened Ascii
  import opened SpanSearch
  import opened Splitter
  import opened SplitterLaws
  import opened SegmentCuts
  import opened ControlIR
  import opened ControlSegments

  // ----- small vocabularies

  /** Box drawing, words that show something, and the bytes before a segment's first word. */
  lemma WordsAndBytesAre(word: Word, b: Byte)
    ensures IsGeometry(word) <==> 0x2500 <= word <= 0x257F
    ensures IsDisplay(word) <==> 0x21 <= word <= 0x24FF && word != 0x7F
    ensures IsLeadIn(b) <==> Blank(b) || b == ',' as int || b == '?' as int
  {
  }

  /** How many words after the opcode are operands, where no grammar of its own reads them. */
  lemma OperandsAreCounted(kind: Kind)
    ensures FixedOperands(kind)
            == if kind in {Summary, Select} then 3
               else if kind == RevisionDefinition then 2
               else if kind in {TopicNumber, ParentTopic, ForwardLevel, BackLevel, HeadingLevel, SourceFile, MenuItem,
                                MessageStart, ArtDescriptionStart} then 1
               else 0
    ensures HasGrammar(kind) <==> kind in {Font, RevisionDefinition, Spacing, LayoutDirective}
  {
  }

  /** Without a grammar the operands end with the last one of that count, or with the last word there is, which makes
      the control malformed. */
  lemma CountedOperandsEnd(env: Env, kind: Kind, opcode: Range, words: seq<WordSpan>)
    requires SoundEnv(env) && words != []
    ensures var count := if kind in {Summary, Select} then 3 else if kind == RevisionDefinition then 2
                         else if kind in {TopicNumber, ParentTopic, ForwardLevel, BackLevel, HeadingLevel, SourceFile,
                                          MenuItem, MessageStart, ArtDescriptionStart} then 1 else 0;
            var there := if |words| - 1 < count then |words| - 1 else count;
            OperandsOf(env, kind, opcode, words, false)
            == (there < count, if there == 0 then opcode.end else words[there].end)
  {
    hide SoundEnv;
    OperandsAreCounted(kind);
    hide FixedOperands;
  }

  // ----- the words of a token

  /** Words b to e of the text are those of the token without the blanks around them. */
  ghost predicate IsBody(view: View, t: nat, b: nat, e: nat) {
    && t < |view.spans| && view.spans[t].begin <= b <= e <= view.spans[t].end
    && (view.spans[t].begin < view.spans[t].end ==> view.spans[t].end <= |view.words|)
    && (forall k | view.spans[t].begin <= k < b || e <= k < view.spans[t].end :: view.words[k] == 0x20)
    && (if b < e then view.words[b] != 0x20 && view.words[e - 1] != 0x20 else b == view.spans[t].end)
  }

  lemma BodyIs(view: View, t: nat)
    requires Sound(view) && t < |view.spans|
    ensures var r := BodyRange(view, t);
            IsBody(view, t, r.begin, r.end) && BodyOf(view, t) == if r.begin < r.end then view.words[r.begin..r.end] else []
  {
  }

  lemma BodyIsOne(view: View, t: nat, b: nat, e: nat)
    requires Sound(view) && IsBody(view, t, b, e)
    ensures BodyRange(view, t) == Range(b, e)
  {
    BodyIs(view, t);
    hide Sound, BodyRange;
  }

  /** The token is a comma, perhaps after attaching words. */
  ghost predicate IsComma(view: View, t: nat, b: nat, e: nat) {
    IsBody(view, t, b, e) && b < e && view.words[e - 1] == ',' as int && forall k | b <= k < e - 1 :: view.words[k] == 1
  }

  ghost predicate SpellsComma(view: View, t: nat) {
    exists b: nat, e: nat :: IsComma(view, t, b, e)
  }

  lemma {:induction false} AttachingIs(words: Words, at: nat)
    requires at <= |words|
    ensures var k := SkipAttach(words, at);
            (forall i | at <= i < k :: words[i] == 1) && (k < |words| ==> words[k] != 1)
    decreases |words| - at
  {
    if at < |words| && words[at] == 1 { AttachingIs(words, at + 1); }
  }

  lemma CommaExactly(view: View, t: nat)
    requires Sound(view) && t < |view.spans|
    ensures var r := BodyRange(view, t); IsSeparatorToken(BodyOf(view, t)) <==> IsComma(view, t, r.begin, r.end)
  {
    BodyIs(view, t);
    hide Sound, BodyRange;
    var r, body := BodyRange(view, t), BodyOf(view, t);
    AttachingIs(body, 0);
    if r.begin < r.end { assert forall k | 0 <= k < |body| :: body[k] == view.words[r.begin + k]; }
    if IsComma(view, t, r.begin, r.end) {
      forall k | 0 <= k < |body| - 1 ensures body[k] == 1 { assert view.words[r.begin + k] == 1; }
    }
    if IsSeparatorToken(body) {
      forall k | r.begin <= k < r.end - 1 ensures view.words[k] == 1 { assert body[k - r.begin] == 1; }
    }
  }

  // ----- commas between segments

  /** Byte `gap` of the text is what such a token shows. */
  ghost predicate ShowsComma(view: View, gap: nat, t: nat) {
    exists b: nat, e: nat :: IsComma(view, t, b, e) && e <= |view.words|
        && Offset(view.words, b) == gap && Offset(view.words, e) == gap + 1
  }

  lemma ShowsCommaExactly(view: View, gap: nat, t: nat)
    requires Sound(view) && t < |view.spans|
    ensures SeparatorAt(view, gap, t) <==> ShowsComma(view, gap, t)
  {
    CommaExactly(view, t);
    BodyIs(view, t);
    var r := BodyRange(view, t);
    if ShowsComma(view, gap, t) {
      var b: nat, e: nat :| IsComma(view, t, b, e) && e <= |view.words|
        && Offset(view.words, b) == gap && Offset(view.words, e) == gap + 1;
      BodyIsOne(view, t, b, e);
    }
    hide Sound, BodyOf, IsSeparatorToken, Offset, BodyRange;
  }

  /** The first such token. */
  ghost predicate FirstShows(view: View, gap: nat, t: nat) {
    t < |view.spans| && ShowsComma(view, gap, t) && forall s | 0 <= s < t :: !ShowsComma(view, gap, s)
  }

  lemma {:induction false} FirstSeparatorFrom(view: View, gap: nat, k: nat)
    requires Sound(view) && k <= |view.spans|
    ensures match FirstSeparator(view, gap, k)
            case None => forall s | k <= s < |view.spans| :: !ShowsComma(view, gap, s)
            case Some(t) =>
              k <= t < |view.spans| && ShowsComma(view, gap, t) && forall s | k <= s < t :: !ShowsComma(view, gap, s)
    decreases |view.spans| - k
  {
    hide Sound, ShowsComma, SeparatorAt;
    if k < |view.spans| {
      ShowsCommaExactly(view, gap, k);
      FirstSeparatorFrom(view, gap, k + 1);
    }
  }

  /** Segment `i` takes a comma back exactly where it is text from its first byte on, one comma parts it from the segment
      before it, and a token shows that comma. */
  lemma ReclaimsExactly(env: Env, controls: seq<Control>, i: nat)
    requires Sound(env.view) && i < |controls|
    ensures Reclaims(env, controls, i)
            <==> && i > 0 && controls[i].kind == PlainText && controls[i].payloadRange.begin == controls[i].complete.begin
                 && var gap := controls[i - 1].complete.end;
                    && controls[i].complete.begin == gap + 1 && gap < |env.text| && env.text[gap] == ',' as int
                    && exists t :: 0 <= t < |env.view.spans| && ShowsComma(env.view, gap, t)
  {
    hide Sound, ShowsComma, FirstSeparator;
    if i > 0 { FirstSeparatorFrom(env.view, controls[i - 1].complete.end, 0); }
  }

  /** The segment then starts a byte earlier, and nothing else of it changes but its tokens. */
  lemma ReclaimedExactly(env: Env, controls: seq<Control>, result: seq<Control>, i: nat)
    requires Sound(env.view) && |result| == |controls| && i < |controls| && ReclaimedAt(env, controls, result, i)
    ensures var c, r := controls[i], result[i];
            && (!Reclaims(env, controls, i) ==> r == c)
            && (Reclaims(env, controls, i) ==>
                  var at := controls[i - 1].complete.end;
                  && r.complete == Range(at, c.complete.end) && r.payloadRange == Range(at, c.payloadRange.end)
                  && r.opcodeRange == Range(at, at) && r.operandRange == Range(at, at)
                  && r.kind == c.kind && r.opcode == c.opcode && r.index == c.index && r.malformed == c.malformed
                  && r.displayText == c.displayText)
  {
    hide Sound, FirstSeparator;
  }

  /** The comma before segment `i` stays with the segment before it exactly where that one's payload runs up to the comma
      and the first token that shows the comma stands in a display line, past its length byte. */
  lemma KeepsCommaExactly(env: Env, controls: seq<Control>, i: nat)
    requires Sound(env.view) && i < |controls|
    ensures KeepsComma(env, controls, i)
            <==> && i > 0
                 && var gap := controls[i - 1].complete.end;
                    && controls[i - 1].payloadRange.end == gap < controls[i].complete.begin
                    && gap < |env.text| && env.text[gap] == ',' as int
                    && exists t: nat :: FirstShows(env.view, gap, t)
                         && exists k :: 0 <= k < |env.lines| && env.lines[k].prefix < t < env.lines[k].end
  {
    hide Sound, ShowsComma, FirstSeparator;
    if i > 0 {
      var gap := controls[i - 1].complete.end;
      FirstSeparatorFrom(env.view, gap, 0);
      if FirstSeparator(env.view, gap, 0).Some? {
        var first := FirstSeparator(env.view, gap, 0).value;
        assert FirstShows(env.view, gap, first);
        forall t: nat | FirstShows(env.view, gap, t) ensures t == first {}
      }
    }
  }

  /** The segment then ends a byte later, and nothing else of it changes but its tokens. */
  lemma KeptExactly(env: Env, controls: seq<Control>, result: seq<Control>, i: nat)
    requires Sound(env.view) && |result| == |controls| && i < |controls| && KeptAt(env, controls, result, i)
    ensures var c, r := controls[i], result[i];
            var kept := i + 1 < |controls| && KeepsComma(env, controls, i + 1);
            && (!kept ==> r == c)
            && (kept ==>
                  && r.complete == Range(c.complete.begin, c.complete.end + 1)
                  && r.payloadRange == Range(c.payloadRange.begin, c.complete.end + 1)
                  && r.opcodeRange == c.opcodeRange && r.operandRange == c.operandRange
                  && r.kind == c.kind && r.opcode == c.opcode && r.index == c.index && r.malformed == c.malformed
                  && r.displayText == c.displayText)
  {
    hide Sound, FirstSeparator;
  }

  // ----- topic starts

  /** After blanks, commas and question marks stands one word, "sh" in any case and identifier bytes, and only blanks
      follow it. */
  lemma TopicWordExactly(text: Bytes, b: nat, e: nat, limit: nat)
    requires limit <= |text|
    ensures LoneTopicWord(text, b, e, limit)
            <==> && b < e <= limit && e - b > 2
                 && (forall at | 0 <= at < b :: Blank(text[at]) || text[at] == ',' as int || text[at] == '?' as int)
                 && (forall at | e <= at < limit :: Blank(text[at]))
                 && (text[b] == 's' as int || text[b] == 'S' as int)
                 && (text[b + 1] == 'h' as int || text[b + 1] == 'H' as int)
                 && forall at | b <= at < e :: IdentifierByte(text[at])
  {
    if b < e <= limit {
      var word := text[b..e];
      assert forall k | 0 <= k < |word| :: word[k] == text[b + k];
      if forall at | b <= at < e :: IdentifierByte(text[at]) {
        forall k | 0 <= k < |word| ensures IsTopicIdChar(word[k]) { assert IdentifierByte(text[b + k]); }
      }
      if IsTopicIdentifier(word) {
        forall at | b <= at < e ensures IdentifierByte(text[at]) { assert IsTopicIdChar(word[at - b]); }
      }
    }
  }

  /** Exactly the record's first segment becomes a topic start that the word names, where it is text from the record's
      first byte on, holds such a word and stands before a topic number. */
  lemma PromotedExactly(env: Env, controls: seq<Control>, result: seq<Control>)
    requires Promoted(env, controls, result)
    ensures |result| == |controls| && forall i | 1 <= i < |controls| :: result[i] == controls[i]
    ensures controls != [] ==>
              var c, r := controls[0], result[0];
              if |controls| >= 2 && c.kind == PlainText && controls[1].kind == TopicNumber && c.complete.begin == 0
                 && c.complete.end <= |env.text| && (exists b: nat, e: nat :: LoneTopicWord(env.text, b, e, c.complete.end))
              then
                var b, e := r.opcodeRange.begin, r.opcodeRange.end;
                && LoneTopicWord(env.text, b, e, c.complete.end) && r.kind == TopicStart && r.opcode == env.text[b..e]
                && r.operandRange == Range(e, e) && r.payloadRange == Range(e, c.complete.end)
                && r.complete == c.complete && r.tokens == c.tokens && r.index == c.index && r.malformed == c.malformed
                && r.displayText == c.displayText
              else r == c
  {
    hide OnlyLeadIn, IsTopicIdentifier;
  }

  // ----- display lines and opcodes

  /** The byte at which a word starts. */
  ghost function Start(view: View, word: nat): nat {
    Offset(view.words, if word <= |view.words| then word else |view.words|)
  }

  predicate HoldsToken(line: Line, token: nat) {
    line.prefix <= token < line.end
  }

  /** The first line from `k` on that holds the token. */
  ghost predicate FirstHolds(lines: seq<Line>, k: nat, i: nat, token: nat) {
    k <= i < |lines| && HoldsToken(lines[i], token) && forall j | k <= j < i :: !HoldsToken(lines[j], token)
  }

  /** A token's display line is the first line that holds it; it ends where the token after the line starts, and where
      there is none, with the text. */
  lemma {:induction false} LineEndsExactly(env: Env, token: nat, k: nat)
    requires Sound(env.view) && k <= |env.lines|
    ensures (forall i | k <= i < |env.lines| :: !HoldsToken(env.lines[i], token))
            ==> LineEndByte(env, token, k) == |env.text|
    ensures forall i: nat | FirstHolds(env.lines, k, i, token) ::
              LineEndByte(env, token, k)
              == if env.lines[i].end >= |env.view.spans| then |env.text|
                 else Start(env.view, env.view.spans[env.lines[i].end].begin)
    decreases |env.lines| - k
  {
    hide Sound, Offset, HoldsToken;
    if k < |env.lines| {
      LineEndsExactly(env, token, k + 1);
      LineEndStep(env, token, k);
      forall i: nat | FirstHolds(env.lines, k, i, token)
        ensures if HoldsToken(env.lines[k], token) then i == k else FirstHolds(env.lines, k + 1, i, token)
      {
      }
    }
  }

  lemma LineEndStep(env: Env, token: nat, k: nat)
    requires Sound(env.view) && k < |env.lines|
    ensures LineEndByte(env, token, k)
            == if !HoldsToken(env.lines[k], token) then LineEndByte(env, token, k + 1)
               else if env.lines[k].end >= |env.view.spans| then |env.text|
               else Start(env.view, env.view.spans[env.lines[k].end].begin)
  {
    hide Sound, Offset;
  }

  /** The token ends the word as a comma and starts past the word's first byte. */
  ghost predicate CommaEnds(view: View, word: WordSpan, t: nat, at: nat) {
    exists b: nat, e: nat :: IsComma(view, t, b, e) && e <= |view.words| && Offset(view.words, e) == word.end
                   && Offset(view.words, b) == at && at > word.begin
  }

  lemma CommaEndsExactly(view: View, word: WordSpan, t: nat, at: nat)
    requires Sound(view) && t < |view.spans|
    ensures CommaEnds(view, word, t, at)
            <==> EndsWithSeparator(view, word, t) && at == WordsToBytes(view.words, BodyRange(view, t)).begin
  {
    CommaExactly(view, t);
    BodyIs(view, t);
    if CommaEnds(view, word, t, at) {
      var b: nat, e: nat :| IsComma(view, t, b, e) && e <= |view.words| && Offset(view.words, e) == word.end
                  && Offset(view.words, b) == at && at > word.begin;
      BodyIsOne(view, t, b, e);
    }
    hide Sound, BodyOf, IsSeparatorToken, Offset, BodyRange;
  }

  /** An opcode ends where the first token starts that ends its word as a comma, and else with its word. */
  lemma OpcodeEndsExactly(env: Env, word: WordSpan)
    requires Sound(env.view) && word.begin < word.end <= |env.text|
    ensures env.text[word.end - 1] != ',' as int ==> OpcodeEndOf(env, word) == word.end
    ensures env.text[word.end - 1] == ',' as int ==>
              && ((forall t, at | 0 <= t < |env.view.spans| :: !CommaEnds(env.view, word, t, at))
                  ==> OpcodeEndOf(env, word) == word.end)
              && forall t, at | 0 <= t < |env.view.spans| && CommaEnds(env.view, word, t, at)
                                && (forall s, other | 0 <= s < t :: !CommaEnds(env.view, word, s, other)) ::
                   OpcodeEndOf(env, word) == at
  {
    hide Sound, CommaEnds;
    SeparatorStartsFrom(env, word, 0);
  }

  lemma {:induction false} SeparatorStartsFrom(env: Env, word: WordSpan, k: nat)
    requires Sound(env.view) && k <= |env.view.spans|
    ensures (forall t, at | k <= t < |env.view.spans| :: !CommaEnds(env.view, word, t, at))
            ==> SeparatorStart(env, word, k) == word.end
    ensures forall t, at | k <= t < |env.view.spans| && CommaEnds(env.view, word, t, at)
                           && (forall s, other | k <= s < t :: !CommaEnds(env.view, word, s, other)) ::
              SeparatorStart(env, word, k) == at
    decreases |env.view.spans| - k
  {
    hide Sound, CommaEnds, EndsWithSeparator, WordsToBytes, BodyRange;
    if k < |env.view.spans| {
      SeparatorStartsFrom(env, word, k + 1);
      var at := WordsToBytes(env.view.words, BodyRange(env.view, k)).begin;
      CommaEndsExactly(env.view, word, k, at);
      forall other ensures CommaEnds(env.view, word, k, other) ==> EndsWithSeparator(env.view, word, k) && other == at {
        CommaEndsExactly(env.view, word, k, other);
      }
    }
  }

  // ----- where segments are cut again

  predicate IsSmall(word: Word) {
    'a' as int <= word <= 'z' as int
  }

  /** "c." and small letters. */
  lemma ScriptControlExactly(words: Words)
    ensures IsScriptControl(words)
            <==> |words| >= 4 && words[0] == 'c' as int && words[1] == '.' as int
                 && forall k | 2 <= k < |words| :: IsSmall(words[k])
  {
  }

  predicate SpelledOut(words: Words, name: string) {
    |words| == |name| && forall k | 0 <= k < |name| :: words[k] == name[k] as int
  }

  /** "c." or "C." and letters, or one of the five names of the artwork envelope. */
  lemma LineOpenersExactly(words: Words)
    ensures IsScriptOpcode(words)
            <==> |words| >= 3 && (words[0] == 'c' as int || words[0] == 'C' as int) && words[1] == '.' as int
                 && forall k | 2 <= k < |words| :: IsSmall(words[k]) || 'A' as int <= words[k] <= 'Z' as int
    ensures IsArtEnvelope(words)
            <==> SpelledOut(words, "csart") || SpelledOut(words, "ceart") || SpelledOut(words, "cartdesc")
                 || SpelledOut(words, "csartdesc") || SpelledOut(words, "ceartdesc")
  {
  }

  /** A glued control: a token of two bytes, "c." and small letters; the cut goes before the comma token in front of it. */
  ghost predicate CutsGlued(view: View, widths: seq<nat>, t: nat, cut: CutPlace)
    requires Sound(view) && t < |view.spans|
  {
    && IsScriptControl(BodyOf(view, t)) && (t < |widths| ==> widths[t] == 2)
    && var comma := t > 0 && SpellsComma(view, t - 1);
       cut == CutPlace(Start(view, view.spans[if comma then t - 1 else t].begin), Start(view, view.spans[t].end))
  }

  lemma GluedCutExactly(view: View, widths: seq<nat>, t: nat, cut: CutPlace)
    requires Sound(view) && t < |view.spans|
    ensures GluedCut(view, widths, t) == [cut] <==> CutsGlued(view, widths, t, cut)
    ensures |GluedCut(view, widths, t)| <= 1
  {
    hide Sound, Offset, BodyOf, IsScriptControl, IsSeparatorToken, BodyRange, SpellsComma;
    if t > 0 { IsCommaToken(view, t - 1); }
  }

  lemma IsCommaToken(view: View, t: nat)
    requires Sound(view) && t < |view.spans|
    ensures IsSeparatorToken(BodyOf(view, t)) <==> SpellsComma(view, t)
  {
    CommaExactly(view, t);
    hide Sound, BodyOf, IsSeparatorToken, BodyRange, IsBody;
    if b: nat, e: nat :| IsComma(view, t, b, e) { BodyIsOne(view, t, b, e); }
  }

  /** The glued cuts, token by token. */
  lemma {:induction false} GluedCutsExactly(view: View, widths: seq<nat>, n: nat, cut: CutPlace)
    requires Sound(view) && n <= |view.spans|
    ensures cut in GluedCuts(view, widths, n) <==> exists t :: 0 <= t < n && CutsGlued(view, widths, t, cut)
  {
    hide Sound, CutsGlued, GluedCut;
    if n > 0 {
      GluedCutsExactly(view, widths, n - 1, cut);
      GluedCutExactly(view, widths, n - 1, cut);
      var last := GluedCut(view, widths, n - 1);
      if last != [] && last[0] == cut { assert last == [cut]; }
    }
  }

  /** A line opener: the first token after a line's length byte, in its line, spells a script control or artwork. */
  ghost predicate CutsLine(view: View, line: Line, cut: CutPlace)
    requires Sound(view)
  {
    var t := line.prefix + 1;
    && t < line.end && t < |view.spans| && (IsScriptOpcode(BodyOf(view, t)) || IsArtEnvelope(BodyOf(view, t)))
    && StartsBody(view, t, cut.begin) && cut.opcodeEnd == 0
  }

  lemma LineCutExactly(view: View, line: Line, cut: CutPlace)
    requires Sound(view)
    ensures LineCut(view, line) == [cut] <==> CutsLine(view, line, cut)
    ensures |LineCut(view, line)| <= 1
  {
    hide Sound, Offset, BodyOf, IsScriptOpcode, IsArtEnvelope, StartsBody, BodyRange, WordsToBytes;
    var t := line.prefix + 1;
    if t < |view.spans| { BodyStarts(view, t, cut.begin); }
    if t < |view.spans| && LineCut(view, line) != [] { BodyStarts(view, t, LineCut(view, line)[0].begin); }
  }

  /** The token's words without blanks start at this byte. */
  ghost predicate StartsBody(view: View, t: nat, at: nat) {
    exists b: nat, e: nat :: IsBody(view, t, b, e) && at == Start(view, b)
  }

  lemma BodyStarts(view: View, t: nat, at: nat)
    requires Sound(view) && t < |view.spans|
    ensures StartsBody(view, t, at) <==> at == WordsToBytes(view.words, BodyRange(view, t)).begin
  {
    BodyIs(view, t);
    hide Sound, Offset, BodyRange, IsBody;
    var r := BodyRange(view, t);
    if StartsBody(view, t, at) {
      var b: nat, e: nat :| IsBody(view, t, b, e) && at == Start(view, b);
      BodyIsOne(view, t, b, e);
    }
    assert WordsToBytes(view.words, r).begin == Start(view, r.begin);
  }

  /** The line cuts, line by line. */
  lemma {:induction false} LineCutsExactly(view: View, lines: seq<Line>, cut: CutPlace)
    requires Sound(view)
    ensures cut in LineCuts(view, lines) <==> exists i :: 0 <= i < |lines| && CutsLine(view, lines[i], cut)
  {
    hide Sound, CutsLine, LineCut;
    if lines != [] {
      var n := |lines| - 1;
      LineCutsExactly(view, lines[..n], cut);
      LineCutExactly(view, lines[n], cut);
      var last := LineCut(view, lines[n]);
      if last != [] && last[0] == cut { assert last == [cut]; }
    }
  }

  /** A glued control gets its own segment where between its end and the segment's a word shows something. */
  lemma DisplayFollowsExactly(view: View, cut: CutPlace, end: nat)
    requires Sound(view) && cut.opcodeEnd < end <= |TextOf(view.words)|
    ensures DisplayFollows(view, |TextOf(view.words)|)(cut, end)
            <==> exists w :: 0 <= w < |view.words| && Touches(view.words, w, Range(cut.opcodeEnd, end))
                             && 0x21 <= view.words[w] <= 0x24FF && view.words[w] != 0x7F
  {
    var bytes, size := Range(cut.opcodeEnd, end), |TextOf(view.words)|;
    WidthsAddUp(view.words);
    hide Sound, BytesToWords, Touches, TextOf;
    forall w | 0 <= w < |view.words|
      ensures BytesToWords(view.words, bytes).begin <= w < BytesToWords(view.words, bytes).end
              <==> Touches(view.words, w, bytes)
    {
      BytesTouchWords(view.words, bytes, w);
    }
    if view.words != [] { BytesTouchWords(view.words, bytes, 0); }
  }

  /** Every word takes at least a byte. */
  lemma {:induction false} WidthsAddUp(words: Words)
    ensures |words| <= |TextOf(words)|
  {
    if words != [] { WidthsAddUp(words[..|words| - 1]); }
  }

  /** A summary is read by the grammar of its own where its opcode's first token is the first one of a display line. */
  lemma SummaryByLineExactly(env: Env, tokens: seq<nat>)
    ensures SummaryByLine(env, tokens)
            <==> tokens != []
                 && exists i :: 0 <= i < |env.lines| && tokens[0] == env.lines[i].prefix + 1 && tokens[0] < env.lines[i].end
  {
  }

  /** An opcode's word is cut off where the display line of its first token ends. */
  lemma ClippedExactly(env: Env, word: WordSpan, tokens: seq<nat>)
    requires Sound(env.view)
    ensures ClippedEnd(env, word, tokens)
            == if tokens != [] && word.begin < LineEndByte(env, tokens[0], 0) && LineEndByte(env, tokens[0], 0) < word.end
               then LineEndByte(env, tokens[0], 0) else word.end
  {
    hide Sound, LineEndByte;
  }

  /** Words become the bytes from the start of the first to the end of the last one, inside the text. */
  lemma WordsToBytesExactly(view: View, words: Range)
    ensures WordsToBytes(view.words, words) == Range(Start(view, words.begin), Start(view, words.end))
  {
    hide Offset;
  }
}
