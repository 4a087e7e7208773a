// The passes that cut the splitter's segments again where tokens or display lines open a control (control_ir.cpp).
module SegmentCuts {
  import opened Bytes
  import opened Tokens
  import opened Ascii
  import opened Assembly
  import opened SpanSearch
  import opened Splitter

  /** An assembled record as these passes read it. */
  datatype View = View(words: Words, spans: seq<Span>, offsets: seq<nat>)

  /** What assembling promises of a record. */
  ghost predicate Sound(view: View) {
    && Measures(view.words, view.offsets)
    && Numbered(view.spans)
    && forall t | 0 <= t < |view.spans| ::
         view.spans[t].begin <= view.spans[t].end
         && (view.spans[t].begin < view.spans[t].end ==> view.spans[t].end <= |view.words|)
  }

  lemma AssembledIsSound(tokens: seq<Words>, record: View, sources: seq<Source>)
    requires SpansHold(tokens, sources, record.spans) && |sources| == |record.words|
    requires |record.offsets| == |record.words| + 1
    requires forall k | 0 <= k <= |record.words| :: record.offsets[k] == |TextOf(record.words[..k])|
    ensures Sound(record)
  {
  }

  // ----- a token's own words

  function SkipBlanks(words: Words, begin: nat, end: nat): (b: nat)
    requires begin <= end && (begin < end ==> end <= |words|)
    ensures begin <= b <= end && (b < end ==> words[b] != BLANK)
    ensures forall k | begin <= k < b :: words[k] == BLANK
    decreases end - begin
  {
    if begin < end && words[begin] == BLANK then SkipBlanks(words, begin + 1, end) else begin
  }

  function SkipBlanksBack(words: Words, begin: nat, end: nat): (e: nat)
    requires begin <= end && (begin < end ==> end <= |words|)
    ensures begin <= e <= end && (begin < e ==> words[e - 1] != BLANK)
    ensures forall k | e <= k < end :: words[k] == BLANK
    decreases end
  {
    if end > begin && words[end - 1] == BLANK then SkipBlanksBack(words, begin, end - 1) else end
  }

  /** `token_body_word_range`: the token's words without the blanks around them. */
  function BodyRange(view: View, t: nat): (r: Range)
    requires Sound(view) && t < |view.spans|
    ensures r.begin <= r.end && (r.begin < r.end ==> r.end <= |view.words|)
  {
    var span := view.spans[t];
    var begin := SkipBlanks(view.words, span.begin, span.end);
    Range(begin, SkipBlanksBack(view.words, begin, span.end))
  }

  /** `token_body_words`. */
  function BodyOf(view: View, t: nat): Words
    requires Sound(view) && t < |view.spans|
  {
    var r := BodyRange(view, t);
    if r.begin < r.end then view.words[r.begin..r.end] else []
  }

  function SkipAttach(words: Words, at: nat): (k: nat)
    requires at <= |words|
    ensures at <= k <= |words|
    decreases |words| - at
  {
    if at < |words| && words[at] == 1 then SkipAttach(words, at + 1) else at
  }

  /** `control_separator_words`: attach words, then one comma. */
  predicate IsSeparatorToken(words: Words) {
    var at := SkipAttach(words, 0);
    at + 1 == |words| && words[at] == ',' as int
  }

  predicate IsSmallLetter(word: Word) {
    'a' as int <= word <= 'z' as int
  }

  /** `script_control_words`. */
  predicate IsScriptControl(words: Words) {
    |words| >= 4 && words[0] == 'c' as int && words[1] == '.' as int
    && forall k | 2 <= k < |words| :: IsSmallLetter(words[k])
  }

  /** `script_opcode_words`. */
  predicate IsScriptOpcode(words: Words) {
    |words| >= 3 && (words[0] == 'c' as int || words[0] == 'C' as int) && words[1] == '.' as int
    && forall k | 2 <= k < |words| :: IsSmallLetter(words[k]) || 'A' as int <= words[k] <= 'Z' as int
  }

  predicate Spells(words: Words, name: string) {
    |words| == |name| && forall k | 0 <= k < |name| :: words[k] == name[k] as int
  }

  /** `art_envelope_opcode_words`. */
  predicate IsArtEnvelope(words: Words) {
    Spells(words, "csartdesc") || Spells(words, "ceartdesc") || Spells(words, "cartdesc") || Spells(words, "csart")
    || Spells(words, "ceart")
  }

  // ----- cutting

  /** A place to cut at, and where the control that starts there ends. */
  datatype CutPlace = CutPlace(begin: nat, opcodeEnd: nat)

  /** A word that shows something: neither blank, control nor box drawing. */
  predicate IsDisplay(word: Word) {
    0x21 <= word < 0x2500 && word != 0x7F
  }

  /** `display_between`. */
  predicate DisplayBetween(view: View, textSize: nat, begin: nat, end: nat) {
    var r := BytesToWords(view.words, Range(begin, end));
    exists w | r.begin <= w < r.end && w < textSize && w < |view.words| :: IsDisplay(view.words[w])
  }

  /** Where a segment is cut: at the places inside it that count, in the order in which they were found. */
  function CutSegment(text: Bytes, begin: nat, segment: Segment, cuts: seq<CutPlace>, counts: (CutPlace, nat) -> bool): seq<Segment>
    requires begin <= segment.end <= |text|
    decreases |cuts|
  {
    if cuts == [] then
      if begin == segment.begin then [segment] else [Segment(begin, segment.end, text[begin..segment.end])]
    else if begin < cuts[0].begin < segment.end && counts(cuts[0], segment.end) then
      [Segment(begin, cuts[0].begin, text[begin..cuts[0].begin])]
      + CutSegment(text, cuts[0].begin, segment, cuts[1..], counts)
    else CutSegment(text, begin, segment, cuts[1..], counts)
  }

  function CutAll(text: Bytes, segments: seq<Segment>, cuts: seq<CutPlace>, counts: (CutPlace, nat) -> bool): seq<Segment>
    requires forall s | s in segments :: s.begin <= s.end <= |text|
  {
    if segments == [] then []
    else CutSegment(text, segments[0].begin, segments[0], cuts, counts) + CutAll(text, segments[1..], cuts, counts)
  }

  /** The loop both passes share. */
  method CutSegments(text: Bytes, segments: seq<Segment>, cuts: seq<CutPlace>, counts: (CutPlace, nat) -> bool)
    returns (result: seq<Segment>)
    requires forall s | s in segments :: s.begin <= s.end <= |text|
    ensures result == CutAll(text, segments, cuts, counts)
  {
    result := [];
    for i := 0 to |segments|
      invariant result + CutAll(text, segments[i..], cuts, counts) == CutAll(text, segments, cuts, counts)
    {
      var segment := segments[i];
      var begin := segment.begin;
      ghost var done := result;
      ghost var whole := CutSegment(text, begin, segment, cuts, counts);
      for k := 0 to |cuts|
        invariant segment.begin <= begin <= segment.end
        invariant result + CutSegment(text, begin, segment, cuts[k..], counts) == done + whole
      {
        var cut := cuts[k];
        assert cuts[k..][1..] == cuts[k + 1..];
        if cut.begin <= begin || cut.begin >= segment.end || !counts(cut, segment.end) { continue; }
        Associate(result, [Segment(begin, cut.begin, text[begin..cut.begin])],
                  CutSegment(text, cut.begin, segment, cuts[k + 1..], counts));
        result := result + [Segment(begin, cut.begin, text[begin..cut.begin])];
        begin := cut.begin;
      }
      if begin == segment.begin {
        result := result + [segment];
      } else {
        result := result + [Segment(begin, segment.end, text[begin..segment.end])];
      }
      assert segments[i..][1..] == segments[i + 1..];
      Associate(done, whole, CutAll(text, segments[i + 1..], cuts, counts));
    }
  }

  /** Cutting keeps the row of segments, and keeps exactly the bytes that they cover. */
  lemma {:induction false} CutSegmentKeeps(text: Bytes, begin: nat, segment: Segment, cuts: seq<CutPlace>,
                                           counts: (CutPlace, nat) -> bool)
    requires segment.begin <= begin < segment.end <= |text|
    ensures var pieces := CutSegment(text, begin, segment, cuts, counts);
            InRow(pieces, begin, segment.end) && forall at: nat | begin <= at < segment.end :: Inside(pieces, at)
    decreases |cuts|
  {
    var pieces := CutSegment(text, begin, segment, cuts, counts);
    if cuts == [] {
      assert pieces[0].begin == begin && pieces[0].end == segment.end;
    } else if begin < cuts[0].begin < segment.end && counts(cuts[0], segment.end) {
      var rest := CutSegment(text, cuts[0].begin, segment, cuts[1..], counts);
      CutSegmentKeeps(text, cuts[0].begin, segment, cuts[1..], counts);
      assert pieces[1..] == rest;
      forall at: nat | begin <= at < segment.end ensures Inside(pieces, at) {
        InsideConcat([pieces[0]], rest, at);
        if at < cuts[0].begin { assert [pieces[0]][0].begin <= at < [pieces[0]][0].end; }
      }
    } else {
      CutSegmentKeeps(text, begin, segment, cuts[1..], counts);
    }
  }

  lemma {:induction false} CuttingKeepsText(text: Bytes, segments: seq<Segment>, begin: nat, cuts: seq<CutPlace>,
                                            counts: (CutPlace, nat) -> bool)
    requires InRow(segments, begin, |text|)
    requires forall s | s in segments :: s.begin <= s.end <= |text|
    ensures var result := CutAll(text, segments, cuts, counts);
            InRow(result, begin, |text|) && forall at: nat :: Inside(result, at) <==> Inside(segments, at)
  {
    if segments != [] {
      var first, rest := segments[0], segments[1..];
      var pieces, others := CutSegment(text, first.begin, first, cuts, counts), CutAll(text, rest, cuts, counts);
      CutSegmentKeeps(text, first.begin, first, cuts, counts);
      CuttingKeepsText(text, rest, first.end, cuts, counts);
      InRowFrom(pieces, first.begin, begin, first.end);
      InRowConcat(pieces, others, begin, first.end, |text|);
      InRowBounds(pieces, first.begin, first.end);
      assert segments == [first] + rest;
      forall at: nat ensures Inside(pieces + others, at) <==> Inside(segments, at) {
        InsideConcat(pieces, others, at);
        InsideConcat([first], rest, at);
        assert Inside([first], at) <==> first.begin <= at < first.end by {
          assert [first][0] == first;
        }
      }
    }
  }

  /** Place `k` lies in the segment past `begin` and counts. */
  predicate Counts(cuts: seq<CutPlace>, k: nat, begin: nat, end: nat, counts: (CutPlace, nat) -> bool)
    requires k < |cuts|
  {
    begin < cuts[k].begin < end && counts(cuts[k], end)
  }

  /** Place `k` counts, and no earlier place that counts lies beyond it. */
  ghost predicate IsMade(cuts: seq<CutPlace>, k: nat, begin: nat, end: nat, counts: (CutPlace, nat) -> bool)
    requires k < |cuts|
  {
    Counts(cuts, k, begin, end, counts)
    && forall j | 0 <= j < k && Counts(cuts, j, begin, end, counts) :: cuts[j].begin <= cuts[k].begin
  }

  ghost predicate StartsAt(pieces: seq<Segment>, at: nat) {
    exists i :: 0 <= i < |pieces| && pieces[i].begin == at
  }

  ghost predicate SomeIsMade(cuts: seq<CutPlace>, at: nat, begin: nat, end: nat, counts: (CutPlace, nat) -> bool) {
    exists k :: 0 <= k < |cuts| && cuts[k].begin == at && IsMade(cuts, k, begin, end, counts)
  }

  /** Past its start, a segment is cut at exactly the places that count and that no earlier place which counts has
      passed by, whatever the order of the places. */
  lemma {:induction false} CutsAreMadeExactly(text: Bytes, begin: nat, segment: Segment, cuts: seq<CutPlace>,
                                              counts: (CutPlace, nat) -> bool, at: nat)
    requires segment.begin <= begin < segment.end <= |text| && begin < at
    ensures StartsAt(CutSegment(text, begin, segment, cuts, counts), at)
            <==> SomeIsMade(cuts, at, begin, segment.end, counts)
    decreases |cuts|
  {
    hide StartsAt, SomeIsMade;
    var pieces := CutSegment(text, begin, segment, cuts, counts);
    if cuts == [] {
      OnePieceStarts(pieces[0], at);
      NoneIsMade(at, begin, segment.end, counts);
    } else {
      var first, rest := cuts[0], cuts[1..];
      if Counts(cuts, 0, begin, segment.end, counts) {
        var tail := CutSegment(text, first.begin, segment, rest, counts);
        StartsAfter(pieces[0], tail, at);
        FirstPiece(text, first.begin, segment, rest, counts);
        TailStarts(text, first.begin, segment, rest, counts, at);
        if first.begin < at { CutsAreMadeExactly(text, first.begin, segment, rest, counts, at); }
        MadeAfterCut(cuts, at, begin, segment.end, counts);
      } else {
        CutsAreMadeExactly(text, begin, segment, rest, counts, at);
        MadeAfterSkip(cuts, at, begin, segment.end, counts);
      }
    }
  }

  lemma NoneIsMade(at: nat, begin: nat, end: nat, counts: (CutPlace, nat) -> bool)
    ensures !SomeIsMade([], at, begin, end, counts)
  {
  }

  lemma OnePieceStarts(piece: Segment, at: nat)
    ensures StartsAt([piece], at) <==> piece.begin == at
  {
    assert [piece][0] == piece;
  }

  lemma StartsAfter(piece: Segment, tail: seq<Segment>, at: nat)
    ensures StartsAt([piece] + tail, at) <==> piece.begin == at || StartsAt(tail, at)
  {
    var all := [piece] + tail;
    assert all[0] == piece && forall i | 0 <= i < |tail| :: all[i + 1] == tail[i];
    if StartsAt(all, at) && piece.begin != at {
      var i :| 0 <= i < |all| && all[i].begin == at;
      assert tail[i - 1].begin == at;
    }
  }

  /** Pieces of a tail start at its begin and after it. */
  lemma TailStarts(text: Bytes, begin: nat, segment: Segment, cuts: seq<CutPlace>, counts: (CutPlace, nat) -> bool, at: nat)
    requires segment.begin <= begin < segment.end <= |text|
    ensures at == begin ==> StartsAt(CutSegment(text, begin, segment, cuts, counts), at)
    ensures at < begin ==> !StartsAt(CutSegment(text, begin, segment, cuts, counts), at)
  {
    FirstPiece(text, begin, segment, cuts, counts);
    CutSegmentKeeps(text, begin, segment, cuts, counts);
    InRowBounds(CutSegment(text, begin, segment, cuts, counts), begin, segment.end);
  }

  lemma MadeAfterSkip(cuts: seq<CutPlace>, at: nat, begin: nat, end: nat, counts: (CutPlace, nat) -> bool)
    requires cuts != [] && !Counts(cuts, 0, begin, end, counts)
    ensures SomeIsMade(cuts, at, begin, end, counts) <==> SomeIsMade(cuts[1..], at, begin, end, counts)
  {
    var rest := cuts[1..];
    assert forall k | 0 <= k < |rest| :: rest[k] == cuts[k + 1]
                                         && (Counts(rest, k, begin, end, counts) <==> Counts(cuts, k + 1, begin, end, counts));
    forall k | 0 <= k < |rest| ensures IsMade(rest, k, begin, end, counts) <==> IsMade(cuts, k + 1, begin, end, counts) {
      MadeShifts(cuts, k, begin, end, counts);
    }
    if SomeIsMade(cuts, at, begin, end, counts) {
      var k :| 0 <= k < |cuts| && cuts[k].begin == at && IsMade(cuts, k, begin, end, counts);
      assert rest[k - 1].begin == at && IsMade(rest, k - 1, begin, end, counts);
    }
    if SomeIsMade(rest, at, begin, end, counts) {
      var k :| 0 <= k < |rest| && rest[k].begin == at && IsMade(rest, k, begin, end, counts);
      assert cuts[k + 1].begin == at && IsMade(cuts, k + 1, begin, end, counts);
    }
  }

  lemma MadeShifts(cuts: seq<CutPlace>, k: nat, begin: nat, end: nat, counts: (CutPlace, nat) -> bool)
    requires k + 1 < |cuts|
    ensures IsMade(cuts, k + 1, begin, end, counts)
            <==> IsMade(cuts[1..], k, begin, end, counts)
                 && (Counts(cuts, 0, begin, end, counts) ==> cuts[0].begin <= cuts[k + 1].begin)
  {
    var rest := cuts[1..];
    assert forall j | 0 <= j < |rest| :: rest[j] == cuts[j + 1];
    if IsMade(cuts, k + 1, begin, end, counts) {
      forall j | 0 <= j < k && Counts(rest, j, begin, end, counts) ensures rest[j].begin <= rest[k].begin {
        assert Counts(cuts, j + 1, begin, end, counts);
      }
    }
    if IsMade(rest, k, begin, end, counts) {
      forall j | 1 <= j < k + 1 && Counts(cuts, j, begin, end, counts) ensures cuts[j].begin <= cuts[k + 1].begin {
        assert Counts(rest, j - 1, begin, end, counts);
      }
    }
  }

  lemma MadeAfterCut(cuts: seq<CutPlace>, at: nat, begin: nat, end: nat, counts: (CutPlace, nat) -> bool)
    requires cuts != [] && Counts(cuts, 0, begin, end, counts)
    ensures SomeIsMade(cuts, at, begin, end, counts)
            <==> at == cuts[0].begin || (cuts[0].begin < at && SomeIsMade(cuts[1..], at, cuts[0].begin, end, counts))
  {
    var first, rest := cuts[0], cuts[1..];
    assert IsMade(cuts, 0, begin, end, counts);
    forall k | 0 <= k < |rest| && first.begin < rest[k].begin
      ensures IsMade(cuts, k + 1, begin, end, counts) <==> IsMade(rest, k, first.begin, end, counts)
    {
      MadeShifts(cuts, k, begin, end, counts);
      MadeFromLater(rest, k, begin, first.begin, end, counts);
    }
    if SomeIsMade(cuts, at, begin, end, counts) && at != first.begin {
      var k :| 0 <= k < |cuts| && cuts[k].begin == at && IsMade(cuts, k, begin, end, counts);
      assert rest[k - 1] == cuts[k];
      assert first.begin <= at;
      assert rest[k - 1].begin == at && IsMade(rest, k - 1, first.begin, end, counts);
    }
    if first.begin < at && SomeIsMade(rest, at, first.begin, end, counts) {
      var k :| 0 <= k < |rest| && rest[k].begin == at && IsMade(rest, k, first.begin, end, counts);
      assert cuts[k + 1].begin == at && IsMade(cuts, k + 1, begin, end, counts);
    }
  }

  /** For a place past a later start it is all the same from where the segment is cut. */
  lemma MadeFromLater(cuts: seq<CutPlace>, k: nat, begin: nat, later: nat, end: nat, counts: (CutPlace, nat) -> bool)
    requires k < |cuts| && begin <= later < cuts[k].begin
    ensures IsMade(cuts, k, begin, end, counts) <==> IsMade(cuts, k, later, end, counts)
  {
    if IsMade(cuts, k, later, end, counts) {
      forall j | 0 <= j < k && Counts(cuts, j, begin, end, counts) ensures cuts[j].begin <= cuts[k].begin {
        if cuts[j].begin > later { assert Counts(cuts, j, later, end, counts); }
      }
    }
    if IsMade(cuts, k, begin, end, counts) {
      forall j | 0 <= j < k && Counts(cuts, j, later, end, counts) ensures cuts[j].begin <= cuts[k].begin {
        assert Counts(cuts, j, begin, end, counts);
      }
    }
  }

  lemma {:induction false} FirstPiece(text: Bytes, begin: nat, segment: Segment, cuts: seq<CutPlace>,
                                      counts: (CutPlace, nat) -> bool)
    requires segment.begin <= begin < segment.end <= |text|
    ensures var pieces := CutSegment(text, begin, segment, cuts, counts); pieces != [] && pieces[0].begin == begin
  {
    if cuts != [] && !(begin < cuts[0].begin < segment.end && counts(cuts[0], segment.end)) {
      FirstPiece(text, begin, segment, cuts[1..], counts);
    }
  }

  // ----- the two passes

  function ByteOfWord(view: View, word: nat): nat {
    WordsToBytes(view.words, Range(word, word)).begin
  }

  /** `decoded_word_range_to_byte_range`, read off the offsets. */
  function WordRangeToByteRange(view: View, words: Range): (bytes: Range)
    requires Sound(view)
    ensures bytes == WordsToBytes(view.words, words)
  {
    var count := |view.words|;
    Range(view.offsets[if words.begin <= count then words.begin else count],
          view.offsets[if words.end <= count then words.end else count])
  }

  /** The cut before a body control that one token spells: with the separator token in front of it, if there is one. */
  function GluedCut(view: View, widths: seq<nat>, t: nat): seq<CutPlace>
    requires Sound(view) && t < |view.spans|
  {
    if !IsScriptControl(BodyOf(view, t)) || (t < |widths| && widths[t] != 2) then []
    else
      var first := if t > 0 && IsSeparatorToken(BodyOf(view, t - 1)) then t - 1 else t;
      [CutPlace(ByteOfWord(view, view.spans[first].begin), ByteOfWord(view, view.spans[t].end))]
  }

  function GluedCuts(view: View, widths: seq<nat>, n: nat): seq<CutPlace>
    requires Sound(view) && n <= |view.spans|
  {
    if n == 0 then [] else GluedCuts(view, widths, n - 1) + GluedCut(view, widths, n - 1)
  }

  /** A glued control only gets its own segment where display follows it. */
  function DisplayFollows(view: View, textSize: nat): (CutPlace, nat) -> bool {
    (cut: CutPlace, end: nat) => DisplayBetween(view, textSize, cut.opcodeEnd, end)
  }

  method FindGluedCuts(view: View, widths: seq<nat>) returns (cuts: seq<CutPlace>)
    requires Sound(view)
    ensures cuts == GluedCuts(view, widths, |view.spans|)
  {
    hide Sound, BodyOf, IsScriptControl, IsSeparatorToken, WordsToBytes;
    cuts := [];
    for t := 0 to |view.spans|
      invariant cuts == GluedCuts(view, widths, t)
    {
      if !IsScriptControl(BodyOf(view, t)) { continue; }
      if t < |widths| && widths[t] != 2 { continue; }
      var begin := view.spans[t].begin;
      if t != 0 && IsSeparatorToken(BodyOf(view, t - 1)) { begin := view.spans[t - 1].begin; }
      cuts := cuts + [CutPlace(WordRangeToByteRange(view, Range(begin, begin)).begin,
                               WordRangeToByteRange(view, Range(view.spans[t].end, view.spans[t].end)).begin)];
    }
  }

  /** `split_glued_body_controls`. */
  method SplitGlued(view: View, widths: seq<nat>, text: Bytes, segments: seq<Segment>) returns (result: seq<Segment>)
    requires Sound(view) && forall s | s in segments :: s.begin <= s.end <= |text|
    ensures result == CutAll(text, segments, GluedCuts(view, widths, |view.spans|), DisplayFollows(view, |text|))
  {
    hide Sound, CutAll, GluedCuts;
    var cuts := FindGluedCuts(view, widths);
    if cuts == [] {
      NoCuts(text, segments, DisplayFollows(view, |text|));
      return segments;
    }
    result := CutSegments(text, segments, cuts, DisplayFollows(view, |text|));
  }

  lemma {:induction false} NoCuts(text: Bytes, segments: seq<Segment>, counts: (CutPlace, nat) -> bool)
    requires forall s | s in segments :: s.begin <= s.end <= |text|
    ensures CutAll(text, segments, [], counts) == segments
  {
    if segments != [] {
      NoCuts(text, segments[1..], counts);
      assert segments == [segments[0]] + segments[1..];
    }
  }

  /** The cut before a script control that opens a display line. */
  function LineCut(view: View, line: Line): seq<CutPlace>
    requires Sound(view)
  {
    var t := line.prefix + 1;
    if t >= line.end || t >= |view.spans| then []
    else if !IsScriptOpcode(BodyOf(view, t)) && !IsArtEnvelope(BodyOf(view, t)) then []
    else [CutPlace(WordsToBytes(view.words, BodyRange(view, t)).begin, 0)]
  }

  function LineCuts(view: View, lines: seq<Line>): seq<CutPlace>
    requires Sound(view)
  {
    if lines == [] then [] else LineCuts(view, lines[..|lines| - 1]) + LineCut(view, lines[|lines| - 1])
  }

  function Always(): (CutPlace, nat) -> bool {
    (cut: CutPlace, end: nat) => true
  }

  method FindLineCuts(view: View, lines: seq<Line>) returns (cuts: seq<CutPlace>)
    requires Sound(view)
    ensures cuts == LineCuts(view, lines)
  {
    hide Sound, BodyOf, BodyRange, IsScriptOpcode, IsArtEnvelope, WordsToBytes;
    cuts := [];
    for i := 0 to |lines|
      invariant cuts == LineCuts(view, lines[..i])
    {
      assert lines[..i + 1][..i] == lines[..i];
      var opcode := lines[i].prefix + 1;
      if opcode >= lines[i].end || opcode >= |view.spans| { continue; }
      if !IsScriptOpcode(BodyOf(view, opcode)) && !IsArtEnvelope(BodyOf(view, opcode)) { continue; }
      cuts := cuts + [CutPlace(WordRangeToByteRange(view, BodyRange(view, opcode)).begin, 0)];
    }
    assert lines[..|lines|] == lines;
  }

  /** `split_script_control_lines`. */
  method SplitScriptLines(view: View, lines: seq<Line>, text: Bytes, segments: seq<Segment>) returns (result: seq<Segment>)
    requires Sound(view) && forall s | s in segments :: s.begin <= s.end <= |text|
    ensures result == CutAll(text, segments, LineCuts(view, lines), Always())
  {
    hide Sound, CutAll, LineCuts;
    var cuts := FindLineCuts(view, lines);
    if cuts == [] {
      NoCuts(text, segments, Always());
      return segments;
    }
    result := CutSegments(text, segments, cuts, Always());
  }
}
