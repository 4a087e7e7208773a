// The logical records of a book from their payload bytes to their verified control segments (logical.cpp).
module RecordPipeline {
  import opened Bytes
  import opened Tokens
  import opened RecordFraming
  import opened Ascii
  import Assembly
  import opened SpanSearch
  import Splitter
  import opened SegmentCuts
  import opened ControlIR
  import opened ControlSegments
  import opened Demotion
  import opened DemotionLaws

  /** `project_token_words`. */
  function WordsOf(tokens: seq<Token>): (words: seq<Words>)
    ensures |words| == |tokens|
  {
    seq(|tokens|, k requires 0 <= k < |tokens| => tokens[k].words)
  }

  function LinesOf(record: Record): seq<Line> {
    if record.lines.Some? then record.lines.value else []
  }

  /** What the control decoder is given of a record. */
  ghost predicate IsEnvOf(env: Env, record: Record, spans: seq<Assembly.Span>, classify: Bytes -> Kind, grammar: Grammar) {
    var text := Assembly.Assembled(WordsOf(record.tokens));
    && env.view.words == Assembly.Raised(text.words) && env.text == TextOf(env.view.words)
    && env.view.spans == spans && |spans| == |record.tokens|
    && Assembly.SpansHold(WordsOf(record.tokens), text.sources, spans)
    && env.lines == LinesOf(record) && env.classify == classify && env.grammar == grammar
  }

  /** One decoded record: its number, its token IR, its text and its control segments. */
  datatype RecordSource = RecordSource(number: nat, record: Record, decoded: Decoded, controls: seq<Control>)

  // ----- a selector that selects the next record's first line

  /** The last segment, passing over fonts without payload that style the next line. */
  function CarriedAt(controls: seq<Control>, n: nat): (at: nat)
    requires 0 < n <= |controls|
    ensures at < n
    ensures forall k | at < k < n :: IsEmptyFont(controls[k])
    ensures at > 0 ==> !IsEmptyFont(controls[at])
  {
    if n > 1 && IsEmptyFont(controls[n - 1]) then CarriedAt(controls, n - 1) else n - 1
  }

  predicate IsEmptyFont(c: Control) {
    c.kind == Font && c.payloadRange.begin == c.payloadRange.end
  }

  predicate CarriesSelection(controls: seq<Control>) {
    controls != [] && IsOpenSelect(controls[CarriedAt(controls, |controls|)])
  }

  /** A record carries a selection exactly where its last segment but for fonts without payload, or the first one, is a
      selector without payload. */
  lemma {:induction false} CarriesExactly(controls: seq<Control>)
    ensures CarriesSelection(controls)
            <==> exists at ::
                   && 0 <= at < |controls|
                   && controls[at].kind == Select && controls[at].payloadRange.begin == controls[at].payloadRange.end
                   && forall k | at < k < |controls| ::
                        controls[k].kind == Font && controls[k].payloadRange.begin == controls[k].payloadRange.end
  {
    if controls != [] {
      var at := CarriedAt(controls, |controls|);
      assert forall k | at < k < |controls| :: IsEmptyFont(controls[k]);
    }
  }

  /** `ends_with_carried_selection`. */
  method EndsWithSelection(controls: seq<Control>) returns (carried: bool)
    ensures carried == CarriesSelection(controls)
  {
    if controls == [] { return false; }
    var n := |controls|;
    while n > 1 && IsEmptyFont(controls[n - 1])
      invariant 0 < n <= |controls| && CarriedAt(controls, |controls|) == CarriedAt(controls, n)
    {
      n := n - 1;
    }
    carried := IsOpenSelect(controls[n - 1]);
  }

  // ----- one record

  /** The segments are built from the cut text; the display lines of a record that has them withdraw what they own. */
  ghost predicate SegmentsOf(d: Decoded, lines: Option<seq<Line>>, widths: seq<nat>, carried: bool, controls: seq<Control>)
    requires SoundDecoded(d)
  {
    exists plain :: BuiltFrom(d.env, CutUp(d.env, widths), plain)
      && if lines.Some? && plain != [] then Demoted(d, plain, controls, carried) else controls == plain
  }

  ghost predicate IsDecoded(record: Record, d: Decoded, classify: Bytes -> Kind, grammar: Grammar) {
    && SoundDecoded(d) && d.tokens == record.tokens
    && d.sources == Assembly.Assembled(WordsOf(record.tokens)).sources
    && IsEnvOf(d.env, record, d.env.view.spans, classify, grammar)
  }

  /** The byte is shown by a segment, or a separator, or it stood past the display line of a menu item. */
  ghost predicate IsAccounted(d: Decoded, controls: seq<Control>, at: nat)
    requires SoundDecoded(d) && at < |d.env.text|
  {
    ControlSegments.Shown(controls, at) || Splitter.IsSeparator(d.env.text[at]) || IsCutOff(d, controls, at)
  }

  /** What decoding makes of the payload [begin, end). */
  ghost predicate IsSourceOf(book: Book, begin: nat, end: nat, classify: Bytes -> Kind, grammar: Grammar, carried: bool,
                             source: RecordSource)
  {
    var record, d := source.record, source.decoded;
    && begin <= end <= |book.bytes| && record == RecordOf(book, begin, end) && TokensVerify(record, begin)
    && IsDecoded(record, d, classify, grammar) && Row(d.env, source.controls)
    && SegmentsOf(d, record.lines, WidthsOf(record.tokens), carried, source.controls)
    && Verified(|record.tokens|, |d.env.text|, source.controls)
    && forall at: nat | at < |d.env.text| :: IsAccounted(d, source.controls, at)
  }

  function WidthsOf(tokens: seq<Token>): seq<nat> {
    seq(|tokens|, k requires 0 <= k < |tokens| => EncodedWidth(tokens[k]))
  }

  /** The record as the control decoder is given it. */
  method Assemble(record: Record, classify: Bytes -> Kind, grammar: Grammar) returns (d: Decoded)
    requires GrammarReads(grammar)
    ensures IsDecoded(record, d, classify, grammar)
  {
    hide Assembly.SpansHold, Assembly.Run, Assembly.Assembled, Assembly.Raised, Sound, GrammarReads, TextOf;
    var words := WordsOf(record.tokens);
    var assembled := Assembly.AssembleRecord(words);
    var view := View(assembled.words, assembled.spans, assembled.offsets);
    AssembledIsSound(words, view, assembled.sources);
    var text := TokenWordsToAscii(view.words);
    d := Decoded(Env(view, text, LinesOf(record), classify, grammar), record.tokens, assembled.sources);
  }

  /** The control segments of a record, with those withdrawn that a display line owns. */
  method DecodeSegments(record: Record, d: Decoded, carried: bool) returns (controls: seq<Control>)
    requires SoundDecoded(d) && d.tokens == record.tokens
    ensures Row(d.env, controls) && SegmentsOf(d, record.lines, WidthsOf(record.tokens), carried, controls)
    ensures forall at: nat | at < |d.env.text| :: IsAccounted(d, controls, at)
  {
    hide Row, Verified, BuiltFrom, CutUp, Covers, Demoted, IsCutOff, Sound, GrammarReads, ControlSegments.Shown;
    var plain := DecodeControlSegments(d.env, WidthsOf(record.tokens));
    controls := plain;
    if record.lines.Some? && plain != [] {
      controls := Demote(d, plain, carried);
      forall at: nat | at < |d.env.text| ensures IsAccounted(d, controls, at) {
        if ControlSegments.Shown(plain, at) { OnlyLineEndsAreCut(d, plain, controls, carried, at); }
      }
    }
  }

  /** One turn of `decode_logical_record_sources`. The checks of the tokens and of the segments pass, whatever the
      book's bytes and dictionary are. */
  method DecodeSource(book: Book, number: nat, begin: nat, end: nat, classify: Bytes -> Kind, grammar: Grammar,
                      carried: bool) returns (source: RecordSource, tokensPass: bool, segmentsPass: bool)
    requires begin <= end <= |book.bytes| && GrammarReads(grammar)
    ensures source.number == number && IsSourceOf(book, begin, end, classify, grammar, carried, source)
    ensures tokensPass && segmentsPass
  {
    hide RecordOf, TokensVerify, Row, Verified, IsAccounted, SegmentsOf, IsEnvOf, Sound, GrammarReads, TextOf;
    var record := DecodeRecord(book, begin, end);
    DecodedTokensVerify(book, begin, end);
    tokensPass := VerifyTokens(record, begin);
    var d := Assemble(record, classify, grammar);
    var controls := DecodeSegments(record, d, carried);
    RowIsVerified(d.env, controls);
    segmentsPass := VerifyControlSegments(d.env.view.words, |d.env.view.spans|, controls);
    source := RecordSource(number, record, d, controls);
  }

  // ----- a run of records

  /** The records [first, end), numbered from 1, have payloads inside the file. */
  predicate AreThere(book: Book, ranges: seq<Range>, first: nat, end: nat) {
    && 0 < first <= end <= |ranges| + 1
    && forall k | first - 1 <= k < end - 1 :: ranges[k].begin <= ranges[k].end <= |book.bytes|
  }

  /** The first sources are those of the records from `first` on, each with the selection carried from the one before. */
  ghost predicate AreSources(book: Book, ranges: seq<Range>, first: nat, classify: Bytes -> Kind, grammar: Grammar,
                             sources: seq<RecordSource>)
    requires 0 < first && first - 1 + |sources| <= |ranges|
  {
    forall k | 0 <= k < |sources| ::
      && sources[k].number == first + k
      && IsSourceOfRange(book, ranges[first - 1 + k], classify, grammar, CarriedInto(sources, k), sources[k])
  }

  ghost predicate IsSourceOfRange(book: Book, range: Range, classify: Bytes -> Kind, grammar: Grammar, carried: bool,
                                  source: RecordSource) {
    IsSourceOf(book, range.begin, range.end, classify, grammar, carried, source)
  }

  /** The record before source `k` ends with a selector whose line is the first one of source `k`. */
  predicate CarriedInto(sources: seq<RecordSource>, k: nat)
    requires k <= |sources|
  {
    k > 0 && CarriesSelection(sources[k - 1].controls)
  }

  /** `decode_logical_record_sources`: nothing unless every record is there, else the source of each. It never throws. */
  method DecodeSources(book: Book, ranges: seq<Range>, first: nat, end: nat, classify: Bytes -> Kind, grammar: Grammar)
    returns (sources: seq<RecordSource>, thrown: bool)
    requires GrammarReads(grammar)
    ensures !thrown
    ensures if AreThere(book, ranges, first, end) then
              |sources| == end - first && AreSources(book, ranges, first, classify, grammar, sources)
            else sources == []
  {
    hide GrammarReads, IsSourceOf, CarriesSelection;
    sources, thrown := [], false;
    if first == 0 || end < first || end > |ranges| + 1 { return; }
    for number := first to end
      invariant |sources| == number - first && AreSources(book, ranges, first, classify, grammar, sources)
      invariant forall k | first - 1 <= k < number - 1 :: ranges[k].begin <= ranges[k].end <= |book.bytes|
    {
      var range := ranges[number - 1];
      if range.begin > range.end || range.end > |book.bytes| { return [], false; }
      var carried := false;
      if sources != [] && sources[|sources| - 1].number + 1 == number {
        carried := EndsWithSelection(sources[|sources| - 1].controls);
      }
      var source, tokensPass, segmentsPass :=
        DecodeSource(book, number, range.begin, range.end, classify, grammar, carried);
      if !tokensPass { return [], false; }
      if !segmentsPass { return [], true; }
      ghost var before := sources;
      sources := sources + [source];
      forall k | 0 <= k < |before| ensures CarriedInto(sources, k) == CarriedInto(before, k) {}
    }
  }

  function EncodedWidth(token: Token): nat {
    if token.begin <= token.end then token.end - token.begin else 0
  }

  /** In such a record the tokens of every segment are exactly those that meet its words, unless a lone control goes
      stale behind a blank that the next token takes back. */
  lemma TokensOfSegments(env: Env, record: Record, classify: Bytes -> Kind, grammar: Grammar, c: Control)
    requires SoundEnv(env) && IsEnvOf(env, record, env.view.spans, classify, grammar) && Proper(env, c)
    requires forall t | 0 <= t < |record.tokens| - 1 :: !GoesStale(WordsOf(record.tokens), t)
    ensures c.tokens == Meeting(env.view.spans, BytesToWords(env.view.words, c.complete))
  {
    hide GoesStale, Proper, Assembly.SpansHold;
    var words := WordsOf(record.tokens);
    var sources := Assembly.Assembled(words).sources;
    BeginsInOrderExactly(words, sources, env.view.spans);
    InOrderHidesNothing(env.view.spans, |env.view.words|);
    AssembledIsInOrder(words, sources, env.view.spans);
    TokensAreExact(env, c);
  }
}
