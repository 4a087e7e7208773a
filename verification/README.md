# A verified model of the Geist BOO reader's hard parts

Geist reads IBM BookManager (BOO) books and serves them over HTTP. This project models the parts of it whose
correctness is hardest to see from the code, and proves what they promise:

- **JSON** (`JsonNumber`, `JsonValue`, `JsonWriter`, `JsonParser`, `JsonRoundTrip`, `JsonGrammar`, `JsonGrammarLaws`,
  `JsonCompact`, `JsonErrors`, `Utf8`): the recursive-descent parser with its depth, size and entry limits, surrogate pairs and
  UTF-8 checking, the writer, the laws that tie them, and the grammar whose texts the parser accepts exactly and the
  writer writes in their compact form (RFC 8259; RFC 3629, section 4).
- **The BOO record decoder** (`Tokens`, `TokenLaws`, `RecordFraming`, `Redecode`, `SliceText`, `Ascii`, `Assembly`,
  `AssemblyLaws`, `SpanSearch`, `Splitter`, `SplitterLaws`, `SegmentCuts`, `ControlIR`, `ControlSegments`,
  `ControlLaws`, `Demotion`, `DemotionLaws`, `DemotionRules`, `RecordPipeline`, `PagedIndex`, `TopicParents`): bytes
  are cut into tokens, tokens are framed into display lines and assembled into words with blanks that are taken back
  later, words are indexed by byte offsets, the text is split into control segments that are repaired in place,
  controls that are the text of a display line are withdrawn, the lines that they cut are put back together, and the
  segments are checked.
- **The shelf cache** (`Snapshot`, `SnapshotCodec`, `SnapshotLaws`, `SnapshotLayout`, `Checksum`, `ShelfIndex`,
  `CacheStore`, `CacheStoreLaws`, `Warming`, `WarmingExamples`): the checksummed snapshot codec, the two-level cache,
  the temp-file-and-rename store as a state machine over system calls with crashes and power failures, and the
  election among httpd children that walk the shelves.
- **Address codecs** (`Base64`, `Base64Laws`, `Percent`, `PercentLaws`, `McpAddress`, `ReaderUrl`, `AddressLaws`,
  `RestIdentifier`): Base64 (RFC 4648, section 4), percent-encoding (RFC 3986, sections 2.1 and 2.3), and the whole
  addresses that are built from them and routed back.

`Bytes` holds the shared vocabulary. Code that works by changing things step by step is a method, with its loops and
its class where the program has one, proved against a specification function; the laws are lemmas about those
functions. The laws named `…Exactly` say what a specification function gives in literal bytes and words, without the
vocabulary that the code shares with it. `dafny verify dfyconfig.toml` checks everything.

## What the code does not do

Where a promise turned out to hold only under a condition, the condition is proved exactly and a failing case is a
lemma of its own:

- The comment at `src/container/source_segments.cpp:67-69` says that token begins are non-decreasing. They are not: a
  token without words that stands after a blank keeps its place when a later token takes the blank back
  (`AssemblyLaws.EmptySpanGoesStale`). `SpanSearch.BeginsInOrderExactly` says for which tokens they are in order: those
  where no token that adds nothing stands between a blank and a token that attaches to the text before it.
  `source_tokens_intersecting_output` can then miss a token (`SpanSearch.StaleTokenHidesAnother`).
  `SpanSearch.SearchIsWalkExactly` shows that the search equals a walk over all tokens, for every query that the text
  can answer and every place where a bisection may stop, exactly when no token hides a later one; begins out of order
  need not (`SpanSearch.OutOfOrderButHarmless`).
- The comment at `src/container/logical.cpp:812-817` says that re-decoding returns nothing when a window does not
  tile into whole tokens. It never refuses a window inside the file, because a two-byte token is only read where its
  second byte lies before the window's end (`Redecode.DecodeRange`). What it reads is the record's own tokens exactly
  when no display-line length byte at or above the token threshold stands before the window's last token
  (`Redecode.WindowIsReadAgain`); `SliceText.LongLengthReadsApart` is a two-byte payload on which the two ways of
  reading a slice differ.
- "Later children don't repeat it" (`apache/index_warming.cpp:163-165`) needs the second look at the marker to succeed
  and the last child that wrote the marker to be of the same generation. `Warming.WalkIsNotRepeated` shows that a
  marked task is walked again exactly when one of the two fails, and `WarmingExamples` holds a run for each.
- Lock and marker belong to a root in one cache directory. Two cache directories may list the same root, and then two
  children can walk it at once (`WarmingExamples.TwoCachesWalkOneRootAtOnce`).
- A book with an empty identifier is published with an address that is not routed back, though its table of contents
  is (`McpAddress.EmptyIdentifierIsLost`); a slash or a NUL in an identifier loses both
  (`McpAddress.SlashIdentifierIsLost`). `McpAddress.BookAddressResolves` and `McpAddress.TocAddressResolves` are exact.
- `base64_decode` accepts texts that no encoder writes: padding inside the text (`Base64.PaddingInsideIsRead`), and
  padded groups whose dropped bits are not zero (`Base64.LeftOverBitsAreRead`). `Base64.DecodedEncodes` is exact.
- Empty word ranges survive the trip through bytes except the one before the first word (`SpanSearch.WordsComeBack`,
  `SpanSearch.EmptyRangeMoves`).

## Model

| member | source | states |
|---|---|---|
| `JsonNumber.CheckNumber` | apache/machine/json.cpp:20-43 | `valid_number` computes the number scanner's verdict on a whole text |
| `JsonNumber.ValidNumberIsGrammar` | apache/machine/json.cpp:20-43 | a text passes exactly when it splits into sign, integer, fraction and exponent of RFC 8259, section 6 |
| `JsonNumber.ScannedIsNumber` | apache/machine/json.cpp:216-239 | what the parser's number scan takes is a number of the grammar |
| `JsonNumber.NumberIsScanned` | apache/machine/json.cpp:216-239 | a number that is followed by no byte that could continue it is scanned whole |
| `JsonRoundTrip.NumberTextIsNeverRejected` | apache/machine/json.cpp:216-239 | the parser never hands `valid_number` a text that it rejects |
| `Utf8.Utf8Length` | apache/machine/json.cpp:45-69 | the length check computes the length function that the next rows characterise |
| `Utf8.LengthIsExact` | apache/machine/json.cpp:45-69 | n > 0 exactly when the next n bytes are the encoding of one scalar value: no overlong form, no surrogate |
| `Utf8.AppendUtf8` | apache/machine/json.cpp:71-87 | appends exactly the encoding of the scalar value |
| `Utf8.EncodingIsTheTable` | apache/machine/json.cpp:71-87 | the encoding is one of the four forms of RFC 3629, section 3, told by its bytes and the range of the code point |
| `Utf8.ValidUtf8` | apache/rest/rest.cpp:24-60 | the REST check accepts exactly the strings that the length check steps through |
| `Utf8.ValidIsEncoded` | apache/machine/json.cpp:285-315 | a string is accepted exactly when it is the concatenated encodings of some scalar values |
| `Utf8.ValidConcat` | apache/machine/json.cpp:285-315 | well-formed strings concatenate to well-formed strings |
| `JsonValue.EmplacedKeepsOrder` | apache/machine/json.cpp:257-282 | inserting a member keeps the key order of an object and an existing key its value |
| `Bytes.LessIsLexicographic` | apache/machine/json.cpp:257-282 | the key order is the lexicographic one of the bytes |
| `JsonWriter.WriteString` | apache/machine/json.cpp:285-315 | writes the escaped text of a well-formed string, and throws exactly on any other |
| `JsonWriter.WriteValue` | apache/machine/json.cpp:317-343 | appends exactly the text of the value, and throws exactly where a string in it is not UTF-8 |
| `JsonWriter.WriteJson` | apache/machine/json.cpp:406-410 | gives the text of a writable value and nothing for any other |
| `JsonCompact.WrittenIsCompact` | apache/machine/json.cpp:285-343 | the text of a value is what its compact tree of the grammar spells: no blanks, keys in order, the seven characters with a short escape by it, the other control characters by four small hex digits, everything else as it stands |
| `Bytes.HexValueExactly` | apache/machine/json.cpp:146-158 | a byte is a hex digit of a value exactly where it is that digit of the list of sixteen, in either case |
| `JsonParser.Parser.Hex` | apache/machine/json.cpp:146-158 | four hex digits are read as their value, anything else fails |
| `JsonParser.Parser.Low` | apache/machine/json.cpp:189-199 | a high surrogate is joined with the low one that must follow |
| `JsonParser.Parser.StringValue` | apache/machine/json.cpp:165-214 | reads a string as the specification does, with escapes, UTF-8 checks and the size limit |
| `JsonParser.Parser.NumberValue` | apache/machine/json.cpp:216-239 | reads the longest number text and keeps its spelling |
| `JsonParser.Parser.ArrayValue` | apache/machine/json.cpp:241-255 | reads an array as the specification does, with the entry limit |
| `JsonParser.Parser.ObjectValue` | apache/machine/json.cpp:257-282 | reads an object as the specification does, refusing a repeated key and too many entries |
| `JsonParser.Parser.ValueAt` | apache/machine/json.cpp:126-144 | reads a value at a depth as the specification does; the limit counts leaves |
| `JsonParser.ParseJson` | apache/machine/json.cpp:402-404 | accepts and rejects exactly as the specification does, for every input and all limits |
| `JsonRoundTrip.ParsedIsSound` | apache/machine/json.cpp:89-283 | every parsed value is well formed, writable and within the limits it was parsed under |
| `JsonRoundTrip.ValueReads` | apache/machine/json.cpp:126-144 | a well-formed value's text, wherever it stands in an input, is read back to the value |
| `JsonRoundTrip.WrittenParsesBack` | apache/machine/json.cpp:402-410 | parse(write(v)) is v exactly for the values that are well formed and within the limits |
| `JsonRoundTrip.ParsedWritesAndParsesBack` | apache/machine/json.cpp:402-410 | for every accepted text, writing the value succeeds and parsing it again gives the same value |
| `JsonRoundTrip.WritingIsInjective` | apache/machine/json.cpp:317-343 | different well-formed values have different texts |
| `JsonGrammarLaws.CharIsRead` | apache/machine/json.cpp:165-214 | a character of a string is read as what it means: as it stands, by one of the eight letters after a backslash, each with its own byte, by one code unit of four hex digits or by a surrogate pair |
| `JsonGrammarLaws.TreeIsRead` | apache/machine/json.cpp:126-283 | what a tree of the RFC 8259 grammar spells, wherever it stands before a byte that ends a value, is read as what the tree means, if that keeps to the limits |
| `JsonGrammarLaws.TreeIsDerived` | apache/machine/json.cpp:126-283 | whatever is read as a value is what some tree spells, and the value is what the tree means |
| `JsonGrammarLaws.ParsesExactly` | apache/machine/json.cpp:89-283 | a text is accepted with value v exactly when the grammar derives it with the meaning v, no object in it repeats a key and v keeps to the limits |
| `JsonGrammarLaws.GrammarIsUnambiguous` | apache/machine/json.cpp:89-283 | no text of the grammar means two values, whatever the limits are |
| `JsonCompact.ObjectMeansItsEntries` | apache/machine/json.cpp:257-282 | an object holds exactly the members that its entries mean, each once, in key order |
| `JsonErrors.ErrorsPointAtTheirReason` | apache/machine/json.cpp:89-283 | the offset of every error lies in the text at bytes that give its reason: the byte that is no value, separator, colon or key, the escape, the digits of the surrogate, the control character, the broken UTF-8, the end of the text |
| `Tokens.DecodeOneToken` | src/container/logical.cpp:706-742 | cuts the token that starts at the cursor: two bytes where the first is at the threshold and a second is there |
| `Tokens.DecodePlain` | src/container/logical.cpp:792-795 | the left-to-right loop gives the walk of the payload |
| `Tokens.DecodeDisplayLines` | src/container/logical.cpp:753-775 | the line-by-line loop ends on every payload and gives its walk, or nothing where a line does not end on a token |
| `Tokens.TokenDisplayLines` | src/layout/display_lines.cpp:64-86 | the display lines of a token list, or nothing where it does not fall into lines |
| `TokenLaws.WalkTiles` | src/container/logical.cpp:792-795 | the tokens of the plain walk cover the payload exactly |
| `TokenLaws.LineWalkTiles` | src/container/logical.cpp:753-775 | when re-decoding line by line succeeds, its tokens cover the payload exactly |
| `TokenLaws.FramedWalkIsLineWalk` | src/container/logical.cpp:796-805 | where the plain walk already falls into lines, the line-by-line walk gives the same tokens |
| `TokenLaws.LineWalkIsFramed` | src/container/logical.cpp:796-805 | whatever the line-by-line walk gives falls into display lines, so the second check never fails |
| `TokenLaws.FramedExactly` | src/container/logical.cpp:796-808 | a record is framed exactly when its payload is made of bytes that each tell a length and are followed by tokens that fill exactly so many bytes |
| `TokenLaws.DisplayLinesAreChained` | src/layout/display_lines.cpp:64-86 | display lines follow each other from the first token to the last |
| `TokenLaws.OneRoleEach` | src/layout/display_lines.cpp:88-103 | every token is the length byte of one line or content of one line, never both |
| `RecordFraming.AssignFraming` | src/layout/display_lines.cpp:88-103 | stamping line by line gives every token its role and keeps the display lines |
| `RecordFraming.DecodeRecord` | src/container/logical.cpp:779-810 | a record's tokens are the line walk where there is one and the plain walk otherwise, with their roles |
| `RecordFraming.VerifyFraming` | src/layout/display_lines.cpp:146-184 | the verifier accepts exactly the records whose framing holds |
| `RecordFraming.VerifiedIsAssigned` | src/layout/display_lines.cpp:146-184 | on tokens that cover the payload it accepts a framed record exactly when lines and roles are those the decoder assigns |
| `RecordFraming.DecodedRecordVerifies` | src/container/logical.cpp:779-810 | every decoded record covers its payload and passes the verifier |
| `RecordFraming.LinesOfARecord` | src/container/logical.cpp:744-775 | every line starts with a one-byte token that holds the line's length, even at or above the threshold, and no token crosses a line end |
| `RecordFraming.TokensAreLookedUp` | src/container/logical.cpp:272-296 | every token of a record has the big-endian number of its one or two bytes, and the words that the dictionary holds: under that number for two bytes, for one byte under the two bytes of its entry in the token map, nothing where either is missing |
| `Redecode.DecodeRange` | src/container/logical.cpp:812-832 | gives the plain walk of every window that lies in the file, and refuses only the others |
| `Redecode.ReadAgainExactly` | src/container/logical.cpp:818-832 | tokens that cover a window are read again from its bytes exactly when each has the width that a walk up to the window's end gives it |
| `Redecode.RecordWidths` | src/container/logical.cpp:779-809 | in a decoded record a length byte is one byte wide and every other token as wide as a plain walk makes it |
| `Redecode.TokenIsTwoBytesExactly` | src/container/logical.cpp:706-742 | a token of a record is two bytes wide exactly where it is no length byte, its first byte is at or above the threshold and its second lies in the payload |
| `Redecode.WindowIsReadAgain` | src/container/logical.cpp:812-832 | a window of a record is read again to the same tokens exactly when no long length byte stands before its last token |
| `Redecode.WindowsThatReadAlone` | src/container/logical.cpp:812-832 | that holds for every window of a plainly decoded record and for every window of line content |
| `SliceText.DecodeSliceText` | src/container/source_slice_text.cpp:20-61 | decodes a slice from the file: reversed, outside, other count and outside the word are refused, else its text |
| `SliceText.ProjectSliceText` | src/container/source_slice_text.cpp:64-110 | projects a slice from a record's tokens, with the same refusals |
| `SliceText.TokensTextIs` | src/container/source_slice_text.cpp:35-47 | the text of tokens is that of their words one after the other, without a leading word below 4 |
| `SliceText.ReadingIs` | src/container/source_slice_text.cpp:32-60 | another number of tokens than the slice gives is refused, then characters that are reversed or outside the text; else the text or those characters are given |
| `SliceText.DecodedIs` | src/container/source_slice_text.cpp:20-32 | a reversed window and one outside the file are refused, any other is decoded from its bytes |
| `SliceText.WithinExactly` | src/container/source_slice_text.cpp:76-84 | the tokens of a window are exactly those that begin and end in it |
| `SliceText.SliceReadsTheSame` | src/container/source_slice_text.cpp:20-110 | on token boundaries of a record, where no long length byte stands before the window's last token, both give the same text or the same refusal, for every token count and character range |
| `SliceText.ProjectionNeedsBoundaries` | src/container/source_slice_text.cpp:72-96 | projecting a non-empty window finds whole tokens exactly when both its ends are token boundaries |
| `SliceText.LongLengthReadsApart` | src/container/source_slice_text.cpp:20-110 | a two-byte payload on which the two readings differ, across a long length byte |
| `Ascii.TokenWordsToAscii` | src/core/ebcdic.cpp:129-146 | the projection of a word list is the concatenation of its words' bytes |
| `Ascii.WordText` | src/core/ebcdic.cpp:123-145 | a word projects to as many bytes as its width says |
| `Ascii.WordTextExactly` | src/core/ebcdic.cpp:129-146 | printable ASCII stands for itself, a hard blank for a blank, the rest of Latin-1 for its two bytes of UTF-8, and any other word for a question mark |
| `Ascii.TextOfConcat` | src/core/ebcdic.cpp:129-146 | projecting two lists one after the other is projecting them together |
| `Ascii.TextIsUtf8` | src/core/ebcdic.cpp:129-146 | whatever the words, their projection is well-formed UTF-8 |
| `Assembly.Record.RemovePendingSpace` | src/container/logical.cpp:394-403 | takes back a blank that ends the text and shrinks its owner's span, keeping all spans in place |
| `Assembly.Record.Join` | src/container/logical.cpp:408-434 | controls 0 and 1 take a blank back where text stands before, and settle the spacing |
| `Assembly.Record.Append` | src/container/logical.cpp:437-458 | appends a token's words with their sources, then the blank that the spacing asks for |
| `Assembly.Record.Add` | src/container/logical.cpp:406-461 | one token's turn gives the next draft and keeps the spans in place |
| `Assembly.AssembleRecord` | src/container/logical.cpp:389-490 | words, sources, spans and offsets of the assembled record: an output position lies in the span of its own token and no other, a non-empty span ends before every later one begins, and offsets are where words start in the projected text |
| `AssemblyLaws.TurnExactly` | src/container/logical.cpp:405-458 | what each token makes of the text, by its words alone: a blank goes where controls 0 or 1 attach, its words come without a leading word below 4, and a blank follows unless it ends in one, has control 2, or attaches as 0 or as a lone 1 |
| `AssemblyLaws.EndsExactly` | src/container/logical.cpp:463-469 | the text starts empty, and a blank put after the last token goes unless it is all there is |
| `AssemblyLaws.SpanTells` | src/container/logical.cpp:414-419 | the span of a token tells its number, its control or 3, whether it is only a control, and where its words start |
| `AssemblyLaws.RaisedExactly` | src/container/logical.cpp:471-479 | exactly the small letters before the first blank, equals sign or zero are put in upper case, in a text that starts with neither a blank nor a capital S |
| `AssemblyLaws.WordsComeInTokenOrder` | src/container/logical.cpp:406-469 | words and sources stay parallel, every word is the one its source names or an inserted blank, and the sources run strictly forward |
| `AssemblyLaws.NoTextIsLost` | src/container/logical.cpp:394-469 | the non-blank words are exactly the tokens' non-blank body words in order, whatever blanks are taken back |
| `AssemblyLaws.BlankBetweenTokens` | src/container/logical.cpp:408-458 | between two tokens stands one blank unless the left one attaches right or the right one attaches left, and a blank of the token's own is not doubled |
| `AssemblyLaws.RaisingKeepsShape` | src/container/logical.cpp:471-479 | upper case keeps every blank a blank and every width |
| `AssemblyLaws.EmptySpanGoesStale` | src/container/logical.cpp:394-403 | three tokens after which an empty span starts behind a later token's span |
| `SpanSearch.ByteRangeToWordRange` | src/container/control_ir.cpp:519-547 | the two bisections give what a walk over the running offsets gives |
| `SpanSearch.BytesTouchWords` | src/container/control_ir.cpp:519-547 | a non-empty byte range inside the text becomes exactly the words it touches |
| `SpanSearch.WordsComeBack` | src/container/control_ir.cpp:519-559 | words to bytes and back is the identity, on empty ranges too except the one before the first word |
| `SpanSearch.EmptyRangeMoves` | src/container/control_ir.cpp:519-559 | the empty range before the only word of a text comes back as the one after it |
| `SpanSearch.BytesComeBackWidened` | src/container/control_ir.cpp:519-559 | bytes to words and back only widens, and gives the same bytes exactly when both ends are word starts |
| `SpanSearch.TokensMeeting` | src/container/source_segments.cpp:59-84 | the search collects from where a bisection stops, and gives what a walk gives where no token hides another |
| `SpanSearch.MeetingExactly` | src/container/source_segments.cpp:45-57 | a walk gives exactly the tokens whose words overlap the query |
| `SpanSearch.FoundMeets` | src/container/source_segments.cpp:59-84 | whatever a search gives, wherever its bisection stops, overlaps what was asked for |
| `SpanSearch.SearchIsWalkExactly` | src/container/source_segments.cpp:59-84 | for every query of the text and every stop of the bisection the search is the walk, exactly when no token that begins behind a later one is told apart from it by some query |
| `SpanSearch.BeginsInOrderExactly` | src/container/logical.cpp:405-469 | the begins of a record's tokens are in order exactly when no token that adds nothing stands between a blank and a token with control 0 or 1 |
| `SpanSearch.OutOfOrderButHarmless` | src/container/source_segments.cpp:59-84 | the spans of "foo", a lone control 2 and a lone control 0 are out of order and hide nothing |
| `SpanSearch.StaleTokenHidesAnother` | src/container/source_segments.cpp:59-84 | the record "foo", a lone control 2, "x": no search finds the token of its last word |
| `SpanSearch.FoundAscends` | src/container/source_segments.cpp:59-84 | whatever the search gives is in range and in token order |
| `Splitter.LooksLikeControl` | src/container/decoded_record_scan.cpp:307-380 | skips blanks and tries the 56 prefixes in order, with the early refusals of the code |
| `SplitterLaws.ControlExactly` | src/container/decoded_record_scan.cpp:307-380 | a control is exactly what one of the 56 names opens, after blanks and in any case: before the end of the text, a blank, an equals sign, a comma or a dot, or by one of the rules for st, ceart, ceartdesc, sr, srfig and srtbl |
| `Splitter.HasFixedVisualPayload` | src/container/decoded_record_scan.cpp:385-407 | true exactly when twenty question marks or seventy blanks stand in a row |
| `Splitter.MakeSegment` | src/container/decoded_record_scan.cpp:408-426 | trims a raw piece, more boldly where no fixed display stands in it |
| `SplitterLaws.TrimmedExactly` | src/container/decoded_record_scan.cpp:408-426 | what is taken off a piece: blanks, control characters and question marks, but only blanks where twenty question marks or seventy blanks stand in a row; of two question marks after a word one goes |
| `Splitter.SplitRecord` | src/container/decoded_record_scan.cpp:382-481 | the loop gives the segments of the record |
| `SplitterLaws.CutExactly` | src/container/decoded_record_scan.cpp:428-449 | a record is cut before a control after a blank, a dot or a comma that does not start with sh, and around a question mark or comma that a control follows, and nowhere else |
| `SplitterLaws.PieceEndExactly` | src/container/decoded_record_scan.cpp:455-473 | a question mark that such a cut goes around stays with the piece before it exactly where a letter, a digit or a closing parenthesis stands before it and the blanks before it |
| `SplitterLaws.SplitExactly` | src/container/decoded_record_scan.cpp:382-481 | the segments are exactly the pieces between those cuts, trimmed, that something is left of |
| `Splitter.SplitKeepsText` | src/container/decoded_record_scan.cpp:382-481 | segments are not empty, ordered and disjoint, and everything outside them is a blank, a control character, a question mark or a comma |
| `SplitterLaws.SplitCutsEveryControl` | src/container/decoded_record_scan.cpp:428-473 | no place where a control starts after a blank, a dot or a comma, or after a question mark or comma that goes, is left inside a segment, except the question mark that a segment ends in |
| `SplitterLaws.SplitCutsOnlyControls` | src/container/decoded_record_scan.cpp:428-473 | the record is cut nowhere but at such places |
| `SegmentCuts.SplitGlued` | src/container/control_ir.cpp:325-409 | cuts before every body control that one two-byte token spells and that display follows |
| `SegmentCuts.SplitScriptLines` | src/container/control_ir.cpp:454-492 | cuts before every script control or artwork control that opens a display line |
| `ControlLaws.ScriptControlExactly` | src/container/control_ir.cpp:254-261 | a body control is "c." and at least two small letters |
| `ControlLaws.LineOpenersExactly` | src/container/control_ir.cpp:413-441 | a line opener is "c." or "C." and letters, or one of the five names of the artwork envelope |
| `ControlLaws.CommaExactly` | src/container/control_ir.cpp:269-300 | a separator token is one comma after attaching words, without the blanks around it |
| `ControlLaws.GluedCutsExactly` | src/container/control_ir.cpp:325-409 | a cut is made for exactly the body controls of two encoded bytes: before them, or before the comma token in front of them |
| `ControlLaws.DisplayFollowsExactly` | src/container/control_ir.cpp:377-400 | such a cut counts exactly where a word that shows something stands between the control and the end of its segment |
| `ControlLaws.LineCutsExactly` | src/container/control_ir.cpp:455-490 | a cut is made for exactly the line openers that are the first token of a display line |
| `SegmentCuts.CuttingKeepsText` | src/container/control_ir.cpp:386-408 | either pass keeps the segments ordered and disjoint and covers exactly the same bytes, whatever the order of the cuts |
| `SegmentCuts.CutsAreMadeExactly` | src/container/control_ir.cpp:386-408 | a segment is cut at exactly the places that count and that no earlier place which counts lies beyond, whatever their order |
| `ControlIR.DisplayGeometryBytes` | src/container/control_ir.cpp:37-50 | marks exactly the bytes that show box-drawing words |
| `ControlIR.WordsIn` | src/container/control_ir.cpp:57-82 | words cover all that is not blank, in order, none mixes box drawing with other bytes, and two that touch differ in it |
| `ControlIR.OpcodeEnd` | src/container/control_ir.cpp:305-320 | the opcode ends where the first separator token that ends its word starts, and nowhere else |
| `ControlLaws.OpcodeEndsExactly` | src/container/control_ir.cpp:305-320 | the same by the words: the first token that is a comma and ends the word past its first byte ends the opcode |
| `ControlLaws.LineEndsExactly` | src/container/control_ir.cpp:664-674 | the display line of a token is the first that holds it, and ends where the token after the line starts |
| `ControlLaws.ClippedExactly` | src/container/control_ir.cpp:740-747 | an opcode that its display line ends inside is cut off there |
| `ControlLaws.SummaryByLineExactly` | src/container/control_ir.cpp:678-690 | a summary reads by its own grammar exactly where its first token is the first of a display line |
| `ControlLaws.WordsToBytesExactly` | src/container/control_ir.cpp:548-559 | a range of words becomes the bytes from the start of its first word to the start of the one after it, inside the text |
| `ControlLaws.WordsAndBytesAre` | src/container/control_ir.cpp:37-56 | box drawing is 2500 to 257F, and blanks, commas and question marks lead a segment in |
| `ControlIR.OperandsEnd` | src/container/control_ir.cpp:763-1004 | the operands end and are malformed as the fixed count or the kind's grammar says, and except for a revision definition they end after the opcode and no later than the last word |
| `ControlLaws.OperandsAreCounted` | src/container/control_ir.cpp:494-517 | three operands for a summary and a selector, two for a revision definition, one for nine kinds, none for the others |
| `ControlLaws.CountedOperandsEnd` | src/container/control_ir.cpp:763-778 | without a grammar the operands end with the last of that count, or with the last word there is, which makes the control malformed |
| `ControlIR.ReadWords` | src/container/control_ir.cpp:732-1006 | the kind is what the clipped opcode is classified as: text keeps the whole segment, a control has that opcode, its operands, and ranges in order |
| `ControlIR.ReadControl` | src/container/control_ir.cpp:703-1012 | a segment is text exactly where it has no words before its box drawing or their opcode is classified as none, else that control; ranges, lead-in and tokens are right |
| `ControlSegments.Reclaim` | src/container/control_ir.cpp:574-605 | a text segment takes its comma back exactly where a separator token fills the gap before it, and the row of segments keeps |
| `ControlLaws.ReclaimsExactly` | src/container/control_ir.cpp:574-605 | a segment takes a comma back exactly where it is text from its first byte on, one comma parts it from the segment before it and a token shows that comma |
| `ControlLaws.ReclaimedExactly` | src/container/control_ir.cpp:597-604 | it then starts a byte earlier, with empty opcode and operands there, and is otherwise unchanged |
| `ControlSegments.KeepFramed` | src/container/control_ir.cpp:616-653 | a segment keeps the comma after it exactly where that separator token stands inside a display line |
| `ControlLaws.KeepsCommaExactly` | src/container/control_ir.cpp:616-647 | a segment keeps the comma after it exactly where its payload runs up to it and the first token that shows it stands in a display line past the length byte |
| `ControlLaws.KeptExactly` | src/container/control_ir.cpp:646-652 | its segment and payload then end a byte later, and it is otherwise unchanged |
| `ControlSegments.PromoteTopic` | src/container/control_ir.cpp:222-244 | exactly a lone topic identifier at the start of the record, before a topic number, starts a topic; extents and tokens stay |
| `ControlLaws.TopicWordExactly` | src/container/control_ir.cpp:207-217 | a topic identifier is sh in any case and letters, digits, dots, underscores or hyphens, alone between lead-in and blanks |
| `ControlLaws.PromotedExactly` | src/container/control_ir.cpp:222-244 | when the first segment becomes a topic start, and what its ranges are then; no other segment changes |
| `ControlSegments.CutRecord` | src/container/control_ir.cpp:697-700 | the splitter and both cutting passes, one after the other |
| `ControlSegments.DecodeControlSegments` | src/container/control_ir.cpp:655-1017 | the controls are the segments of the cut record one by one, read, repaired and promoted; they satisfy everything the verifier checks, and nothing but separators is left outside them |
| `ControlSegments.VerifyControlSegments` | src/container/control_ir.cpp:1019-1057 | accepts exactly the segment lists with contiguous ordinals, ordered disjoint ranges, linked inner ranges and sorted tokens in range |
| `ControlSegments.RowIsVerified` | src/container/control_ir.cpp:1019-1057 | a row of proper segments passes the verifier |
| `ControlSegments.TokensAreExact` | src/container/control_ir.cpp:1007-1010 | where no token hides another, a segment's tokens are exactly those that meet its words |
| `Demotion.TokenWordText` | src/layout/display_lines.cpp:513-523 | gives the ASCII text of a token without spacing controls and outer blanks, and nothing for a word that is not ASCII |
| `DemotionRules.SpellingExactly` | src/layout/display_lines.cpp:513-523 | the spelling is the words from 4 on without the blanks around them, and nothing if a word is above 7F |
| `Demotion.DemoteLengths` | src/layout/display_lines.cpp:525-588 | exactly the controls that are the spelling of a display line's length byte become text, judged after the one before; the row keeps |
| `DemotionRules.LengthSpellingExactly` | src/layout/display_lines.cpp:543-578 | such a control scopes or selects, or stands on a selected line, its opcode comes from a length byte, and its first token is spelled like its opcode in any case |
| `DemotionRules.SelectedAndPlain` | src/layout/display_lines.cpp:579-586 | a selector without payload selects a line; a withdrawn control is text without opcode whose payload is all of it |
| `Demotion.DemoteOwned` | src/layout/display_lines.cpp:770-885 | exactly the control words inside a display line become text; the row keeps |
| `DemotionRules.OwnedExactly` | src/layout/display_lines.cpp:770-872 | owned are a topic start whose opcode stands past the first cell of its line, and a structural control, title, layout directive or text whose first shown token stands behind another in its line, or past the first cell if it is a title, the index keyword or has an opcode |
| `Demotion.Rejoin` | src/layout/display_lines.cpp:693-743 | each selector, message, anchor or carried line takes in exactly the display text that follows on its line, and the result is a row of proper segments again |
| `DemotionRules.TakesLineExactly` | src/layout/display_lines.cpp:699-710 | which segments take in their line: selectors, messages, anchors that start with sr, and the first text of a record that the record before selects |
| `DemotionRules.RejoinEndExactly` | src/layout/display_lines.cpp:711-723 | it takes in exactly the display text that follows on the line of its last token and does not open in the first cell |
| `DemotionRules.GrownExactly` | src/layout/display_lines.cpp:717-737 | it then ends where that text does; a message without operand has it as its operand |
| `Demotion.Bound` | src/layout/display_lines.cpp:612-666 | each menu item takes in exactly the text that follows on its line and ends no later than the line where that cuts its payload; the result is a row of proper segments again |
| `DemotionRules.BoundEndExactly` | src/layout/display_lines.cpp:632-658 | a menu item whose first token is not the length byte takes in exactly the text that follows on its line |
| `DemotionRules.ItemEndsExactly` | src/layout/display_lines.cpp:647-662 | it ends with that text, or with its line where the line ends inside its payload |
| `Demotion.Demote` | src/layout/display_lines.cpp:764-888 | the four passes in order, on every row of segments, and the result is such a row, so that it passes the verifier |
| `DemotionLaws.WithdrawingSettles` | src/layout/display_lines.cpp:525-885 | neither of the first two passes withdraws anything from its own result |
| `DemotionLaws.ControlSurvivesExactly` | src/layout/display_lines.cpp:764-888 | a control is left after all four passes exactly when it is not the spelling of a length byte and no display line owns it |
| `DemotionLaws.NoControlIsInvented` | src/layout/display_lines.cpp:764-888 | every control that is left stood there before, with that kind and opcode |
| `DemotionLaws.OnlyLineEndsAreCut` | src/layout/display_lines.cpp:612-666 | a byte that a segment showed is lost exactly when it stood in a menu item's segment past the item's display line |
| `RecordFraming.VerifyTokens` | src/ir/book_ir.cpp:34-95 | the token check accepts exactly the records whose tokens cover the payload with valid widths and whose framing holds |
| `RecordFraming.DecodedTokensVerify` | src/container/logical.cpp:1008-1018 | every decoded record passes the token check |
| `RecordPipeline.EndsWithSelection` | src/layout/display_lines.cpp:747-762 | the last segment that is no empty font, or the first one, is a selector without payload |
| `RecordPipeline.CarriesExactly` | src/layout/display_lines.cpp:747-762 | a record carries a selection exactly where a selector without payload is its last segment but for fonts without payload |
| `RecordPipeline.DecodeSource` | src/container/logical.cpp:1008-1036 | from any payload of any book: both checks pass on the record and on its segments after the controls that display lines own are withdrawn, and every byte of the text is shown by a segment, is a separator, or stood past the display line of a menu item |
| `RecordPipeline.DecodeSources` | src/container/logical.cpp:982-1038 | gives the source of every record, each with the selection carried over from the record before, unless a record is not there; never throws |
| `RecordPipeline.TokensOfSegments` | src/container/control_ir.cpp:1007-1010 | unless a lone control goes stale, the tokens of every segment of such a record, grown or cut ones included, are exactly those that meet its words |
| `PagedIndex.ParsePagedIndex` | src/container/logical.cpp:310-350 | ends on every file and gives exactly the numbers of the complete continuation chain, or nothing where there is none |
| `PagedIndex.OneWay` | src/container/logical.cpp:319-349 | a complete chain goes through every table that was walked |
| `PagedIndex.Refused` | src/container/logical.cpp:321-330 | a table that was visited, does not fit or holds too much is on no complete chain |
| `PagedIndex.TableIs` | src/container/logical.cpp:319-348 | the layout of a table: a big-endian count and continuation page, then the numbers; the page counts from the directory |
| `TopicParents.FindTopic` | src/container/logical.cpp:1071-1085 | finds the first topic of that identifier, whatever its case |
| `TopicParents.FoundExactly` | src/container/logical.cpp:1071-1085 | exactly the first topic with the identifier but for capital letters is found |
| `TopicParents.ParentExactly` | src/container/toc.cpp:207-223 | a topic with an empty parent is at the top; the parent of any other is the first topic that its parent names |
| `TopicParents.ParentChainLength` | src/container/toc.cpp:212-223 | gives k exactly when the chain of parents reaches the top in k steps, and nothing exactly when it never does |
| `TopicParents.ChainIsShort` | src/container/toc.cpp:219 | a chain that reaches the top has fewer steps than there are topics, so the cut-off never refuses one |
| `TopicParents.NoLengthExactly` | src/container/toc.cpp:207-223 | a chain never reaches the top exactly when it meets an unread or unknown parent first or runs in a cycle |
| `Checksum.ComputeChecksum` | apache/shelf_snapshot.cpp:19-23 | the loop computes the fold of the bytes |
| `Checksum.FoldIsFnv` | apache/shelf_snapshot.cpp:19-23 | FNV-1a with its 64-bit basis and prime: the byte is xored in before the multiplication |
| `Checksum.XorBits` | apache/shelf_snapshot.cpp:21 | a bit of the exclusive or is set exactly where one of the two bits is |
| `Checksum.StepIsInjective` | apache/shelf_snapshot.cpp:21-22 | one step is injective in the state and in the byte |
| `Checksum.OneChangedByteChangesTheFold` | apache/shelf_snapshot.cpp:19-23 | changing exactly one byte always changes the checksum |
| `SnapshotCodec.Writer.Number` | apache/shelf_snapshot.cpp:31-40 | appends a number's bytes, or throws exactly when the file would grow past its limit |
| `SnapshotCodec.EncodeSnapshot` | apache/shelf_snapshot.cpp:89-116 | gives the bytes of an encodable snapshot and nothing for any other |
| `SnapshotLayout.EncodedIsLaidOut` | apache/shelf_snapshot.cpp:89-116 | the bytes of a snapshot: "GSTIDX01", version 1, directory, producer, count, for each identity its name, the five numbers of its stamp and its three labels, and the checksum; all numbers little-endian |
| `SnapshotLayout.EncodableExactly` | apache/shelf_snapshot.cpp:25-116 | a snapshot is encodable exactly where it keeps to the limits of counts and lengths, its names are file names and differ, and its entries are readable with the size of a stamp that is not negative |
| `SnapshotCodec.DecodeSnapshot` | apache/shelf_snapshot.cpp:118-153 | accepts exactly what decodes, and leaves the output alone otherwise |
| `SnapshotLaws.EncodedIsDecoded` | apache/shelf_snapshot.cpp:89-153 | decoding an encoded snapshot gives it back |
| `SnapshotLaws.DecodedIsEncoded` | apache/shelf_snapshot.cpp:89-153 | any bytes that decode are exactly the encoding of what they decode to |
| `SnapshotLaws.CodecIsExact` | apache/shelf_snapshot.cpp:89-153 | bytes decode to a snapshot exactly when they are its encoding |
| `SnapshotLaws.CountGuardIsSafe` | apache/shelf_snapshot.cpp:131-134 | the guard on the count never rejects a valid encoding |
| `SnapshotLaws.OneChangedByteIsRefused` | apache/shelf_snapshot.cpp:118-153 | a valid encoding with exactly one byte changed is always refused |
| `ShelfIndex.ShelfMemory.VisitFile` | apache/shelf_index.cpp:95-148 | a file is served from memory where that holds its stamp, else from disk where that does, else by a probe, which is counted; exactly a readable identity is put into memory |
| `ShelfIndex.ShelfMemory.ShelfEntries` | apache/shelf_index.cpp:72-162 | an uncancelled listing is file by file what probing would give; hits and probes sum to the files; all readable entries are written exactly where the listing is complete and locked, changed something and they may be stored; what is kept and saved is readable and true to its stamp |
| `ShelfIndex.EntryIsThis` | apache/shelf_index.cpp:119-140 | the entry of a probed file: its title, else the short one, else its name; its date and time after a blank |
| `ShelfIndex.RememberedIsFound` | apache/shelf_index.cpp:86-94 | a stored snapshot that holds a file's name and stamp answers for it |
| `ShelfIndex.ShelfMemory.ForgetMissing` | apache/shelf_index.cpp:164-175 | removes exactly the absent direct children of the directory, although it stops at the first key without the prefix |
| `ShelfIndex.MissingExactly` | apache/shelf_index.cpp:164-175 | removed are just the paths of the directory's own files that the scan did not find |
| `ShelfIndex.PrefixedKeysAreTogether` | apache/shelf_index.cpp:169-171 | in key order nothing with the prefix follows a key past it |
| `CacheStore.Filename` | apache/cache_store.cpp:53-60 | every key has a final name, and no temporary name is one |
| `CacheStoreLaws.FilenameExactly` | apache/cache_store.cpp:53-60 | the name is the sixteen small hex digits of the checksum of the key, the highest first, and ".cache" |
| `CacheStoreLaws.StepKeeps` | apache/cache_store.cpp:82-134 | every system call of any reader or writer, every failure and every crash keeps the store's invariant |
| `CacheStoreLaws.ReadsAreWhole` | apache/cache_store.cpp:82-103 | in every run, what a read returns is all of the bytes of one completed write of that name, and what the name held when the file was opened |
| `CacheStoreLaws.ReadsAreChecked` | apache/cache_store.cpp:82-93 | before a read returns bytes it found the opened file with one name and within its limit |
| `CacheStoreLaws.CallsAreUnderTheirKeys` | apache/cache_store.cpp:82-134 | reads and writes work under the name of their key, and a write keeps the bytes that it was asked to store |
| `CacheStoreLaws.OnlyRenameChangesTheStore` | apache/cache_store.cpp:105-134 | only a rename changes what a name holds, and it leaves it holding exactly that write's bytes |
| `CacheStoreLaws.PowerFailureKeepsWholeFiles` | apache/cache_store.cpp:123-130 | a power failure leaves a name with a completed write of it or with nothing |
| `Warming.OneWalkerPerTask` | apache/index_warming.cpp:162-186 | in every interleaving with contention, stops and crashes at most one child walks a given root for a given cache directory |
| `Warming.StepsExactly` | apache/index_warming.cpp:162-228 | what every step does to the child that takes it |
| `Warming.LocksChangeExactly` | apache/index_warming.cpp:169-186 | a free lock is taken by the child that tries it, and let go by its holder only, when it leaves or crashes |
| `Warming.NoTaskIsPassedOver` | apache/index_warming.cpp:162-228 | in every run a child goes on to the very next task, and only from one that it found marked by its generation, could not lock, or walked to an end |
| `Warming.WalkStartsExactly` | apache/index_warming.cpp:169-187 | in every run, a child at its second look at the marker is the one recorded in the lock of its task and found its stop flag clear when it last looked; it starts to walk exactly when that look fails or finds another marker |
| `Warming.MarkerStands` | apache/index_warming.cpp:164-171 | a marked task's marker is that of the last child that marked it |
| `Warming.MarkerFollowsWalk` | apache/index_warming.cpp:188-228 | in every run a child marks a task only right after it walked that task to completion and found its stop flag clear |
| `Warming.BrokenWalkIsNotMarked` | apache/index_warming.cpp:188-228 | after a walk that ended stopped or incomplete a child marks that task only once it has started to walk it again |
| `Warming.WalkIsNotRepeated` | apache/index_warming.cpp:162-228 | a marked task is walked again exactly when the child's second look fails or the last child to mark the task was of another generation |
| `Warming.NoWalkAfterTheMarker` | apache/index_warming.cpp:162-228 | among children of one generation whose reads succeed no walk of a task starts once the task is marked |
| `Warming.OneCompletedWalkPerGeneration` | apache/index_warming.cpp:162-228 | children of one generation whose reads succeed complete and mark each task at most once |
| `WarmingExamples.FailedReadRepeatsTheWalk` | apache/index_warming.cpp:171-188 | a run in which a failed read makes one generation walk twice |
| `WarmingExamples.OldGenerationRepeatsTheWalk` | apache/index_warming.cpp:164-188 | a run in which an older generation makes a newer one walk twice, though every read succeeds |
| `WarmingExamples.TwoCachesWalkOneRootAtOnce` | apache/index_warming.cpp:84-114 | a run in which two children walk one root at once, each for its own cache directory |
| `Base64.Base64Encode` | apache/mcp/mcp.cpp:244-262 | the loop gives the encoding, four bytes for every three begun |
| `Base64.Base64Decode` | apache/mcp/mcp.cpp:188-221 | the loop gives the decoding, or nothing |
| `Base64Laws.EncodesExactly` | apache/mcp/mcp.cpp:244-262 | each three bytes, or the last one or two, are four letters of the alphabet of RFC 4648, table 1, with padding for the bytes that are not there |
| `Base64Laws.DecodesExactly` | apache/mcp/mcp.cpp:188-221 | a text is read exactly where it is made of groups of four letters, or of three or two and padding, and as the bytes that they mean |
| `Base64.EncodedDecodes` | apache/mcp/mcp.cpp:188-262 | decoding an encoding gives the bytes back, whatever they are |
| `Base64.DecodedEncodes` | apache/mcp/mcp.cpp:188-262 | encoding a decoding gives the text back exactly when padding only ends it and drops only zero bits |
| `Base64.PaddingInsideIsRead` | apache/mcp/mcp.cpp:188-221 | QQ==QQ== decodes to two bytes and is not their encoding |
| `Base64.LeftOverBitsAreRead` | apache/mcp/mcp.cpp:188-221 | QR== decodes to one byte and is not its encoding |
| `Percent.EncodeSegment` | apache/mcp/mcp.cpp:264-281 | percent-encodes everything but unreserved bytes |
| `PercentLaws.EncodesExactly` | apache/mcp/mcp.cpp:264-281 | letters, digits, hyphens, dots, underscores and tildes stand for themselves, every other byte is a percent sign and two capital hex digits |
| `Percent.EncodedBytes` | apache/mcp/mcp.cpp:264-281 | an encoded text holds unreserved bytes and percent signs only |
| `Percent.UriDecode` | apache/mcp/mcp.cpp:293-313 | the strict reader, which refuses an escaped slash or NUL |
| `PercentLaws.StrictExactly` | apache/mcp/mcp.cpp:293-313 | a text is read exactly where every percent sign starts an escape of a byte that is neither a slash nor NUL, and as the bytes so spelled |
| `Percent.StrictRoundTrip` | apache/mcp/mcp.cpp:264-313 | the strict reader gives an encoded identifier back exactly when it holds no slash and no NUL, and refuses it otherwise |
| `Percent.DecodeSegment` | win32/book_source.cpp:73-94 | the lenient reader: a percent sign that no escape follows stands for itself |
| `PercentLaws.LenientExactly` | win32/book_source.cpp:75-94 | every escape is read as its byte and everything else as it stands |
| `PercentLaws.LooselySpellsOne` | win32/book_source.cpp:75-94 | so every text is read as one string only |
| `Percent.LenientRoundTrip` | win32/book_source.cpp:60-94 | the lenient reader gives every encoded text back |
| `McpAddress.SplitPath` | apache/mcp/mcp.cpp:711-721 | the loop gives the pieces of a path |
| `McpAddress.JoinedSplits` | apache/mcp/mcp.cpp:711-721 | splitting undoes joining pieces that hold no slash, except that an empty last piece is not seen |
| `McpAddress.ReadRoute` | apache/mcp/mcp.cpp:723-790 | routes an address as the branches of `read_resource` do |
| `AddressLaws.RoutesExactly` | apache/mcp/mcp.cpp:711-790 | any address at all is routed by its parts between slashes, a slash at its end adding none, and is not found outside the shelf |
| `McpAddress.ListResources` | apache/mcp/mcp.cpp:661-676 | publishes the shelf and two addresses for every book |
| `AddressLaws.AddressesAre` | apache/mcp/mcp.cpp:661-698 | the published addresses: geist://shelf/book/, the encoded identifier, and for the others toc, topic or resource with its form |
| `AddressLaws.PublishedInOrder` | apache/mcp/mcp.cpp:661-676 | the shelf first, then for each book its own address and its table of contents |
| `McpAddress.BookAddressResolves` | apache/mcp/mcp.cpp:661-751 | a book address is routed to its own book exactly when the identifier is not empty and holds no slash and no NUL, else it is not found |
| `McpAddress.TocAddressResolves` | apache/mcp/mcp.cpp:661-758 | the same for its table of contents, where an empty identifier is found too |
| `McpAddress.TopicAddressResolves` | apache/mcp/mcp.cpp:678-773 | a topic address resolves to book, topic and format exactly when both identifiers are path-safe |
| `McpAddress.ResourceAddressResolves` | apache/mcp/mcp.cpp:678-787 | the same for a resource and its representation |
| `McpAddress.PublishedAddressesAreFound` | apache/mcp/mcp.cpp:661-790 | every published address is found exactly when every identifier is one that resolves |
| `McpAddress.EmptyIdentifierIsLost` | apache/mcp/mcp.cpp:661-758 | a book without an identifier is published and not found, though its table of contents is |
| `McpAddress.SlashIdentifierIsLost` | apache/mcp/mcp.cpp:661-758 | a book whose identifier is a slash is published and neither of its addresses is found |
| `ReaderUrl.ParseUrl` | win32/book_source.cpp:97-127 | reads scheme, fragment, query, host and path in the order of the code |
| `AddressLaws.ParsesExactly` | win32/book_source.cpp:97-127 | an address is read exactly where it is the scheme in any case, a host, one of two paths, an identifier, perhaps a query and perhaps a fragment, and as those |
| `AddressLaws.WrittenUrlsAre` | win32/book_source.cpp:244-253 | the addresses that the reader writes |
| `ReaderUrl.UrlComesBack` | win32/book_source.cpp:97-127 | an address is read back whole exactly when its identifier is not empty and its host is in lower case without slash, question mark or hash sign |
| `ReaderUrl.TopicUrlComesBack` | win32/book_source.cpp:244-253 | the same for the topic and object addresses that the reader writes |
| `RestIdentifier.DecodeIdentifier` | apache/rest/rest.cpp:69-93 | decodes one part of a request address, or refuses it |
| `PercentLaws.IdentifierExactly` | apache/rest/rest.cpp:69-93 | a part is accepted exactly where it is short enough, spells UTF-8 without control characters, and in a path without slashes and is not one of the dots |
| `RestIdentifier.AcceptedIsWritable` | apache/rest/rest.cpp:69-93 | an accepted identifier is UTF-8 without control characters, and as JSON it is written and parsed back |
| `RestIdentifier.EncodedIdentifierComesBack` | apache/rest/rest.cpp:69-93 | a percent-encoded identifier comes back exactly when it is UTF-8, clean, short enough and not one of the dots |

## Left out

- Byte offsets are unbounded naturals: the casts to 32-bit offsets in `src/container/logical.cpp` are not modelled; a BOO file is far below 4 GiB.
- `unmapped_word_indices` and token ordinals of `LogicalTokenIR`: a token's ordinal is its index here.
- SliceText.SliceReadsTheSame: does not say when two different token runs happen to spell the same text; the tokens themselves are compared exactly by `Redecode.WindowIsReadAgain`.
- RecordPipeline.DecodeSource: the margin marks, which `assign_display_line_margin_marks` notes on the display lines and the check of the segments does not read, are not part of this model.
- ControlIR.ReadWords: the opcode vocabulary of `classify` and the operand grammars of `cfont`, `cz`, `c.sp`, `c.rev` and framed `csummary` are parameters; only the ranges they produce are modelled, and for a revision definition not even their order, which the verifier does not check either.
- JsonErrors.ErrorsPointAtTheirReason: of the three limits (depth, string size, entries) and of a repeated key it says only that the offset lies in the text.
- SpanSearch.TokensMeeting: where a token hides another it promises what some stop of a bisection gives, since `std::lower_bound` promises nothing there.
- The catalog lookups behind `McpAddress.ReadRoute`: a route names the call that would be made, not its answer.
- `JsonValue(double)` formatting, and exceptions other than the writer's and the parser's own.
- ShelfIndex.ShelfMemory.ShelfEntries: probes, stamps, the cancel flag and what other threads do to the shared map between two files are inputs of a visit; a stamp is assumed to determine what a probe reads, and two keys in use are assumed not to share a file name.
- CacheStore.Filename: distinct keys may share a name; the laws are about names, so a collision shows as another key's bytes.
- The directory walk inside `Warmer::run` (its limits of 1,000,000 entries and 256 levels, symlinks, `tasks_for` and per-directory configuration) is one step of the election that ends complete or not.
- `flock`, `openat`, `renameat`, `fsync`, signals and clocks are steps of a state machine; descriptor leaks and permissions are not modelled.
- Code pages and the dictionary builder: the dictionary is an arbitrary map; the upper-case map of Latin-1 letters is not used by the assembler.
- `parse_content_page_record_starts` and `parse_topic_record_starts`, which only adjust the last number of a paged index.
- HTTP handling, OpenAPI text, HTML, rendering, COM, Qt, AppKit and browser code, and IR lowering: user interface and plumbing.
