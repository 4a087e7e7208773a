// The two bisections over an assembled record: bytes to words (control_ir.cpp) and words to tokens (source_segments.cpp).
module SpanSearch {
  import opened Bytes
  import opened Tokens
  import opened Ascii
  import opened Assembly
  import AssemblyLaws

  datatype Range = Range(begin: nat, end: nat)

  // ----- bisection

  /** Where a bisection for the first element that is not `before` may stop. On elements that are not in order
      there can be several such places. */
  ghost predicate MayStop<T(!new)>(s: seq<T>, before: T -> bool, i: nat) {
    && i <= |s|
    && (i > 0 ==> before(s[i - 1]))
    && (i < |s| ==> !before(s[i]))
  }

  /** `std::lower_bound` and `std::upper_bound`. */
  method Bisect<T(!new)>(s: seq<T>, before: T -> bool) returns (first: nat)
    ensures MayStop(s, before, first)
  {
    first := 0;
    var length: nat := |s|;
    while length > 0
      invariant first + length <= |s|
      invariant first > 0 ==> before(s[first - 1])
      invariant first + length < |s| ==> !before(s[first + length])
    {
      var half := length / 2;
      if before(s[first + half]) {
        first, length := first + half + 1, length - half - 1;
      } else {
        length := half;
      }
    }
  }

  // ----- bytes and words

  /** The byte at which word `k` starts. */
  function Offset(words: Words, k: nat): nat
    requires k <= |words|
  {
    |TextOf(words[..k])|
  }

  lemma OffsetNext(words: Words, k: nat)
    requires k < |words|
    ensures Offset(words, k + 1) == Offset(words, k) + WordWidth(words[k])
  {
    assert words[..k + 1][..k] == words[..k];
  }

  lemma {:induction false} OffsetsIncrease(words: Words, i: nat, j: nat)
    requires i <= j <= |words|
    ensures if i == j then Offset(words, i) == Offset(words, j) else Offset(words, i) < Offset(words, j)
    decreases j
  {
    if i < j {
      OffsetsIncrease(words, i, j - 1);
      OffsetNext(words, j - 1);
    }
  }

  /** The first index from `k` on whose offset is at least `byte`; past the last one if there is none. */
  function FirstReaching(words: Words, k: nat, byte: nat): (i: nat)
    requires k <= |words| + 1
    ensures k <= i <= |words| + 1
    ensures forall j | k <= j < i :: Offset(words, j) < byte
    ensures i <= |words| ==> Offset(words, i) >= byte
    decreases |words| + 1 - k
  {
    if k > |words| || Offset(words, k) >= byte then k else FirstReaching(words, k + 1, byte)
  }

  /** The words that a byte range touches, by a walk over the running offsets. */
  function BytesToWords(words: Words, bytes: Range): Range {
    var count := |words|;
    var first, last := FirstReaching(words, 1, bytes.begin + 1), FirstReaching(words, 1, bytes.end);
    var end := if last <= count then last else count;
    Range(if bytes.begin == bytes.end then end else if first <= count then first - 1 else count, end)
  }

  /** The offsets are the running offsets of the words. */
  ghost predicate Measures(words: Words, offsets: seq<nat>) {
    |offsets| == |words| + 1 && forall k | 0 <= k <= |words| :: offsets[k] == Offset(words, k)
  }

  /** `decoded_byte_range_to_word_range`. */
  method ByteRangeToWordRange(words: Words, offsets: seq<nat>, bytes: Range) returns (r: Range)
    requires Measures(words, offsets)
    ensures r == BytesToWords(words, bytes)
  {
    var count := |words|;
    var begin, end := count, count;
    var first := Bisect(offsets[1..], offset => offset <= bytes.begin);
    StopIsFirst(words, offsets, bytes.begin + 1, offset => offset <= bytes.begin, first);
    if first < |offsets| - 1 { begin := first; }
    var last := Bisect(offsets[1..], offset => offset < bytes.end);
    StopIsFirst(words, offsets, bytes.end, offset => offset < bytes.end, last);
    if last < |offsets| - 1 { end := last + 1; }
    if bytes.begin == bytes.end { begin := end; }
    r := Range(begin, end);
  }

  lemma StopIsFirst(words: Words, offsets: seq<nat>, byte: nat, before: nat -> bool, stop: nat)
    requires Measures(words, offsets) && MayStop(offsets[1..], before, stop)
    requires forall offset: nat :: before(offset) <==> offset < byte
    ensures stop + 1 == FirstReaching(words, 1, byte)
  {
    var first := FirstReaching(words, 1, byte);
    assert forall k | 0 <= k < |words| :: offsets[1..][k] == offsets[k + 1];
    if first <= stop { OffsetsIncrease(words, first, stop); }
  }

  /** `decoded_word_range_to_byte_range`. */
  function WordsToBytes(words: Words, range: Range): Range {
    Range(Offset(words, if range.begin <= |words| then range.begin else |words|),
          Offset(words, if range.end <= |words| then range.end else |words|))
  }

  /** Word `w` shows at least one byte of the range. */
  ghost predicate Touches(words: Words, w: nat, bytes: Range)
    requires w < |words|
  {
    Offset(words, w) < bytes.end && bytes.begin < Offset(words, w + 1)
  }

  /** A byte range inside the text that is not empty becomes exactly the words that it touches. */
  lemma BytesTouchWords(words: Words, bytes: Range, w: nat)
    requires bytes.begin < bytes.end <= |TextOf(words)| && w < |words|
    ensures var r := BytesToWords(words, bytes);
            r.begin < r.end <= |words| && (r.begin <= w < r.end <==> Touches(words, w, bytes))
  {
    hide Offset;
    OffsetOfAll(words);
    var first, last := FirstReaching(words, 1, bytes.begin + 1), FirstReaching(words, 1, bytes.end);
    if last < first { OffsetsIncrease(words, last, first); }
    if w + 1 < first { OffsetsIncrease(words, w + 1, first); } else { OffsetsIncrease(words, first, w + 1); }
    if w < last { OffsetsIncrease(words, w, last); } else { OffsetsIncrease(words, last, w); }
  }

  lemma OffsetOfAll(words: Words)
    ensures Offset(words, |words|) == |TextOf(words)| && Offset(words, 0) == 0
  {
    assert words[..|words|] == words && words[..0] == [];
  }

  /** Going from words to bytes and back gives the same range of words. An empty range comes back too, except the
      one before the first word of a text that has words. */
  lemma WordsComeBack(words: Words, range: Range)
    requires range.begin <= range.end <= |words|
    ensures BytesToWords(words, WordsToBytes(words, range)) == range
            <==> range.begin < range.end || range.begin > 0 || words == []
  {
    hide Offset;
    OffsetOfAll(words);
    var bytes := WordsToBytes(words, range);
    OffsetsIncrease(words, range.begin, range.end);
    var first, last := FirstReaching(words, 1, bytes.begin + 1), FirstReaching(words, 1, bytes.end);
    if range.end > 0 {
      if last < range.end { OffsetsIncrease(words, last, range.end); }
      assert last == range.end;
    }
    if range.begin < range.end {
      OffsetsIncrease(words, range.begin, range.begin + 1);
      if first < range.begin + 1 { OffsetsIncrease(words, first, range.begin); }
      assert first == range.begin + 1;
    }
  }

  /** The empty range before the only word of a text comes back as the empty range after it. */
  lemma EmptyRangeMoves()
    ensures BytesToWords(['x' as int], WordsToBytes(['x' as int], Range(0, 0))) == Range(1, 1)
  {
    OffsetOfAll(['x' as int]);
    OffsetsIncrease(['x' as int], 0, 1);
  }

  /** Going from bytes to words and back only ever widens a range to the words it touches; it gives the same
      bytes exactly when the range starts and ends where words do. */
  lemma BytesComeBackWidened(words: Words, bytes: Range)
    requires bytes.begin < bytes.end <= |TextOf(words)|
    ensures var back := WordsToBytes(words, BytesToWords(words, bytes));
            && back.begin <= bytes.begin && bytes.end <= back.end
            && (back == bytes <==> StartsWord(words, bytes.begin) && StartsWord(words, bytes.end))
  {
    hide Offset;
    OffsetOfAll(words);
    var r := BytesToWords(words, bytes);
    var first, last := FirstReaching(words, 1, bytes.begin + 1), FirstReaching(words, 1, bytes.end);
    BytesTouchWords(words, bytes, 0);
    if StartsWord(words, bytes.begin) {
      var k :| 0 <= k <= |words| && Offset(words, k) == bytes.begin;
      if k < |words| { OffsetsIncrease(words, k, k + 1); }
      if first < k + 1 { OffsetsIncrease(words, first, k); }
    }
    if StartsWord(words, bytes.end) {
      var k :| 0 <= k <= |words| && Offset(words, k) == bytes.end;
      if last < k { OffsetsIncrease(words, last, k); }
    }
  }

  ghost predicate StartsWord(words: Words, byte: nat) {
    exists k :: 0 <= k <= |words| && Offset(words, k) == byte
  }

  // ----- words and tokens

  /** `output_spans_intersect`, for a query and a token. A token without words counts where it stands strictly
      inside the query. */
  predicate Meets(query: Range, span: Span) {
    query.begin < span.end && span.begin < query.end
  }

  /** The tokens that meet the query, by a walk over every token. */
  function Meeting(spans: seq<Span>, query: Range): seq<nat> {
    if spans == [] then []
    else (if Meets(query, spans[0]) then [spans[0].token] else []) + Meeting(spans[1..], query)
  }

  /** The tokens that the search collects from `spans` on: it stops at the first one past the query. */
  function Collected(spans: seq<Span>, query: Range): seq<nat> {
    if spans == [] || spans[0].begin >= query.end then []
    else (if Meets(query, spans[0]) then [spans[0].token] else []) + Collected(spans[1..], query)
  }

  /** The search passes over a token that ends by the query's begin. */
  function Passed(query: Range): Span -> bool {
    (span: Span) => span.end <= query.begin
  }

  /** The words of a text that a query asks for. */
  function Clipped(query: Range, count: nat): Range {
    Range(query.begin, if query.end <= count then query.end else count)
  }

  /** What a search for the words of `asked` may give: from some place where the bisection may stop. */
  ghost predicate IsFound(spans: seq<Span>, count: nat, asked: Range, result: seq<nat>) {
    if asked.begin >= asked.end || asked.begin >= count then result == []
    else
      var query := Clipped(asked, count);
      exists first: nat :: MayStop(spans, Passed(query), first) && result == Collected(spans[first..], query)
  }

  /** `source_tokens_intersecting_output`. */
  method TokensMeeting(spans: seq<Span>, count: nat, asked: Range) returns (result: seq<nat>)
    ensures IsFound(spans, count, asked, result)
    ensures InOrder(spans) && NoneHidden(spans, count) && asked.begin < asked.end && asked.begin < count ==>
              result == Meeting(spans, Clipped(asked, count))
  {
    hide InOrder, NoneHidden, Meeting, MayStop;
    result := [];
    if asked.begin >= asked.end || asked.begin >= count { return; }
    var query := Clipped(asked, count);
    var first := Bisect(spans, Passed(query));
    result := CollectFrom(spans, first, query);
    if InOrder(spans) && NoneHidden(spans, count) { SearchIsWalk(spans, count, query, first); }
  }

  method CollectFrom(spans: seq<Span>, first: nat, query: Range) returns (result: seq<nat>)
    requires first <= |spans|
    ensures result == Collected(spans[first..], query)
  {
    result := [];
    var at := first;
    while at < |spans|
      invariant first <= at <= |spans|
      invariant result + Collected(spans[at..], query) == Collected(spans[first..], query)
    {
      var span := spans[at];
      assert spans[at..][1..] == spans[at + 1..];
      if span.begin >= query.end { break; }
      if Meets(query, span) {
        Associate(result, [span.token], Collected(spans[at + 1..], query));
        result := result + [span.token];
      }
      at := at + 1;
    }
  }

  /** What assembling keeps: a token with words ends before every later token begins. */
  ghost predicate InOrder(spans: seq<Span>) {
    && (forall t | 0 <= t < |spans| :: spans[t].begin <= spans[t].end)
    && OnlyEmptyGoesStale(spans)
  }

  ghost predicate BeginsInOrder(spans: seq<Span>) {
    forall t, u | 0 <= t < u < |spans| :: spans[t].begin <= spans[u].begin
  }

  /** Token `t` hides the later token `u`: it begins behind it, and some query that the text can answer tells them
      apart. */
  ghost predicate Hides(spans: seq<Span>, count: nat, t: nat, u: nat)
    requires t < |spans| && u < |spans|
  {
    spans[t].begin > spans[u].begin && spans[u].begin < count && (spans[u].end > 0 || spans[t].begin < count)
  }

  ghost predicate NoneHidden(spans: seq<Span>, count: nat) {
    forall t, u | 0 <= t < u < |spans| :: !Hides(spans, count, t, u)
  }

  lemma AssembledIsInOrder(tokens: seq<Words>, sources: seq<Source>, spans: seq<Span>)
    requires SpansHold(tokens, sources, spans)
    ensures InOrder(spans)
  {
  }

  lemma {:induction false} NoneMeet(spans: seq<Span>, query: Range)
    requires forall t | 0 <= t < |spans| :: !Meets(query, spans[t])
    ensures Meeting(spans, query) == []
  {
    if spans != [] { NoneMeet(spans[1..], query); }
  }

  lemma {:induction false} MeetingConcat(a: seq<Span>, b: seq<Span>, query: Range)
    ensures Meeting(a + b, query) == Meeting(a, query) + Meeting(b, query)
  {
    if a == [] {
      assert a + b == b;
    } else {
      assert (a + b)[1..] == a[1..] + b;
      MeetingConcat(a[1..], b, query);
    }
  }

  /** A walk gives exactly the tokens whose words overlap the query; one without words counts strictly inside it. */
  lemma {:induction false} MeetingExactly(spans: seq<Span>, query: Range, token: nat)
    ensures token in Meeting(spans, query)
            <==> exists t :: 0 <= t < |spans| && spans[t].token == token
                             && spans[t].begin < query.end && query.begin < spans[t].end
  {
    if spans != [] {
      MeetingExactly(spans[1..], query, token);
      assert forall t | 0 <= t < |spans[1..]| :: spans[1..][t] == spans[t + 1];
      if t :| 0 <= t < |spans| && spans[t].token == token && spans[t].begin < query.end && query.begin < spans[t].end {
        if t > 0 { assert spans[1..][t - 1] == spans[t]; }
      }
    }
  }

  lemma {:induction false} CollectedMeet(spans: seq<Span>, query: Range, token: nat)
    requires token in Collected(spans, query)
    ensures exists t :: 0 <= t < |spans| && spans[t].token == token
                        && spans[t].begin < query.end && query.begin < spans[t].end
  {
    if token in Collected(spans[1..], query) {
      CollectedMeet(spans[1..], query, token);
      var t :| 0 <= t < |spans[1..]| && spans[1..][t].token == token
               && spans[1..][t].begin < query.end && query.begin < spans[1..][t].end;
      assert spans[t + 1] == spans[1..][t];
    } else {
      assert spans[0].token == token;
    }
  }

  /** Whatever a search gives overlaps what was asked for, inside the text. */
  lemma FoundMeets(spans: seq<Span>, count: nat, asked: Range, result: seq<nat>, token: nat)
    requires IsFound(spans, count, asked, result) && token in result
    ensures exists t :: 0 <= t < |spans| && spans[t].token == token && spans[t].begin < asked.end && spans[t].begin < count
                        && asked.begin < spans[t].end
  {
    var query := Clipped(asked, count);
    var first: nat :| MayStop(spans, Passed(query), first) && result == Collected(spans[first..], query);
    CollectedMeet(spans[first..], query, token);
    var t :| 0 <= t < |spans[first..]| && spans[first..][t].token == token
             && spans[first..][t].begin < query.end && query.begin < spans[first..][t].end;
    assert spans[first + t] == spans[first..][t];
  }

  /** Cutting the walk off at the first token past the query loses nothing where no token hides another. */
  lemma {:induction false} CutOffIsSafe(spans: seq<Span>, count: nat, query: Range)
    requires NoneHidden(spans, count) && query.end <= count
    ensures Collected(spans, query) == Meeting(spans, query)
  {
    if spans != [] {
      if spans[0].begin >= query.end {
        forall u | 0 <= u < |spans| ensures !Meets(query, spans[u]) {
          if u > 0 { assert !Hides(spans, count, 0, u); }
        }
        NoneMeet(spans, query);
      } else {
        forall t, u | 0 <= t < u < |spans[1..]| ensures !Hides(spans[1..], count, t, u) {
          assert !Hides(spans, count, t + 1, u + 1);
        }
        CutOffIsSafe(spans[1..], count, query);
      }
    }
  }

  /** Where no token hides another, the search is the walk, wherever the bisection stops. */
  lemma SearchIsWalk(spans: seq<Span>, count: nat, query: Range, first: nat)
    requires InOrder(spans) && NoneHidden(spans, count) && MayStop(spans, Passed(query), first)
    requires query.begin < query.end <= count
    ensures Collected(spans[first..], query) == Meeting(spans, query)
  {
    hide InOrder, NoneHidden, Meets;
    var left, right := spans[..first], spans[first..];
    assert spans == left + right;
    forall t | 0 <= t < first ensures !Meets(query, left[t]) { PassedDoNotMeet(spans, count, query, first, t); }
    NoneMeet(left, query);
    MeetingConcat(left, right, query);
    LaterHideNothing(spans, count, first);
    CutOffIsSafe(right, count, query);
  }

  lemma PassedDoNotMeet(spans: seq<Span>, count: nat, query: Range, first: nat, t: nat)
    requires InOrder(spans) && NoneHidden(spans, count) && MayStop(spans, Passed(query), first)
    requires query.begin < query.end <= count && t < first
    ensures !Meets(query, spans[t])
  {
    var last := first - 1;
    if t < last {
      assert !Hides(spans, count, t, last);
      assert spans[t].begin < spans[t].end ==> spans[t].end <= spans[last].begin;
    }
  }

  lemma LaterHideNothing(spans: seq<Span>, count: nat, first: nat)
    requires NoneHidden(spans, count) && first <= |spans|
    ensures NoneHidden(spans[first..], count)
  {
    var right := spans[first..];
    forall t, u | 0 <= t < u < |right| ensures !Hides(right, count, t, u) {
      assert !Hides(spans, count, t + first, u + first);
    }
  }

  /** Whatever a search gives is in token order. */
  lemma {:induction false} CollectedAscends(spans: seq<Span>, query: Range, from: nat, count: nat)
    requires forall k | 0 <= k < |spans| :: spans[k].token == from + k
    requires from + |spans| == count
    ensures forall k | 0 <= k < |Collected(spans, query)| :: from <= Collected(spans, query)[k] < count
    ensures forall j, k | 0 <= j < k < |Collected(spans, query)| :: Collected(spans, query)[j] < Collected(spans, query)[k]
  {
    if spans != [] && spans[0].begin < query.end {
      CollectedAscends(spans[1..], query, from + 1, count);
      var rest := Collected(spans[1..], query);
      var head := if Meets(query, spans[0]) then [spans[0].token] else [];
      assert Collected(spans, query) == head + rest;
    }
  }

  lemma FoundAscends(spans: seq<Span>, count: nat, asked: Range, result: seq<nat>)
    requires Numbered(spans) && IsFound(spans, count, asked, result)
    ensures forall k | 0 <= k < |result| :: result[k] < |spans|
    ensures forall j, k | 0 <= j < k < |result| :: result[j] < result[k]
  {
    if asked.begin < asked.end && asked.begin < count {
      var query := Clipped(asked, count);
      var first: nat :| MayStop(spans, Passed(query), first) && result == Collected(spans[first..], query);
      CollectedAscends(spans[first..], query, first, |spans|);
    }
  }

  lemma FoundIsWalk(spans: seq<Span>, count: nat, asked: Range, result: seq<nat>)
    requires InOrder(spans) && NoneHidden(spans, count) && IsFound(spans, count, asked, result)
    requires asked.begin < asked.end && asked.begin < count
    ensures result == Meeting(spans, Clipped(asked, count))
  {
    var query := Clipped(asked, count);
    var first: nat :| MayStop(spans, Passed(query), first) && result == Collected(spans[first..], query);
    SearchIsWalk(spans, count, query, first);
  }

  // ----- the search is the walk only where no token hides another

  /** Wherever the bisection stops, for every query that is left after clipping, the search gives what the walk gives. */
  ghost predicate SearchRefinesWalk(spans: seq<Span>, count: nat) {
    forall begin: nat, end: nat, first: nat | begin < end <= count && MayStop(spans, Passed(Range(begin, end)), first) ::
      Collected(spans[first..], Range(begin, end)) == Meeting(spans, Range(begin, end))
  }

  lemma {:induction false} MeetingHas(spans: seq<Span>, query: Range, u: nat)
    requires u < |spans| && Meets(query, spans[u])
    ensures spans[u].token in Meeting(spans, query)
  {
    if u > 0 { MeetingHas(spans[1..], query, u - 1); }
  }

  lemma {:induction false} CollectedOnlyBefore(spans: seq<Span>, query: Range, t: nat, token: nat)
    requires t < |spans| && spans[t].begin >= query.end
    requires forall k | 0 <= k < t :: spans[k].token != token
    ensures token !in Collected(spans, query)
  {
    if t > 0 && spans[0].begin < query.end {
      assert forall k | 0 <= k < t - 1 :: spans[1..][k] == spans[k + 1];
      CollectedOnlyBefore(spans[1..], query, t - 1, token);
    }
  }

  lemma {:induction false} CollectedAreLater(spans: seq<Span>, query: Range, token: nat)
    requires forall k | 0 <= k < |spans| :: spans[k].token != token
    ensures token !in Collected(spans, query)
  {
    if spans != [] { CollectedAreLater(spans[1..], query, token); }
  }

  ghost predicate Numbered(spans: seq<Span>) {
    forall t | 0 <= t < |spans| :: spans[t].token == t
  }

  /** A bisection may stop at or before any token that is not passed. */
  lemma {:induction false} StopsBy(spans: seq<Span>, query: Range, t: nat) returns (first: nat)
    requires t < |spans| && !Passed(query)(spans[t])
    ensures first <= t && MayStop(spans, Passed(query), first)
  {
    first := t;
    while first > 0 && spans[first - 1].end > query.begin
      invariant first <= t && !Passed(query)(spans[first])
    {
      first := first - 1;
    }
  }

  /** A bisection may stop after any token that is passed. */
  lemma {:induction false} StopsAfter(spans: seq<Span>, query: Range, t: nat) returns (first: nat)
    requires t < |spans| && Passed(query)(spans[t])
    ensures t < first && MayStop(spans, Passed(query), first)
  {
    first := t + 1;
    while first < |spans| && spans[first].end <= query.begin
      invariant t < first <= |spans| && Passed(query)(spans[first - 1])
    {
      first := first + 1;
    }
  }

  /** A token that hides another makes some query of the text miss a token. */
  lemma StaleBeginMisses(spans: seq<Span>, count: nat, t: nat, u: nat)
    requires InOrder(spans) && Numbered(spans) && t < u < |spans| && Hides(spans, count, t, u)
    ensures !SearchRefinesWalk(spans, count)
  {
    hide MayStop, Collected, Meeting, SearchRefinesWalk;
    if spans[u].end > 0 {
      var begin := if spans[u].begin < spans[u].end then spans[u].begin else spans[u].begin - 1;
      var query := Range(begin, spans[u].begin + 1);
      var first := StopsBy(spans, query, t);
      CollectedOnlyBefore(spans[first..], query, t - first, u);
      Missed(spans, count, query, first, u);
    } else {
      var query := Range(0, spans[t].begin + 1);
      var first := StopsAfter(spans, query, u);
      CollectedAreLater(spans[first..], query, t);
      Missed(spans, count, query, first, t);
    }
  }

  lemma Missed(spans: seq<Span>, count: nat, query: Range, first: nat, missed: nat)
    requires query.begin < query.end <= count && MayStop(spans, Passed(query), first)
    requires missed < |spans| && spans[missed].token == missed && Meets(query, spans[missed])
    requires missed !in Collected(spans[first..], query)
    ensures !SearchRefinesWalk(spans, count)
  {
    MeetingHas(spans, query, missed);
    assert query == Range(query.begin, query.end);
  }

  /** On the spans of an assembled record the search gives what a walk over all tokens gives, for every query of the
      text and wherever the bisection stops, exactly when no token hides another. */
  lemma SearchIsWalkExactly(spans: seq<Span>, count: nat)
    requires InOrder(spans) && Numbered(spans)
    ensures SearchRefinesWalk(spans, count) <==> NoneHidden(spans, count)
  {
    if NoneHidden(spans, count) {
      forall begin: nat, end: nat, first: nat | begin < end <= count && MayStop(spans, Passed(Range(begin, end)), first)
        ensures Collected(spans[first..], Range(begin, end)) == Meeting(spans, Range(begin, end))
      {
        SearchIsWalk(spans, count, Range(begin, end), first);
      }
    } else {
      var t, u :| 0 <= t < u < |spans| && Hides(spans, count, t, u);
      StaleBeginMisses(spans, count, t, u);
    }
  }

  /** Begins that are in order hide nothing. */
  lemma InOrderHidesNothing(spans: seq<Span>, count: nat)
    requires BeginsInOrder(spans)
    ensures NoneHidden(spans, count)
  {
  }

  // ----- when the begins of a record are in order

  /** A lone control 2 adds nothing to the text, and so does a lone control 0 or 1 where text stands before it. */
  predicate AddsNothing(token: Words, textBefore: bool) {
    |token| == 1 && (token[0] == 2 || (token[0] <= 1 && textBefore))
  }

  /** Token `t` adds nothing to a text that ends in a blank, and the next token takes that blank back. */
  predicate GoesStale(tokens: seq<Words>, t: nat)
    requires t + 1 < |tokens|
  {
    var words := Run(tokens, t + 1).words;
    && AddsNothing(tokens[t], Run(tokens, t).words != [])
    && words != [] && words[|words| - 1] == BLANK && AssemblyLaws.AttachesLeft(tokens[t + 1])
  }

  lemma NextBegin(tokens: seq<Words>, t: nat)
    requires t + 1 < |tokens|
    ensures BeginOf(tokens, t) > BeginOf(tokens, t + 1) <==> GoesStale(tokens, t)
  {
    AssemblyLaws.WordsAfterToken(tokens, t);
    hide Run;
    var after := Run(tokens, t + 1);
    var added := after.words[|Kept(Run(tokens, t), tokens[t]).words|..];
    assert |after.words| == BeginOf(tokens, t) + |added|;
    assert added == [] <==> AddsNothing(tokens[t], Run(tokens, t).words != []);
  }

  lemma {:induction false} BeginsGrow(tokens: seq<Words>, t: nat, u: nat)
    requires t <= u < |tokens| && forall k | t <= k < u :: !GoesStale(tokens, k)
    ensures BeginOf(tokens, t) <= BeginOf(tokens, u)
    decreases u
  {
    hide BeginOf, GoesStale;
    if t < u {
      BeginsGrow(tokens, t, u - 1);
      NextBegin(tokens, u - 1);
    }
  }

  /** The begins of an assembled record are in order exactly when no token goes stale. */
  lemma BeginsInOrderExactly(tokens: seq<Words>, sources: seq<Source>, spans: seq<Span>)
    requires SpansHold(tokens, sources, spans) && |spans| == |tokens|
    ensures BeginsInOrder(spans) <==> forall t | 0 <= t < |tokens| - 1 :: !GoesStale(tokens, t)
  {
    hide BeginOf, GoesStale, OwnersHold, OnlyEmptyGoesStale;
    assert forall t | 0 <= t < |spans| :: spans[t].begin == BeginOf(tokens, t);
    if BeginsInOrder(spans) {
      forall t | 0 <= t < |tokens| - 1 ensures !GoesStale(tokens, t) {
        assert spans[t].begin <= spans[t + 1].begin;
        NextBegin(tokens, t);
      }
    }
    if forall t | 0 <= t < |tokens| - 1 :: !GoesStale(tokens, t) {
      forall t, u | 0 <= t < u < |spans| ensures spans[t].begin <= spans[u].begin {
        BeginsGrow(tokens, t, u);
      }
    }
  }

  const FOO: Words := ['f' as int, 'o' as int, 'o' as int]

  /** After two tokens: "foo" and its blank. */
  lemma StaleStart()
    ensures var two := Run(AssemblyLaws.StaleTokens(), 2);
            two.words == FOO + [BLANK] && forall p | 0 <= p < 4 :: two.sources[p].token == 0
  {
    hide Run, BodySources;
    var tokens := AssemblyLaws.StaleTokens();
    NothingYet(tokens);
    AssemblyLaws.WordsAfterToken(tokens, 0);
    AssemblyLaws.WordsAfterToken(tokens, 1);
    SourcesOwned(tokens, 0);
    SourcesOwned(tokens, 1);
    AssemblyLaws.TurnIs(tokens, 1);
    assert Run(tokens, 1).words == FOO + [BLANK];
  }

  /** The third token takes the blank back. */
  lemma StaleText()
    ensures var text := Assembled(AssemblyLaws.StaleTokens());
            && text.words == FOO + ['x' as int]
            && |text.sources| == 4 && text.sources[3].token == 2
            && forall p | 0 <= p < 3 :: text.sources[p].token == 0
  {
    StaleStart();
    hide Run, BodySources;
    var tokens := AssemblyLaws.StaleTokens();
    var two, three := Run(tokens, 2), Run(tokens, 3);
    AssemblyLaws.WordsAfterToken(tokens, 2);
    SourcesOwned(tokens, 2);
    assert Kept(two, tokens[2]).words == FOO;
    assert three.words == FOO + ['x' as int] + [BLANK];
  }

  lemma StaleSpans(spans: seq<Span>)
    requires |spans| == 3 && SpansHold(AssemblyLaws.StaleTokens(), Assembled(AssemblyLaws.StaleTokens()).sources, spans)
    ensures Numbered(spans) && spans[0].begin == 0 && spans[0].end == 3
    ensures spans[1].begin == spans[1].end == 4 && spans[2].begin == 3 && spans[2].end == 4
  {
    AssemblyLaws.EmptySpanGoesStale();
    StaleText();
    var tokens := AssemblyLaws.StaleTokens();
    var sources := Assembled(tokens).sources;
    assert spans[1].begin == 4 by { assert spans[1] == HeadOf(tokens[1], 1, 4, spans[1].end); }
    assert spans[2].begin == 3 by { assert spans[2] == HeadOf(tokens[2], 2, 3, spans[2].end); }
    assert sources[3].token == 2;
    assert sources[2].token == 0;
  }

  /** The record "foo", a lone control 2, "x" joined on: its last word is the third token's, and no search for
      that word finds it. */
  lemma StaleTokenHidesAnother(spans: seq<Span>)
    requires |spans| == 3 && SpansHold(AssemblyLaws.StaleTokens(), Assembled(AssemblyLaws.StaleTokens()).sources, spans)
    ensures Assembled(AssemblyLaws.StaleTokens()).words == FOO + ['x' as int]
    ensures Meeting(spans, Range(3, 4)) == [2]
    ensures forall first: nat | MayStop(spans, Passed(Range(3, 4)), first) :: Collected(spans[first..], Range(3, 4)) == []
  {
    hide SpansHold, Assembled;
    StaleSpans(spans);
    StaleText();
    var query := Range(3, 4);
    assert spans[1..][1..] == [spans[2]] && Meeting([spans[2]], query) == [2];
    assert Meeting(spans[1..], query) == [2] && Meeting(spans, query) == [2];
    assert Collected(spans[1..], query) == [];
  }

  /** Begins out of order need not hide anything: the spans of "foo", a lone control 2 and a lone control 0. */
  lemma OutOfOrderButHarmless()
    ensures var spans := [Span(0, false, 3, false, 0, 3), Span(1, true, 2, true, 4, 4), Span(2, true, 0, true, 3, 3)];
            InOrder(spans) && !BeginsInOrder(spans) && NoneHidden(spans, 3)
  {
    var spans := [Span(0, false, 3, false, 0, 3), Span(1, true, 2, true, 4, 4), Span(2, true, 0, true, 3, 3)];
    assert spans[1].begin > spans[2].begin;
  }
}
