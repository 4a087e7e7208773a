// What assembling a record keeps: order, origin and text of the words, and the spans of the tokens.
module AssemblyLaws {
  import opened Tokens
  import opened Ascii
  import opened Assembly

  // ----- every word comes from its source, in token order

  ghost predicate Precedes(a: Source, b: Source) {
    a.token < b.token || (a.token == b.token && a.word < b.word)
  }

  ghost predicate Ordered(sources: seq<Source>) {
    forall i, j | 0 <= i < j < |sources| :: Precedes(sources[i], sources[j])
  }

  /** A word is a word of the token that its source names, but no leading word below 4, or the blank after that token. */
  ghost predicate ComesFrom(tokens: seq<Words>, word: Word, source: Source) {
    && source.token < |tokens|
    && var token := tokens[source.token];
       && source.hasControl == (token != [] && token[0] < 4)
       && source.control == (if token != [] && token[0] < 4 then token[0] else 3)
       && match source.kind
          case TokenWord =>
            && source.word < |token| && word == token[source.word] && (token[0] < 4 ==> source.word > 0)
          case InsertedSpace => source.word == |token| && word == 0x20
  }

  ghost predicate Traced(tokens: seq<Words>, draft: Draft) {
    && Ordered(draft.sources)
    && forall p | 0 <= p < |draft.words| :: ComesFrom(tokens, draft.words[p], draft.sources[p])
  }

  /** One turn, whatever the spacing: a blank at the end may go, the token's words come, a blank may follow. */
  lemma TurnIs(tokens: seq<Words>, n: nat)
    requires n < |tokens|
    ensures var before, kept, now := Run(tokens, n), Kept(Run(tokens, n), tokens[n]), Run(tokens, n + 1);
            var token := tokens[n];
            && (kept == before || (before.words == kept.words + [BLANK] && kept.sources <= before.sources))
            && (|| (now.words == kept.words + Body(token) && now.sources == kept.sources + BodySources(token, n))
                || (now.words == kept.words + Body(token) + [BLANK]
                    && now.sources == kept.sources + BodySources(token, n) + [SourceOf(token, n, |token|, InsertedSpace)]))
  {
    hide BodySources, SpacingAfter, Joins;
  }

  lemma {:induction false} RunIsTraced(tokens: seq<Words>, n: nat)
    requires n <= |tokens|
    ensures Traced(tokens, Run(tokens, n))
    ensures forall p | 0 <= p < |Run(tokens, n).sources| :: Run(tokens, n).sources[p].token < n
  {
    hide Run, Kept, ComesFrom, Ordered;
    NothingYet(tokens);
    if n == 0 {
      NothingIsTraced(tokens);
    } else {
      RunIsTraced(tokens, n - 1);
      TurnIs(tokens, n - 1);
      KeptIsTraced(tokens, Run(tokens, n - 1), Kept(Run(tokens, n - 1), tokens[n - 1]));
      StepIsTraced(tokens, Kept(Run(tokens, n - 1), tokens[n - 1]), n - 1);
      SourcesOwned(tokens, n - 1);
    }
  }

  lemma NothingIsTraced(tokens: seq<Words>)
    ensures Traced(tokens, Draft([], [], NO_BLANK))
  {
  }

  lemma KeptIsTraced(tokens: seq<Words>, draft: Draft, kept: Draft)
    requires Traced(tokens, draft) && kept.words <= draft.words && kept.sources <= draft.sources
    ensures Traced(tokens, kept)
  {
  }

  lemma StepIsTraced(tokens: seq<Words>, kept: Draft, n: nat)
    requires n < |tokens| && Traced(tokens, kept)
    requires forall p | 0 <= p < |kept.sources| :: kept.sources[p].token < n
    ensures var token := tokens[n];
            var body := Draft(kept.words + Body(token), kept.sources + BodySources(token, n), 0);
            var blank := SourceOf(token, n, |token|, InsertedSpace);
            Traced(tokens, body) && Traced(tokens, Draft(body.words + [BLANK], body.sources + [blank], 0))
  {
    hide Traced, BodySources, Body, SourceOf;
    var token := tokens[n];
    var body, sources := Body(token), BodySources(token, n);
    var blank := SourceOf(token, n, |token|, InsertedSpace);
    BodyIsTraced(tokens, n);
    TracedConcat(tokens, kept, Draft(body, sources, 0));
    TracedConcat(tokens, Draft(kept.words + body, kept.sources + sources, 0), Draft([BLANK], [blank], 0));
  }

  /** A token's words, and the blank after them. */
  lemma BodyIsTraced(tokens: seq<Words>, n: nat)
    requires n < |tokens|
    ensures var token := tokens[n];
            var sources := BodySources(token, n);
            var blank := SourceOf(token, n, |token|, InsertedSpace);
            && |sources| == |Body(token)| && Traced(tokens, Draft(Body(token), sources, 0))
            && Traced(tokens, Draft([BLANK], [blank], 0)) && blank.token == n
            && forall k | 0 <= k < |sources| :: sources[k].token == n && Precedes(sources[k], blank)
  {
    var token := tokens[n];
    var sources := BodySources(token, n);
    forall k | 0 <= k < |sources|
      ensures sources[k] == SourceOf(token, n, FirstWord(token) + k, TokenWord)
      ensures ComesFrom(tokens, Body(token)[k], sources[k])
    {
    }
  }

  lemma TracedConcat(tokens: seq<Words>, a: Draft, b: Draft)
    requires Traced(tokens, a) && Traced(tokens, b)
    requires forall i, j | 0 <= i < |a.sources| && 0 <= j < |b.sources| :: Precedes(a.sources[i], b.sources[j])
    ensures Traced(tokens, Draft(a.words + b.words, a.sources + b.sources, 0))
  {
    hide ComesFrom, Precedes;
    var both := Draft(a.words + b.words, a.sources + b.sources, 0);
    forall p | 0 <= p < |both.words| ensures ComesFrom(tokens, both.words[p], both.sources[p]) {
      if p >= |a.words| {
        assert both.words[p] == b.words[p - |a.words|] && both.sources[p] == b.sources[p - |a.words|];
      }
    }
  }

  /** Every assembled word is the token word its source names or a blank, and the sources run strictly forward:
      by token, and by word inside a token. */
  lemma WordsComeInTokenOrder(tokens: seq<Words>)
    ensures Traced(tokens, Assembled(tokens))
  {
    RunIsTraced(tokens, |tokens|);
  }

  // ----- no text is lost

  /** The words that are not blanks. */
  function NonBlank(words: Words): Words {
    if words == [] then []
    else
      var last := words[|words| - 1];
      NonBlank(words[..|words| - 1]) + if last == BLANK then [] else [last]
  }

  function TokensNonBlank(tokens: seq<Words>, n: nat): Words
    requires n <= |tokens|
  {
    if n == 0 then [] else TokensNonBlank(tokens, n - 1) + NonBlank(Body(tokens[n - 1]))
  }

  lemma {:induction false} NonBlankConcat(a: Words, b: Words)
    ensures NonBlank(a + b) == NonBlank(a) + NonBlank(b)
  {
    if b == [] {
      assert a + b == a;
    } else {
      var front := b[..|b| - 1];
      assert (a + b)[..|a + b| - 1] == a + front;
      NonBlankConcat(a, front);
    }
  }

  lemma BlankIsNoText()
    ensures NonBlank([BLANK]) == [] && NonBlank([]) == []
  {
  }

  lemma {:induction false} RunKeepsText(tokens: seq<Words>, n: nat)
    requires n <= |tokens|
    ensures NonBlank(Run(tokens, n).words) == TokensNonBlank(tokens, n)
  {
    hide Run, Kept, NonBlank, Body, BodySources;
    NothingYet(tokens);
    BlankIsNoText();
    if n > 0 {
      RunKeepsText(tokens, n - 1);
      TurnIs(tokens, n - 1);
      var kept, body := Kept(Run(tokens, n - 1), tokens[n - 1]), Body(tokens[n - 1]);
      NonBlankConcat(kept.words, body);
      NonBlankConcat(kept.words + body, [BLANK]);
      NonBlankConcat(kept.words, [BLANK]);
    }
  }

  /** The words that are not blanks are just the tokens' body words that are not blanks, in token order: taking
      blanks back never loses or reorders text. */
  lemma NoTextIsLost(tokens: seq<Words>)
    ensures NonBlank(Assembled(tokens).words) == TokensNonBlank(tokens, |tokens|)
  {
    RunKeepsText(tokens, |tokens|);
  }

  // ----- spacing

  /** The token starts with a word below 4, which is no text but says how the token joins its neighbours. */
  predicate Controls(token: Words) {
    token != [] && token[0] < 4
  }

  /** Controls 0 and 1 attach a token to the text before it. */
  predicate AttachesLeft(token: Words) {
    Controls(token) && token[0] <= 1
  }

  /** Control 2 attaches a token to the text after it; so does control 0 where text stands before it. */
  predicate AttachesRight(token: Words, textBefore: bool) {
    Controls(token) && (token[0] == 2 || (token[0] == 0 && textBefore))
  }

  /** Attaching takes one blank back from the end of the text. */
  function Attached(text: Words, token: Words): Words {
    if AttachesLeft(token) && text != [] && text[|text| - 1] == 0x20 then text[..|text| - 1] else text
  }

  /** No blank follows a token that ends in one or attaches to what follows, nor a lone control 1 after text. */
  predicate StaysOpen(text: Words, token: Words) {
    var shown := if Controls(token) then token[1..] else token;
    || (shown != [] && shown[|shown| - 1] == 0x20)
    || AttachesRight(token, text != [])
    || (token == [1] && text != [])
  }

  /** Every token in turn: a blank goes where it attaches, its words come, and a blank follows unless it stays open. */
  lemma TurnExactly(tokens: seq<Words>, n: nat)
    requires n < |tokens|
    ensures var text, token := Run(tokens, n).words, tokens[n];
            Run(tokens, n + 1).words
            == Attached(text, token) + (if Controls(token) then token[1..] else token)
               + (if StaysOpen(text, token) then [] else [0x20])
  {
    hide Run, SpacingAfter, StaysOpen;
    var text, token := Run(tokens, n).words, tokens[n];
    WordsAfterToken(tokens, n);
    assert Kept(Run(tokens, n), token).words == Attached(text, token);
    StaysOpenExactly(Run(tokens, n), token);
  }

  lemma StaysOpenExactly(draft: Draft, token: Words)
    ensures SpacingAfter(draft, token) == NO_BLANK <==> StaysOpen(draft.words, token)
  {
  }

  lemma NothingRun(tokens: seq<Words>)
    ensures Run(tokens, 0) == Draft([], [], NO_BLANK)
  {
  }

  /** The text starts empty, and in the end a blank that was put after the last token goes, unless it is all there is. */
  lemma EndsExactly(tokens: seq<Words>)
    ensures Run(tokens, 0).words == []
    ensures var text, n := Run(tokens, |tokens|).words, |tokens|;
            Assembled(tokens).words
            == if n > 0 && |text| > 1 && !StaysOpen(Run(tokens, n - 1).words, tokens[n - 1]) then text[..|text| - 1]
               else text
  {
    hide Run, SpacingAfter, StaysOpen, Kept;
    NothingRun(tokens);
    if tokens != [] {
      var n := |tokens|;
      WordsAfterToken(tokens, n - 1);
      StaysOpenExactly(Run(tokens, n - 1), tokens[n - 1]);
    }
  }

  /** What a span says of its token. */
  lemma SpanTells(tokens: seq<Words>, sources: seq<Source>, spans: seq<Span>, t: nat)
    requires SpansHold(tokens, sources, spans) && t < |spans|
    ensures var span, token := spans[t], tokens[t];
            && span.token == t && span.hasControl == Controls(token)
            && span.control == (if Controls(token) then token[0] else 3)
            && span.controlOnly == (Controls(token) && |token| == 1)
            && span.begin == |Attached(Run(tokens, t).words, token)|
  {
    hide Run, OwnersHold, OnlyEmptyGoesStale;
    assert Kept(Run(tokens, t), tokens[t]).words == Attached(Run(tokens, t).words, tokens[t]);
  }

  /** Between a token's words and the next token stands one blank, unless either side attaches; a blank that the
      token's own words end in is not doubled, and is taken back where the next token attaches. */
  lemma BlankBetweenTokens(tokens: seq<Words>, t: nat)
    requires t + 1 < |tokens| && Body(tokens[t]) != []
    ensures var body, next := Body(tokens[t]), tokens[t + 1];
            var end := BeginOf(tokens, t) + |body|;
            BeginOf(tokens, t + 1)
            == if body[|body| - 1] == BLANK then (if AttachesLeft(next) then end - 1 else end)
               else if AttachesLeft(next) || AttachesRight(tokens[t], Run(tokens, t).words != []) then end
               else end + 1
  {
    hide Run;
    WordsAfterToken(tokens, t);
    hide Body;
    var next := Run(tokens, t + 1);
    assert next.words[|next.words| - 1] == BLANK <==>
           SpacingAfter(Run(tokens, t), tokens[t]) != NO_BLANK || Body(tokens[t])[|Body(tokens[t])| - 1] == BLANK;
  }

  lemma WordsAfterToken(tokens: seq<Words>, t: nat)
    requires t < |tokens|
    ensures Run(tokens, t + 1).spacing == SpacingAfter(Run(tokens, t), tokens[t])
    ensures Run(tokens, t + 1).words
            == Kept(Run(tokens, t), tokens[t]).words + Body(tokens[t])
               + if SpacingAfter(Run(tokens, t), tokens[t]) == NO_BLANK then [] else [BLANK]
  {
    hide BodySources, SourceOf, Kept, SpacingAfter;
  }

  // ----- upper case

  predicate EndsFirstWord(word: Word) {
    word == 0x20 || word == '=' as int || word == 0
  }

  lemma {:induction false} FirstWordIs(words: Words)
    ensures var n := FirstWordLength(words);
            && (forall k | 0 <= k < n :: !EndsFirstWord(words[k])) && (n < |words| ==> EndsFirstWord(words[n]))
  {
    if words != [] && !EndsFirstWord(words[0]) {
      FirstWordIs(words[1..]);
      assert forall k | 1 <= k < |words| :: words[k] == words[1..][k - 1];
    }
  }

  /** Word `k` stands in the first word of a text that starts with neither a blank nor a capital S. */
  ghost predicate IsRaised(words: Words, k: nat)
    requires k < |words|
  {
    words[0] != 0x20 && words[0] != 'S' as int && forall j | 0 <= j <= k :: !EndsFirstWord(words[j])
  }

  /** Exactly the small letters of that first word are put in upper case. */
  lemma RaisedExactly(words: Words, k: nat)
    requires k < |words|
    ensures Raised(words)[k]
            == if IsRaised(words, k) && 'a' as int <= words[k] <= 'z' as int then words[k] - 32 else words[k]
  {
    FirstWordIs(words);
  }

  /** Upper case keeps every blank a blank and every width. */
  lemma RaisingKeepsShape(words: Words)
    ensures forall k | 0 <= k < |words| ::
              && (Raised(words)[k] == BLANK <==> words[k] == BLANK)
              && WordWidth(Raised(words)[k]) == WordWidth(words[k])
  {
  }

  // ----- spans

  /** "foo", a lone control 2, and "x" that joins the text before it. */
  function StaleTokens(): seq<Words> {
    [['f' as int, 'o' as int, 'o' as int], [2], [1, 'x' as int]]
  }

  /** Starts of spans are not in order: the lone control stands after a blank that the next token takes back, so
      its empty span starts after that token's. */
  lemma EmptySpanGoesStale()
    ensures BeginOf(StaleTokens(), 1) == 4 && BeginOf(StaleTokens(), 2) == 3
  {
    var tokens := StaleTokens();
    assert Run(tokens, 0).words == [];
    assert |Run(tokens, 1).words| == 4 && Run(tokens, 1).words[3] == BLANK;
    assert Run(tokens, 2).words == Run(tokens, 1).words;
  }
}
