// Assembling a record's tokens into words, with the token each word came from (logical.cpp).
module Assembly {
  import opened Tokens
  import opened Ascii

  datatype Kind = TokenWord | InsertedSpace

  /** Where an assembled word came from: a word of a token, or the blank after the token. */
  datatype Source = Source(token: nat, word: nat, kind: Kind, hasControl: bool, control: Word)

  /** The output words of one token. */
  datatype Span = Span(token: nat, hasControl: bool, control: Word, controlOnly: bool, begin: nat, end: nat)

  // ----- the record as one text that grows token by token

  /** The words so far, each with its source, and the spacing in force: 2 asks for no blank. */
  datatype Pieces = Draft(words: Words, sources: seq<Source>, spacing: Word)

  type Draft = p: Pieces | |p.words| == |p.sources| witness Draft([], [], 2)

  const NO_BLANK: Word := 2

  function EffectiveControl(token: Words): Word {
    if HasSpacingControl(token) then token[0] else 3
  }

  function SourceOf(token: Words, index: nat, word: nat, kind: Kind): Source {
    Source(index, word, kind, HasSpacingControl(token), EffectiveControl(token))
  }

  function FirstWord(token: Words): nat {
    if HasSpacingControl(token) then 1 else 0
  }

  function BodySources(token: Words, index: nat): seq<Source> {
    seq(|Body(token)|, k requires 0 <= k < |Body(token)| => SourceOf(token, index, FirstWord(token) + k, TokenWord))
  }

  function WithoutBlank(draft: Draft): Draft {
    if draft.words != [] && draft.words[|draft.words| - 1] == BLANK
    then draft.(words := draft.words[..|draft.words| - 1], sources := draft.sources[..|draft.words| - 1])
    else draft
  }

  /** Controls 0 and 1 join a token to the text before it. */
  predicate Joins(draft: Draft, token: Words) {
    HasSpacingControl(token) && draft.words != [] && token[0] <= 1
  }

  /** The text that a token is added to. */
  function Kept(draft: Draft, token: Words): Draft {
    if Joins(draft, token) then WithoutBlank(draft) else draft
  }

  function SpacingAfter(draft: Draft, token: Words): Word {
    var body := Body(token);
    if body != [] && body[|body| - 1] == BLANK then NO_BLANK
    else if Joins(draft, token) && (token[0] == 0 || body == []) then NO_BLANK
    else if token == [] then 3 else token[0]
  }

  function Step(draft: Draft, token: Words, index: nat): Draft {
    var kept, spacing := Kept(draft, token), SpacingAfter(draft, token);
    var words, sources := kept.words + Body(token), kept.sources + BodySources(token, index);
    if spacing == NO_BLANK then Draft(words, sources, spacing)
    else Draft(words + [BLANK], sources + [SourceOf(token, index, |token|, InsertedSpace)], spacing)
  }

  function Run(tokens: seq<Words>, n: nat): Draft
    requires n <= |tokens|
  {
    if n == 0 then Draft([], [], NO_BLANK) else Step(Run(tokens, n - 1), tokens[n - 1], n - 1)
  }

  /** A record does not end in an inserted blank, unless that blank is all there is. */
  function Assembled(tokens: seq<Words>): Draft {
    var draft := Run(tokens, |tokens|);
    if |draft.words| > 1 && draft.spacing != NO_BLANK then WithoutBlank(draft) else draft
  }

  /** The length of the first word: up to a blank, an equals sign or a zero. */
  function FirstWordLength(words: Words): (n: nat)
    ensures n <= |words|
  {
    if words == [] || words[0] == BLANK || words[0] == '=' as int || words[0] == 0 then 0
    else 1 + FirstWordLength(words[1..])
  }

  /** How many leading words are put in upper case. */
  function UpperLength(words: Words): (n: nat)
    ensures n <= |words|
  {
    if words == [] || words[0] == BLANK || words[0] == 'S' as int then 0 else FirstWordLength(words)
  }

  function Raised(words: Words): (raised: Words)
    ensures |raised| == |words|
  {
    seq(|words|, k requires 0 <= k < |words| => if k < UpperLength(words) then Upper(words[k]) else words[k])
  }

  /** Where the span of token `t` starts: at the end of the text that the token was added to. */
  function BeginOf(tokens: seq<Words>, t: nat): nat
    requires t < |tokens|
  {
    |Kept(Run(tokens, t), tokens[t]).words|
  }

  function HeadOf(token: Words, index: nat, begin: nat, end: nat): Span {
    Span(index, HasSpacingControl(token), EffectiveControl(token), HasSpacingControl(token) && |token| == 1, begin, end)
  }

  // ----- the spans, kept right while blanks are taken back

  /** The first spans are in place: each starts where its token was added, a token's span is exactly the output
      positions whose source is that token, and every later span starts at or after a non-empty span's end. */
  ghost predicate SpansHold(tokens: seq<Words>, sources: seq<Source>, spans: seq<Span>) {
    |spans| <= |tokens| && HeadsHold(tokens, spans) && OwnersHold(sources, spans) && OnlyEmptyGoesStale(spans)
  }

  ghost predicate HeadsHold(tokens: seq<Words>, spans: seq<Span>)
    requires |spans| <= |tokens|
  {
    forall t | 0 <= t < |spans| ::
      spans[t].begin <= spans[t].end && spans[t] == HeadOf(tokens[t], t, BeginOf(tokens, t), spans[t].end)
  }

  ghost predicate OwnersHold(sources: seq<Source>, spans: seq<Span>) {
    && (forall p | 0 <= p < |sources| :: sources[p].token < |spans|)
    && (forall t | 0 <= t < |spans| :: spans[t].begin < spans[t].end ==> spans[t].end <= |sources|)
    && (forall t, p | 0 <= t < |spans| && 0 <= p < |sources| ::
          sources[p].token == t <==> spans[t].begin <= p < spans[t].end)
  }

  ghost predicate OnlyEmptyGoesStale(spans: seq<Span>) {
    forall t, u | 0 <= t < u < |spans| && spans[t].begin < spans[t].end :: spans[t].end <= spans[u].begin
  }

  /** An assembled record. `offsets[k]` is the byte at which word k starts in the record's text. */
  class Record {
    var words: Words
    var sources: seq<Source>
    var spans: seq<Span>
    var offsets: seq<nat>

    constructor ()
      ensures words == [] && sources == [] && spans == [] && offsets == []
    {
      words, sources, spans, offsets := [], [], [], [];
    }

    /** `remove_pending_space`: takes back a blank at the end of the text, and shrinks its owner's span. */
    method RemovePendingSpace(ghost tokens: seq<Words>, ghost spacing: Word)
      requires |words| == |sources| && SpansHold(tokens, sources, spans)
      modifies this`words, this`sources, this`spans
      ensures Draft(words, sources, spacing) == WithoutBlank(Draft(old(words), old(sources), spacing))
      ensures |spans| == old(|spans|) && SpansHold(tokens, sources, spans)
    {
      hide SpansHold;
      if |words| > 0 && words[|words| - 1] == BLANK {
        var owner := sources[|sources| - 1].token;
        SpansShrink(tokens, sources, spans);
        words, sources := words[..|words| - 1], sources[..|sources| - 1];
        if owner < |spans| {
          spans := spans[owner := spans[owner].(end := |words|)];
        }
      }
    }

    /** The first half of a token's turn: its control takes a blank back where the token joins the text. */
    method Join(ghost tokens: seq<Words>, ghost draft: Draft, token: Words) returns (spacing: Word)
      requires words == draft.words && sources == draft.sources && SpansHold(tokens, sources, spans)
      modifies this`words, this`sources, this`spans
      ensures words == Kept(draft, token).words && sources == Kept(draft, token).sources
      ensures spacing == if Joins(draft, token) && (token[0] == 0 || Body(token) == []) then NO_BLANK
                         else if token == [] then 3 else token[0]
      ensures |spans| == old(|spans|) && SpansHold(tokens, sources, spans)
    {
      hide SpansHold;
      spacing := if token == [] then 3 else token[0];
      if HasSpacingControl(token) && words != [] {
        if spacing == 1 {
          RemovePendingSpace(tokens, draft.spacing);
          if |token| == 1 { spacing := 2; }
        } else if spacing == 0 {
          RemovePendingSpace(tokens, draft.spacing);
          spacing := 2;
        }
      }
    }

    /** The second half: the token's words, each with its source, and the blank after them. */
    method Append(token: Words, index: nat, wanted: Word) returns (spacing: Word)
      requires |words| == |sources|
      modifies this`words, this`sources
      ensures var body := Body(token);
              spacing == if body != [] && body[|body| - 1] == BLANK then NO_BLANK else wanted
      ensures words == old(words) + Body(token) + (if spacing == NO_BLANK then [] else [BLANK])
      ensures sources == old(sources) + BodySources(token, index)
                         + (if spacing == NO_BLANK then [] else [SourceOf(token, index, |token|, InsertedSpace)])
    {
      hide BodySources;
      var body := Body(token);
      words := words + body;
      var k := 0;
      NoSources(token, index);
      while k < |body|
        invariant words == old(words) + body
        invariant k <= |body| && sources == old(sources) + BodySources(token, index)[..k]
      {
        BodySource(token, index, k);
        sources := sources + [SourceOf(token, index, FirstWord(token) + k, TokenWord)];
        k := k + 1;
      }
      assert BodySources(token, index)[..|body|] == BodySources(token, index);
      spacing := if body != [] && body[|body| - 1] == BLANK then 2 else wanted;
      if spacing != 2 {
        words := words + [BLANK];
        sources := sources + [SourceOf(token, index, |token|, InsertedSpace)];
      }
    }

    /** One token's turn. */
    method Add(ghost tokens: seq<Words>, index: nat, token: Words) returns (spacing: Word)
      requires index == |spans| < |tokens| && token == tokens[index]
      requires words == Run(tokens, index).words && sources == Run(tokens, index).sources
      requires SpansHold(tokens, sources, spans)
      modifies this`words, this`sources, this`spans
      ensures words == Run(tokens, index + 1).words && sources == Run(tokens, index + 1).sources
      ensures spacing == Run(tokens, index + 1).spacing
      ensures |spans| == index + 1 && SpansHold(tokens, sources, spans)
    {
      hide SpansHold, BodySources, Kept, Joins;
      ghost var draft := Run(tokens, index);
      spacing := Join(tokens, draft, token);
      var begin := |words|;
      ghost var kept, earlier := sources, spans;
      spacing := Append(token, index, spacing);
      var hasControl := HasSpacingControl(token);
      spans := spans + [Span(index, hasControl, EffectiveControl(token), hasControl && |token| == 1, begin, |words|)];
      SourcesOwned(tokens, index);
      SpansGrow(tokens, kept, sources, earlier, spans);
    }

    /** The blank after the last token goes again. */
    method DropLast(ghost tokens: seq<Words>)
      requires |words| == |sources| > 0 && |spans| == |tokens| > 0 && SpansHold(tokens, sources, spans)
      requires sources[|sources| - 1].token == |tokens| - 1
      modifies this`words, this`sources, this`spans
      ensures words == old(words[..|words| - 1]) && sources == old(sources[..|sources| - 1])
      ensures |spans| == |tokens| && SpansHold(tokens, sources, spans)
    {
      hide SpansHold;
      SpansShrink(tokens, sources, spans);
      words, sources := words[..|words| - 1], sources[..|sources| - 1];
      if |spans| > 0 {
        spans := spans[|spans| - 1 := spans[|spans| - 1].(end := |words|)];
      }
    }

    /** Puts the first word in upper case. */
    method Raise()
      modifies this`words
      ensures words == Raised(old(words))
    {
      if words == [] || words[0] == BLANK || words[0] == 'S' as int { return; }
      var k := 0;
      assert words[0..] == words;
      while k < |words|
        invariant k <= UpperLength(old(words)) && |words| == |old(words)|
        invariant UpperLength(old(words)) == k + FirstWordLength(old(words)[k..])
        invariant forall i | 0 <= i < |words| :: words[i] == if i < k then Upper(old(words)[i]) else old(words)[i]
      {
        if words[k] == BLANK || words[k] == '=' as int || words[k] == 0 { break; }
        assert old(words)[k..][1..] == old(words)[k + 1..];
        words := words[k := Upper(words[k])];
        k := k + 1;
      }
      assert k == UpperLength(old(words));
    }

    /** The running sum of the words' widths. */
    method Measure()
      modifies this`offsets
      ensures |offsets| == |words| + 1
      ensures forall k | 0 <= k <= |words| :: offsets[k] == |TextOf(words[..k])|
    {
      offsets := seq(|words| + 1, _ => 0);
      for index := 0 to |words|
        invariant |offsets| == |words| + 1
        invariant forall k | 0 <= k <= index :: offsets[k] == |TextOf(words[..k])|
      {
        assert words[..index + 1][..index] == words[..index];
        offsets := offsets[index + 1 := offsets[index] + WordWidth(words[index])];
      }
    }
  }

  /** Taking the last word back keeps the spans in place once its owner's span ends before it. */
  lemma SpansShrink(tokens: seq<Words>, sources: seq<Source>, spans: seq<Span>)
    requires SpansHold(tokens, sources, spans) && sources != []
    ensures var owner := sources[|sources| - 1].token;
            owner < |spans| && SpansHold(tokens, sources[..|sources| - 1], spans[owner := spans[owner].(end := |sources| - 1)])
  {
    hide BeginOf, HeadOf;
    var n := |sources| - 1;
    var owner := sources[n].token;
    var shrunk := spans[owner := spans[owner].(end := n)];
    assert spans[owner].begin <= n < spans[owner].end;
    HeadShrinks(tokens, spans, owner, n);
    assert OwnersHold(sources[..n], shrunk) by {
      forall t | 0 <= t < |spans| && shrunk[t].begin < shrunk[t].end ensures shrunk[t].end <= n {
        assert sources[n].token == t <==> spans[t].begin <= n < spans[t].end;
      }
    }
  }

  lemma HeadShrinks(tokens: seq<Words>, spans: seq<Span>, owner: nat, end: nat)
    requires |spans| <= |tokens| && HeadsHold(tokens, spans) && owner < |spans| && spans[owner].begin <= end
    ensures HeadsHold(tokens, spans[owner := spans[owner].(end := end)])
  {
  }

  /** A draft whose spacing asks for a blank ends in the blank after its last token. */
  lemma RunEndsInBlank(tokens: seq<Words>, n: nat)
    requires 0 < n <= |tokens| && Run(tokens, n).spacing != NO_BLANK
    ensures var draft := Run(tokens, n);
            && draft.words != [] && draft.words[|draft.words| - 1] == BLANK
            && draft.sources[|draft.words| - 1] == SourceOf(tokens[n - 1], n - 1, |tokens[n - 1]|, InsertedSpace)
  {
  }

  /** Adding the next token's words and span keeps the spans in place. */
  lemma SpansGrow(tokens: seq<Words>, kept: seq<Source>, sources: seq<Source>, earlier: seq<Span>, spans: seq<Span>)
    requires SpansHold(tokens, kept, earlier) && |earlier| < |tokens| && kept <= sources
    requires forall p | |kept| <= p < |sources| :: sources[p].token == |earlier|
    requires |kept| == BeginOf(tokens, |earlier|)
    requires spans == earlier + [HeadOf(tokens[|earlier|], |earlier|, |kept|, |sources|)]
    ensures SpansHold(tokens, sources, spans)
  {
    hide BeginOf;
    var n := |earlier|;
    assert HeadsHold(tokens, spans);
    assert forall t | 0 <= t < n :: spans[t] == earlier[t];
    assert OwnersHold(sources, spans) by {
      forall t, p | 0 <= t < |spans| && 0 <= p < |sources|
        ensures sources[p].token == t <==> spans[t].begin <= p < spans[t].end
      {
        if p < |kept| { assert sources[p] == kept[p]; }
      }
      assert forall p | 0 <= p < |kept| :: sources[p] == kept[p];
    }
  }

  lemma NoSources(token: Words, index: nat)
    ensures |BodySources(token, index)| == |Body(token)| && BodySources(token, index)[..0] == []
  {
  }

  lemma BodySource(token: Words, index: nat, k: nat)
    requires k < |Body(token)|
    ensures |BodySources(token, index)| == |Body(token)|
    ensures BodySources(token, index)[..k + 1]
            == BodySources(token, index)[..k] + [SourceOf(token, index, FirstWord(token) + k, TokenWord)]
  {
  }

  /** What a token's turn adds is the token's own. */
  lemma SourcesOwned(tokens: seq<Words>, index: nat)
    requires index < |tokens|
    ensures var kept, now := Kept(Run(tokens, index), tokens[index]), Run(tokens, index + 1);
            kept.sources <= now.sources
            && forall p | |kept.sources| <= p < |now.sources| :: now.sources[p].token == index
  {
    var body := BodySources(tokens[index], index);
    forall k | 0 <= k < |body| ensures body[k].token == index {
      assert body[k] == SourceOf(tokens[index], index, FirstWord(tokens[index]) + k, TokenWord);
    }
    hide BodySources, Kept, SpacingAfter;
  }

  lemma NothingYet(tokens: seq<Words>)
    ensures Run(tokens, 0) == Draft([], [], NO_BLANK) && SpansHold(tokens, [], [])
  {
  }

  /** `assemble_logical_record_with_sources`. */
  method AssembleRecord(tokens: seq<Words>) returns (record: Record)
    ensures fresh(record)
    ensures record.words == Raised(Assembled(tokens).words) && record.sources == Assembled(tokens).sources
    ensures |record.spans| == |tokens| && SpansHold(tokens, record.sources, record.spans)
    ensures |record.offsets| == |record.words| + 1
    ensures forall k | 0 <= k <= |record.words| :: record.offsets[k] == |TextOf(record.words[..k])|
  {
    hide SpansHold, Run, TextOf, Raised;
    record := new Record();
    var spacing: Word := 2;
    NothingYet(tokens);
    for index := 0 to |tokens|
      invariant Draft(record.words, record.sources, spacing) == Run(tokens, index)
      invariant |record.spans| == index && SpansHold(tokens, record.sources, record.spans)
    {
      spacing := record.Add(tokens, index, tokens[index]);
    }
    if |record.words| > 1 && spacing != 2 {
      RunEndsInBlank(tokens, |tokens|);
      record.DropLast(tokens);
    }
    record.Raise();
    record.Measure();
  }
}
