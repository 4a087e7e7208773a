// What the splitter takes for a control, and where it cuts a record, in the bytes themselves (decoded_record_scan.cpp).
module SplitterLaws {
  import opened Bytes
  import opened Splitter

  // ----- the names of controls

  predicate IsControlName(name: string) {
    || name == "c.cp" || name == "c.sp" || name == "cartdesc" || name == "cauthor" || name == "cbacklevel"
    || name == "cbasenum" || name == "cbldvers" || name == "ccontents" || name == "ccopyright" || name == "cdate"
    || name == "cdoclevel" || name == "cdocnum" || name == "ceart" || name == "ceartdesc" || name == "cemenu"
    || name == "cendindex" || name == "cfigures" || name == "cfont" || name == "cfontdef"
    || name == "cforwardlevel" || name == "cfront" || name == "cgpsep" || name == "chdlevel" || name == "cidelm"
    || name == "cindex" || name == "citerm" || name == "clanguage" || name == "cmenu" || name == "cmitem"
    || name == "cparent" || name == "cpicture" || name == "creflow" || name == "csart" || name == "csartdesc"
    || name == "csecurity" || name == "cselect" || name == "csourcefn" || name == "cstitle" || name == "csummary"
    || name == "ctables" || name == "ctitle" || name == "ctocdef" || name == "ctoce" || name == "ctopic#"
    || name == "ctopicn" || name == "ctopics" || name == "cversion" || name == "cz" || name == "etoc"
    || name == "si" || name == "sr" || name == "srefig" || name == "sretbl" || name == "srfig" || name == "srtbl"
    || name == "st"
  }

  /** A blank, a tab or one of the four control characters after it. */
  predicate Blank(b: Byte) {
    b == 0x20 || b == 0x09 || b == 0x0A || b == 0x0B || b == 0x0C || b == 0x0D
  }

  predicate LetterOrDigit(b: Byte) {
    '0' as int <= b <= '9' as int || 'a' as int <= b <= 'z' as int || 'A' as int <= b <= 'Z' as int
  }

  predicate IdentifierByte(b: Byte) {
    LetterOrDigit(b) || b == '.' as int || b == '_' as int || b == '-' as int
  }

  /** The text stands at `at` in capital or small letters; the text itself has small ones. */
  predicate SpelledAt(value: Bytes, at: nat, text: string) {
    && at + |text| <= |value|
    && forall k | 0 <= k < |text| ::
         text[k] as int == if 'A' as int <= value[at + k] <= 'Z' as int then value[at + k] as int + 32 else value[at + k]
  }

  /** A name opens a control where it stands and ends: at the end of the text, before a blank, an equals sign, a comma or
      a dot; and each of a few names before some bytes more. */
  predicate Opens(value: Bytes, at: nat, name: string) {
    && SpelledAt(value, at, name)
    && var end := at + |name|;
       || end == |value|
       || Blank(value[end]) || value[end] == '=' as int || value[end] == ',' as int || value[end] == '.' as int
       || (name == "st" && value[end] == '|' as int)
       || ((name == "ceart" || name == "ceartdesc") && !LetterOrDigit(value[end]))
       || ((name == "srfig" || name == "srtbl") && IdentifierByte(value[end]))
       || (name == "sr" && IdentifierByte(value[end]) && !(end + 1 < |value| && Blank(value[end + 1])))
  }

  ghost predicate OpensSome(value: Bytes, at: nat) {
    exists name :: IsControlName(name) && Opens(value, at, name)
  }

  /** After blanks a name opens a control. */
  ghost predicate NamesControl(value: Bytes, at: nat) {
    exists start :: at <= start < |value| && (forall k | at <= k < start :: Blank(value[k])) && OpensSome(value, start)
  }

  /** The table of the splitter holds just these names. */
  lemma NamesAreThePrefixes(name: string)
    ensures IsControlName(name) <==> exists k :: 0 <= k < COUNT && Prefix(k) == name
  {
    assert Prefix(0) == "csartdesc" && Prefix(1) == "ceartdesc" && Prefix(2) == "cartdesc" &&
           Prefix(3) == "csart" && Prefix(4) == "ceart" && Prefix(5) == "ctopicn" && Prefix(6) == "ctopic#" &&
           Prefix(7) == "cparent" && Prefix(8) == "cforwardlevel" && Prefix(9) == "cbacklevel" &&
           Prefix(10) == "csummary" && Prefix(11) == "chdlevel" && Prefix(12) == "csourcefn" &&
           Prefix(13) == "st" && Prefix(14) == "c.sp" && Prefix(15) == "c.cp" && Prefix(16) == "ctocdef" &&
           Prefix(17) == "ctoce" && Prefix(18) == "etoc" && Prefix(19) == "cfontdef" && Prefix(20) == "cfont" &&
           Prefix(21) == "cselect" && Prefix(22) == "cmenu" && Prefix(23) == "cmitem" &&
           Prefix(24) == "cemenu" && Prefix(25) == "srfig" && Prefix(26) == "srefig" && Prefix(27) == "srtbl" &&
           Prefix(28) == "sretbl" && Prefix(29) == "sr" && Prefix(30) == "cz" && Prefix(31) == "si" &&
           Prefix(32) == "citerm" && Prefix(33) == "cgpsep" && Prefix(34) == "clanguage" &&
           Prefix(35) == "cversion" && Prefix(36) == "cbldvers" && Prefix(37) == "creflow" &&
           Prefix(38) == "ctitle" && Prefix(39) == "cstitle" && Prefix(40) == "ccopyright" &&
           Prefix(41) == "csecurity" && Prefix(42) == "cdate" && Prefix(43) == "cauthor" &&
           Prefix(44) == "cdocnum" && Prefix(45) == "ctopics" && Prefix(46) == "cbasenum" &&
           Prefix(47) == "cdoclevel" && Prefix(48) == "cfront" && Prefix(49) == "ccontents" &&
           Prefix(50) == "cfigures" && Prefix(51) == "ctables" && Prefix(52) == "cindex" &&
           Prefix(53) == "cendindex" && Prefix(54) == "cidelm" && Prefix(55) == "cpicture";
  }

  lemma JudgeIsOpens(value: Bytes, at: nat, name: string)
    ensures Judge(value, at, name) == IsControl <==> Opens(value, at, name)
  {
  }

  /** No name is empty or starts with a blank. */
  lemma NamesAreDark(value: Bytes, at: nat, name: string)
    requires IsControlName(name) && SpelledAt(value, at, name)
    ensures at < |value| && !Blank(value[at])
  {
    NamesAreThePrefixes(name);
    var k :| 0 <= k < COUNT && Prefix(k) == name;
    InitialsOfPrefixes(k);
    assert value[at + 0] == value[at];
  }

  lemma {:induction false} SkippedIsBlank(value: Bytes, at: nat)
    requires at <= |value|
    ensures var start := SkipSpace(value, at);
            (forall k | at <= k < start :: Blank(value[k])) && (start < |value| ==> !Blank(value[start]))
    decreases |value| - at
  {
    if at < |value| && IsSpace(value[at]) { SkippedIsBlank(value, at + 1); }
  }

  /** The splitter takes for a control exactly what one of the names opens, after blanks and in any case. */
  lemma ControlExactly(value: Bytes, at: nat)
    ensures ControlAt(value, at) <==> NamesControl(value, at)
  {
    hide Prefix, Judge, Opens, IsControlName, JudgeFrom;
    if at < |value| {
      var start := SkipSpace(value, at);
      SkippedIsBlank(value, at);
      JudgedIsOpened(value, start);
      if NamesControl(value, at) {
        var first :| at <= first < |value| && (forall k | at <= k < first :: Blank(value[k])) && OpensSome(value, first);
        OpenedIsDark(value, first);
        assert first == start;
      }
    }
  }

  lemma OpenedIsDark(value: Bytes, at: nat)
    requires OpensSome(value, at)
    ensures at < |value| && !Blank(value[at])
  {
    hide IsControlName, SpelledAt;
    var name :| IsControlName(name) && Opens(value, at, name);
    NamesAreDark(value, at, name);
  }

  lemma JudgedIsOpened(value: Bytes, at: nat)
    ensures JudgeFrom(value, at, 0) <==> OpensSome(value, at)
  {
    hide Prefix, Judge, Opens, IsControlName, JudgeFrom;
    ControlIsAnyPrefix(value, at, 0);
    if JudgeFrom(value, at, 0) {
      var k :| 0 <= k < COUNT && Judge(value, at, Prefix(k)) == IsControl;
      NamesAreThePrefixes(Prefix(k));
      JudgeIsOpens(value, at, Prefix(k));
    }
    if OpensSome(value, at) {
      var name :| IsControlName(name) && Opens(value, at, name);
      NamesAreThePrefixes(name);
      JudgeIsOpens(value, at, name);
    }
  }

  // ----- where a record is cut

  /** A control that is no topic identifier starts here, after a blank, a dot or a comma. */
  ghost predicate StartsHere(record: Bytes, at: nat)
    requires 0 < at < |record|
  {
    && NamesControl(record, at) && !SpelledAt(record, at, "sh")
    && (Blank(record[at - 1]) || record[at - 1] == '.' as int || record[at - 1] == ',' as int)
  }

  /** A question mark or a comma, and a control after it. */
  ghost predicate StartsAfter(record: Bytes, at: nat)
    requires at < |record|
  {
    (record[at] == '?' as int || record[at] == ',' as int) && NamesControl(record, at + 1)
  }

  ghost predicate ControlBoundary(record: Bytes, at: nat)
    requires 0 < at < |record|
  {
    StartsHere(record, at) || StartsAfter(record, at)
  }

  lemma CutExactly(record: Bytes, begin: nat, cursor: nat)
    requires begin <= cursor < |record|
    ensures CutAt(record, begin, cursor)
            == if begin < cursor && StartsHere(record, cursor) then CutBefore
               else if StartsAfter(record, cursor) then CutAround else NoCut
  {
    ControlExactly(record, cursor);
    ControlExactly(record, cursor + 1);
    hide ControlAt, NamesControl;
  }

  /** A question mark after a word, with nothing but blanks between them, stays with the word. */
  ghost predicate EndsWord(record: Bytes, begin: nat, at: nat)
    requires begin <= at < |record|
  {
    && record[at] == '?' as int
    && exists k :: begin <= k < at && (LetterOrDigit(record[k]) || record[k] == ')' as int)
                   && forall j | k < j < at :: Blank(record[j])
  }

  datatype Piece = Piece(begin: nat, end: nat)

  /** The record cut where controls start: before a control that starts here, and around the byte that one starts
      after, which goes unless it is a question mark that ends a word. */
  ghost function Pieces(record: Bytes, begin: nat, cursor: nat): seq<Piece>
    requires begin <= cursor <= |record|
    decreases |record| - cursor
  {
    if cursor == |record| then [Piece(begin, cursor)]
    else if begin < cursor && StartsHere(record, cursor) then [Piece(begin, cursor)] + Pieces(record, cursor, cursor + 1)
    else if StartsAfter(record, cursor) then
      [Piece(begin, if EndsWord(record, begin, cursor) then cursor + 1 else cursor)]
      + Pieces(record, cursor + 1, cursor + 1)
    else Pieces(record, begin, cursor + 1)
  }

  /** So many bytes b stand in a row between `begin` and `end`. */
  ghost predicate RunIn(record: Bytes, begin: nat, end: nat, b: Byte, count: nat)
    requires begin <= end <= |record|
  {
    exists at :: begin <= at && at + count <= end && AllAre(record, at, count, b)
  }

  ghost predicate AllAre(record: Bytes, at: int, count: nat, b: Byte) {
    0 <= at && at + count <= |record| && forall k | at <= k < at + count :: record[k] == b
  }

  /** What is taken off a piece at its ends: blanks, and where no fixed display stands in it also control characters and
      question marks. Twenty question marks or seventy blanks in a row are a fixed display. */
  ghost predicate Droppable(record: Bytes, begin: nat, end: nat, b: Byte)
    requires begin <= end <= |record|
  {
    || Blank(b)
    || ((b < 0x20 || b == '?' as int)
        && !RunIn(record, begin, end, '?' as int, 20) && !RunIn(record, begin, end, 0x20, 70))
  }

  /** The segment of a piece: what is left, without the second of two question marks that end a word. */
  ghost predicate IsTrimmed(record: Bytes, begin: nat, end: nat, s: Segment)
    requires begin <= end <= |record|
  {
    && begin <= s.begin <= s.end <= end
    && (forall k | begin <= k < s.begin || s.end <= k < end :: Droppable(record, begin, end, record[k]))
    && (s.begin < s.end ==>
          !Droppable(record, begin, end, record[s.begin]) && !Droppable(record, begin, end, record[s.end - 1]))
    && s.text == if s.end - s.begin >= 3 && record[s.end - 1] == '?' as int && record[s.end - 2] == '?' as int
                    && (LetterOrDigit(record[s.end - 3]) || record[s.end - 3] == ')' as int)
                 then record[s.begin..s.end - 1] else record[s.begin..s.end]
  }

  /** The segments of the pieces that something is left of. */
  ghost predicate AreSegmentsOf(record: Bytes, pieces: seq<Piece>, segments: seq<Segment>) {
    if pieces == [] then segments == []
    else
      && pieces[0].begin <= pieces[0].end <= |record|
      && exists s :: IsTrimmed(record, pieces[0].begin, pieces[0].end, s)
           && if s.begin == s.end then AreSegmentsOf(record, pieces[1..], segments)
              else segments != [] && segments[0] == s && AreSegmentsOf(record, pieces[1..], segments[1..])
  }

  lemma RunInPiece(record: Bytes, begin: nat, end: nat, b: Byte, count: nat)
    requires begin <= end <= |record|
    ensures HasRun(record[begin..end], b, count) <==> RunIn(record, begin, end, b, count)
  {
    var piece := record[begin..end];
    if HasRun(piece, b, count) {
      var at :| RunAt(piece, at, b, count);
      forall k | begin + at <= k < begin + at + count ensures record[k] == b { assert piece[k - begin] == b; }
      assert AllAre(record, begin + at, count, b);
    }
    if RunIn(record, begin, end, b, count) {
      var at :| begin <= at && at + count <= end && AllAre(record, at, count, b);
      forall k | at - begin <= k < at - begin + count ensures piece[k] == b { assert record[begin + k] == b; }
      assert RunAt(piece, at - begin, b, count);
    }
  }

  lemma DroppableExactly(record: Bytes, begin: nat, end: nat, b: Byte)
    requires begin <= end <= |record|
    ensures Trimmable(b, IsFixed(record[begin..end])) <==> Droppable(record, begin, end, b)
  {
    hide HasRun, RunIn;
    RunInPiece(record, begin, end, '?' as int, 20);
    RunInPiece(record, begin, end, 0x20, 70);
  }

  lemma TrimmedExactly(record: Bytes, begin: nat, end: nat)
    requires begin <= end <= |record|
    ensures IsTrimmed(record, begin, end, SegmentOf(record, begin, end))
  {
    forall k | begin <= k < end
      ensures Trimmable(record[k], IsFixed(record[begin..end])) <==> Droppable(record, begin, end, record[k])
    {
      DroppableExactly(record, begin, end, record[k]);
    }
    hide Droppable, IsFixed, Trimmable;
    var s := SegmentOf(record, begin, end);
    CollapsedExactly(record, s.begin, s.end);
  }

  lemma CollapsedExactly(record: Bytes, begin: nat, end: nat)
    requires begin <= end <= |record|
    ensures Collapse(record[begin..end])
            == if end - begin >= 3 && record[end - 1] == '?' as int && record[end - 2] == '?' as int
                  && (LetterOrDigit(record[end - 3]) || record[end - 3] == ')' as int)
               then record[begin..end - 1] else record[begin..end]
  {
    var text := record[begin..end];
    assert forall k | 0 <= k < |text| :: text[k] == record[begin + k];
    if text != [] { assert text[..|text| - 1] == record[begin..end - 1]; }
  }

  lemma {:induction false} BlanksBack(record: Bytes, begin: nat, cursor: nat)
    requires begin <= cursor <= |record|
    ensures var k := BackOverSpace(record, begin, cursor);
            (forall j | k <= j < cursor :: Blank(record[j])) && (begin < k ==> !Blank(record[k - 1]))
  {
    if cursor > begin && IsSpace(record[cursor - 1]) { BlanksBack(record, begin, cursor - 1); }
  }

  lemma PieceEndExactly(record: Bytes, begin: nat, cursor: nat)
    requires begin <= cursor < |record|
    ensures PieceEnd(record, begin, cursor, CutAround) == if EndsWord(record, begin, cursor) then cursor + 1 else cursor
  {
    BlanksBack(record, begin, cursor);
  }

  /** The segments of a record are just its pieces, trimmed. */
  lemma {:induction false} SplitExactly(record: Bytes, begin: nat, cursor: nat)
    requires begin <= cursor <= |record|
    ensures AreSegmentsOf(record, Pieces(record, begin, cursor), Split(record, begin, cursor))
    decreases |record| - cursor
  {
    hide SegmentsOf, CutAt, PieceEnd, Split, StartsHere, StartsAfter, EndsWord, AreSegmentsOf, Pieces;
    SplitNext(record, begin, cursor);
    PiecesNext(record, begin, cursor);
    if cursor == |record| {
      NoPieces(record);
      OnePiece(record, begin, cursor, [], []);
      assert SegmentsOf(record, begin, cursor) + [] == SegmentsOf(record, begin, cursor);
    } else {
      var cut := CutAt(record, begin, cursor);
      var next := NextBegin(begin, cursor, cut);
      SplitExactly(record, next, cursor + 1);
      if cut == NoCut {
        assert [] + Split(record, next, cursor + 1) == Split(record, next, cursor + 1);
      } else {
        OnePiece(record, begin, PieceEnd(record, begin, cursor, cut), Pieces(record, next, cursor + 1),
                 Split(record, next, cursor + 1));
      }
    }
  }

  lemma NoPieces(record: Bytes)
    ensures AreSegmentsOf(record, [], [])
  {
  }

  lemma PiecesNext(record: Bytes, begin: nat, cursor: nat)
    requires begin <= cursor <= |record|
    ensures cursor == |record| ==> Pieces(record, begin, cursor) == [Piece(begin, cursor)] + []
    ensures cursor < |record| ==>
              var cut := CutAt(record, begin, cursor);
              var rest := Pieces(record, NextBegin(begin, cursor, cut), cursor + 1);
              Pieces(record, begin, cursor)
              == if cut == NoCut then rest else [Piece(begin, PieceEnd(record, begin, cursor, cut))] + rest
  {
    hide CutAt, StartsHere, StartsAfter, EndsWord;
    if cursor < |record| {
      CutExactly(record, begin, cursor);
      PieceEndExactly(record, begin, cursor);
    }
  }

  lemma OnePiece(record: Bytes, begin: nat, end: nat, pieces: seq<Piece>, segments: seq<Segment>)
    requires begin <= end <= |record| && AreSegmentsOf(record, pieces, segments)
    ensures AreSegmentsOf(record, [Piece(begin, end)] + pieces, SegmentsOf(record, begin, end) + segments)
  {
    TrimmedExactly(record, begin, end);
    hide IsTrimmed;
    var s := SegmentOf(record, begin, end);
    var all, found := [Piece(begin, end)] + pieces, SegmentsOf(record, begin, end) + segments;
    assert all[1..] == pieces;
    if s.begin == s.end { assert found == segments; } else { assert found[1..] == segments; }
  }

  lemma BoundaryIsCut(record: Bytes, begin: nat, cursor: nat)
    requires begin <= cursor < |record|
    ensures begin < cursor ==> (CutAt(record, begin, cursor) != NoCut <==> ControlBoundary(record, cursor))
    ensures begin == cursor ==> CutAt(record, begin, cursor) != CutBefore
  {
    hide StartsHere, StartsAfter;
    CutExactly(record, begin, cursor);
  }

  // ----- no control is left inside a segment

  /** No segment holds a control boundary past its first byte, unless that is the question mark that it ends in. */
  ghost predicate NoneCutThrough(record: Bytes, segments: seq<Segment>) {
    forall i, at: nat | 0 <= i < |segments| && segments[i].begin < at < segments[i].end && at < |record| ::
      ControlBoundary(record, at) ==> at + 1 == segments[i].end && record[at] == QUESTION
  }

  lemma NoneCutThroughConcat(record: Bytes, a: seq<Segment>, b: seq<Segment>)
    requires NoneCutThrough(record, a) && NoneCutThrough(record, b)
    ensures NoneCutThrough(record, a + b)
  {
  }

  lemma PieceIsWhole(record: Bytes, begin: nat, end: nat, cursor: nat)
    requires begin <= cursor <= |record| && begin <= end <= |record|
    requires end <= cursor || (end == cursor + 1 && record[cursor] == QUESTION)
    requires forall at: nat | begin < at < cursor :: !ControlBoundary(record, at)
    ensures NoneCutThrough(record, SegmentsOf(record, begin, end))
  {
  }

  /** Every control boundary of the record starts a new segment, except a question mark that ends a word and its
      segment: none is left inside one. */
  lemma {:induction false} SplitCutsEveryControl(record: Bytes, begin: nat, cursor: nat)
    requires begin <= cursor <= |record|
    requires forall at: nat | begin < at < cursor :: !ControlBoundary(record, at)
    ensures NoneCutThrough(record, Split(record, begin, cursor))
    decreases |record| - cursor
  {
    hide SegmentsOf, PieceEnd, CutAt, ControlBoundary, NoneCutThrough, Split;
    SplitNext(record, begin, cursor);
    if cursor == |record| {
      PieceIsWhole(record, begin, cursor, cursor);
    } else {
      BoundaryIsCut(record, begin, cursor);
      var cut := CutAt(record, begin, cursor);
      var next := NextBegin(begin, cursor, cut);
      SplitCutsEveryControl(record, next, cursor + 1);
      if cut == NoCut {
        assert [] + Split(record, next, cursor + 1) == Split(record, next, cursor + 1);
      } else {
        var end := PieceEnd(record, begin, cursor, cut);
        PieceIsWhole(record, begin, end, cursor);
        NoneCutThroughConcat(record, SegmentsOf(record, begin, end), Split(record, next, cursor + 1));
      }
    }
  }

  /** Between two segments that follow each other the record is cut at a control boundary. */
  ghost predicate CutBetween(record: Bytes, before: Segment, after: Segment) {
    exists at: nat :: 0 < at < |record| && before.end <= at + 1 && at <= after.begin && ControlBoundary(record, at)
  }

  ghost predicate CutOnlyAtControls(record: Bytes, segments: seq<Segment>) {
    forall i | 0 < i < |segments| :: CutBetween(record, segments[i - 1], segments[i])
  }

  /** The record is cut nowhere but at its control boundaries. */
  lemma {:induction false} SplitCutsOnlyControls(record: Bytes, begin: nat, cursor: nat)
    requires begin <= cursor <= |record|
    ensures CutOnlyAtControls(record, Split(record, begin, cursor))
    decreases |record| - cursor
  {
    hide Split, SegmentOf, PieceEnd, CutAt, ControlBoundary, InRow, LosesOnlySeparators;
    SplitNext(record, begin, cursor);
    if cursor < |record| {
      BoundaryIsCut(record, begin, cursor);
      var cut := CutAt(record, begin, cursor);
      var next := NextBegin(begin, cursor, cut);
      SplitCutsOnlyControls(record, next, cursor + 1);
      if cut != NoCut {
        var piece, rest := SegmentsOf(record, begin, PieceEnd(record, begin, cursor, cut)), Split(record, next, cursor + 1);
        SplitKeepsText(record, next, cursor + 1);
        InRowBounds(rest, next, |record|);
        PieceKeeps(record, begin, PieceEnd(record, begin, cursor, cut));
        InRowBounds(piece, begin, PieceEnd(record, begin, cursor, cut));
        if piece != [] && rest != [] {
          assert ControlBoundary(record, cursor);
          assert CutBetween(record, piece[0], rest[0]);
        }
        forall i | 0 < i < |piece + rest| ensures CutBetween(record, (piece + rest)[i - 1], (piece + rest)[i]) {
          if i > |piece| { assert CutBetween(record, rest[i - |piece| - 1], rest[i - |piece|]); }
        }
      }
    }
  }
}
