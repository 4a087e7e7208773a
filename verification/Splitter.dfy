// Cutting the text of a record into markup segments (decoded_record_scan.cpp).
module Splitter {
  import opened Bytes

  predicate IsSpace(b: Byte) {
    b == 0x20 || 0x09 <= b <= 0x0D
  }

  predicate IsAlnum(b: Byte) {
    IsDigit(b) || 'a' as int <= b <= 'z' as int || 'A' as int <= b <= 'Z' as int
  }

  /** `is_topic_id_char`. */
  predicate IsTopicIdChar(b: Byte) {
    IsAlnum(b) || b == '.' as int || b == '_' as int || b == '-' as int
  }

  const QUESTION: Byte := '?' as int
  const COMMA: Byte := ',' as int
  const DOT: Byte := '.' as int

  // ----- where a control starts

  const COUNT: nat := 56

  /** The names that open a control, in the order in which they are tried. */
  function Prefix(k: nat): string
    requires k < COUNT
  {
    match k
    case 0 => "csartdesc" case 1 => "ceartdesc" case 2 => "cartdesc" case 3 => "csart" case 4 => "ceart"
    case 5 => "ctopicn" case 6 => "ctopic#" case 7 => "cparent" case 8 => "cforwardlevel" case 9 => "cbacklevel"
    case 10 => "csummary" case 11 => "chdlevel" case 12 => "csourcefn" case 13 => "st" case 14 => "c.sp"
    case 15 => "c.cp" case 16 => "ctocdef" case 17 => "ctoce" case 18 => "etoc" case 19 => "cfontdef"
    case 20 => "cfont" case 21 => "cselect" case 22 => "cmenu" case 23 => "cmitem" case 24 => "cemenu"
    case 25 => "srfig" case 26 => "srefig" case 27 => "srtbl" case 28 => "sretbl" case 29 => "sr"
    case 30 => "cz" case 31 => "si" case 32 => "citerm" case 33 => "cgpsep" case 34 => "clanguage"
    case 35 => "cversion" case 36 => "cbldvers" case 37 => "creflow" case 38 => "ctitle" case 39 => "cstitle"
    case 40 => "ccopyright" case 41 => "csecurity" case 42 => "cdate" case 43 => "cauthor" case 44 => "cdocnum"
    case 45 => "ctopics" case 46 => "cbasenum" case 47 => "cdoclevel" case 48 => "cfront" case 49 => "ccontents"
    case 50 => "cfigures" case 51 => "ctables" case 52 => "cindex" case 53 => "cendindex" case 54 => "cidelm"
    case _ => "cpicture"
  }

  /** `ascii_starts_with_case_insensitive`; the prefixes used here are in lower case. */
  predicate StartsWith(value: Bytes, at: nat, prefix: string) {
    at + |prefix| <= |value| && forall k | 0 <= k < |prefix| :: Lower(value[at + k]) == prefix[k] as int
  }

  function SkipSpace(value: Bytes, at: nat): (next: nat)
    requires at <= |value|
    ensures at <= next <= |value|
    decreases |value| - at
  {
    if at < |value| && IsSpace(value[at]) then SkipSpace(value, at + 1) else at
  }

  /** What a prefix that stands at `at` says about the bytes after it: a control, no control, or ask the next one. */
  datatype Verdict = IsControl | NoControl | NextPrefix

  function Judge(value: Bytes, at: nat, prefix: string): Verdict {
    if !StartsWith(value, at, prefix) then NextPrefix
    else
      var end := at + |prefix|;
      if end == |value| then IsControl
      else
        var next := value[end];
        if IsSpace(next) || next == '=' as int || next == COMMA || next == DOT then IsControl
        else if prefix == "st" && next == '|' as int then IsControl
        else if (prefix == "ceart" || prefix == "ceartdesc") && !IsAlnum(next) then IsControl
        else if (prefix == "srfig" || prefix == "srtbl" || prefix == "sr") && IsTopicIdChar(next) then
          if prefix == "sr" && end + 1 < |value| && IsSpace(value[end + 1]) then NoControl else IsControl
        else NextPrefix
  }

  function JudgeFrom(value: Bytes, at: nat, k: nat): bool
    requires k <= COUNT
    decreases COUNT - k
  {
    if k == COUNT then false
    else match Judge(value, at, Prefix(k))
      case IsControl => true
      case NoControl => false
      case NextPrefix => JudgeFrom(value, at, k + 1)
  }

  function ControlAt(value: Bytes, at: nat): bool {
    if at >= |value| then false
    else
      var start := SkipSpace(value, at);
      start < |value| && JudgeFrom(value, start, 0)
  }

  /** `looks_like_gml_control_at`. */
  method LooksLikeControl(value: Bytes, at: nat) returns (found: bool)
    ensures found == ControlAt(value, at)
  {
    hide Prefix, Judge, StartsWith;
    var offset := at;
    while offset < |value| && IsSpace(value[offset])
      invariant at <= offset && (at < |value| ==> offset <= |value| && SkipSpace(value, at) == SkipSpace(value, offset))
    {
      offset := offset + 1;
    }
    if offset >= |value| { return false; }
    var initial := Lower(value[offset]);
    if initial != 'c' as int && initial != 'e' as int && initial != 's' as int {
      OtherInitials(value, offset, 0);
      return false;
    }
    for k := 0 to COUNT
      invariant JudgeFrom(value, offset, 0) == JudgeFrom(value, offset, k)
    {
      match Judge(value, offset, Prefix(k)) {
        case IsControl => return true;
        case NoControl => return false;
        case NextPrefix =>
      }
    }
    return false;
  }

  lemma InitialsOfPrefixes(k: nat)
    requires k < COUNT
    ensures Prefix(k) != "" && Prefix(k)[0] in {'c', 'e', 's'}
  {
  }

  lemma PrefixesPastSr(k: nat)
    requires k < COUNT
    ensures Prefix(k) == "sr" <==> k == SR
    ensures k > SR ==> |Prefix(k)| >= 2 && (Prefix(k)[0] != 's' || Prefix(k)[1] != 'r')
  {
  }

  lemma {:induction false} OtherInitials(value: Bytes, at: nat, k: nat)
    requires at < |value| && k <= COUNT
    requires Lower(value[at]) != 'c' as int && Lower(value[at]) != 'e' as int && Lower(value[at]) != 's' as int
    ensures !JudgeFrom(value, at, k)
    decreases COUNT - k
  {
    hide Prefix;
    if k < COUNT {
      InitialsOfPrefixes(k);
      OtherInitials(value, at, k + 1);
    }
  }

  const SR: nat := 29

  lemma FirstTwo(value: Bytes, at: nat, prefix: string)
    requires |prefix| >= 2 && StartsWith(value, at, prefix)
    ensures Lower(value[at]) == prefix[0] as int && Lower(value[at + 1]) == prefix[1] as int
  {
    assert value[at + 0] == value[at];
  }

  lemma {:induction false} NoneAfterSr(value: Bytes, at: nat, k: nat)
    requires StartsWith(value, at, "sr") && SR < k <= COUNT
    ensures forall j | k <= j < COUNT :: Judge(value, at, Prefix(j)) == NextPrefix
    decreases COUNT - k
  {
    hide Prefix;
    if k < COUNT {
      PrefixesPastSr(k);
      NoneAfterSr(value, at, k + 1);
      FirstTwo(value, at, "sr");
      if StartsWith(value, at, Prefix(k)) { FirstTwo(value, at, Prefix(k)); }
    }
  }

  /** The order of the prefixes and the early refusal after "sr" do not matter: a control stands where some prefix
      says so. */
  lemma ControlIsAnyPrefix(value: Bytes, at: nat, k: nat)
    requires k <= COUNT
    ensures JudgeFrom(value, at, k) <==> exists j :: k <= j < COUNT && Judge(value, at, Prefix(j)) == IsControl
    decreases COUNT - k
  {
    hide Prefix, StartsWith;
    if k < COUNT {
      ControlIsAnyPrefix(value, at, k + 1);
      PrefixesPastSr(k);
      if Judge(value, at, Prefix(k)) == NoControl { NoneAfterSr(value, at, k + 1); }
    }
  }

  // ----- one segment

  datatype Segment = Segment(begin: nat, end: nat, text: Bytes)

  ghost predicate RunAt(value: Bytes, at: int, b: Byte, count: nat) {
    0 <= at && at + count <= |value| && forall k | at <= k < at + count :: value[k] == b
  }

  ghost predicate HasRun(value: Bytes, b: Byte, count: nat) {
    exists at :: RunAt(value, at, b, count)
  }

  /** Twenty question marks or seventy blanks in a row. */
  ghost predicate IsFixed(value: Bytes) {
    HasRun(value, QUESTION, 20) || HasRun(value, 0x20, 70)
  }

  /** The last `run` bytes before `k` are all `b`, and the byte before them is not. */
  ghost predicate RunEndsAt(value: Bytes, k: nat, b: Byte, run: nat) {
    && run <= k <= |value|
    && (forall i | k - run <= i < k :: value[i] == b)
    && (run < k ==> value[k - run - 1] != b)
  }

  method HasFixedVisualPayload(value: Bytes) returns (fixed: bool)
    ensures fixed <==> IsFixed(value)
  {
    var questions, spaces := 0, 0;
    for k := 0 to |value|
      invariant RunEndsAt(value, k, QUESTION, questions) && RunEndsAt(value, k, 0x20, spaces)
      invariant questions < 20 && spaces < 70
      invariant !HasRun(value[..k], QUESTION, 20) && !HasRun(value[..k], 0x20, 70)
    {
      if value[k] == QUESTION {
        questions := questions + 1;
        if questions >= 20 { RunFound(value, k + 1, QUESTION, 20); return true; }
      } else {
        questions := 0;
      }
      RunGrows(value, k, QUESTION, questions, 20);
      if value[k] == 0x20 {
        spaces := spaces + 1;
        if spaces >= 70 { RunFound(value, k + 1, 0x20, 70); return true; }
      } else {
        spaces := 0;
      }
      RunGrows(value, k, 0x20, spaces, 70);
    }
    assert value[..|value|] == value;
    return false;
  }

  lemma RunFound(value: Bytes, k: nat, b: Byte, count: nat)
    requires k <= |value| && count <= k && forall i | k - count <= i < k :: value[i] == b
    ensures HasRun(value, b, count)
  {
    assert RunAt(value, k - count, b, count);
  }

  lemma RunGrows(value: Bytes, k: nat, b: Byte, run: nat, count: nat)
    requires k < |value| && RunEndsAt(value, k + 1, b, run) && run < count && !HasRun(value[..k], b, count)
    ensures !HasRun(value[..k + 1], b, count)
  {
    var longer, shorter := value[..k + 1], value[..k];
    forall at ensures !RunAt(longer, at, b, count) {
      if 0 <= at && at + count <= k {
        assert !RunAt(shorter, at, b, count);
        assert forall j | 0 <= j < k :: shorter[j] == longer[j];
      } else if at + count == k + 1 {
        assert run <= k ==> longer[k - run] == value[k - run];
      }
    }
  }

  predicate Trimmable(b: Byte, fixed: bool) {
    IsSpace(b) || (!fixed && (b < 0x20 || b == QUESTION))
  }

  function TrimmedBegin(record: Bytes, begin: nat, end: nat, fixed: bool): (b: nat)
    requires begin <= end <= |record|
    ensures begin <= b <= end && (b < end ==> !Trimmable(record[b], fixed))
    ensures forall k | begin <= k < b :: Trimmable(record[k], fixed)
    decreases end - begin
  {
    if begin < end && Trimmable(record[begin], fixed) then TrimmedBegin(record, begin + 1, end, fixed) else begin
  }

  function TrimmedEnd(record: Bytes, begin: nat, end: nat, fixed: bool): (e: nat)
    requires begin <= end <= |record|
    ensures begin <= e <= end && (begin < e ==> !Trimmable(record[e - 1], fixed))
    ensures forall k | e <= k < end :: Trimmable(record[k], fixed)
    decreases end
  {
    if begin < end && Trimmable(record[end - 1], fixed) then TrimmedEnd(record, begin, end - 1, fixed) else end
  }

  /** `collapse_terminal_question_separator`: of two question marks that end a word, one goes. */
  function Collapse(value: Bytes): (collapsed: Bytes)
    ensures collapsed == value || (value != [] && value[|value| - 1] == QUESTION && collapsed == value[..|value| - 1])
    ensures collapsed == [] <==> value == []
  {
    var n := |value|;
    if n < 3 || value[n - 1] != QUESTION || value[n - 2] != QUESTION then value
    else if IsAlnum(value[n - 3]) || value[n - 3] == ')' as int then value[..n - 1]
    else value
  }

  /** The segment of a raw piece of the record: trimmed, more boldly where no fixed display stands in it. */
  ghost function SegmentOf(record: Bytes, begin: nat, end: nat): (s: Segment)
    requires begin <= end <= |record|
    ensures begin <= s.begin <= s.end <= end
    ensures s.text == [] <==> s.begin == s.end
  {
    var fixed := IsFixed(record[begin..end]);
    var b := TrimmedBegin(record, begin, end, fixed);
    var e := TrimmedEnd(record, b, end, fixed);
    Segment(b, e, Collapse(record[b..e]))
  }

  method MakeSegment(record: Bytes, rawBegin: nat, rawEnd: nat) returns (s: Segment)
    requires rawBegin <= rawEnd <= |record|
    ensures s == SegmentOf(record, rawBegin, rawEnd)
  {
    var fixed := HasFixedVisualPayload(record[rawBegin..rawEnd]);
    var begin, end := rawBegin, rawEnd;
    while begin < end && Trimmable(record[begin], fixed)
      invariant rawBegin <= begin <= end
      invariant TrimmedBegin(record, rawBegin, rawEnd, fixed) == TrimmedBegin(record, begin, end, fixed)
    {
      begin := begin + 1;
    }
    while end > begin && Trimmable(record[end - 1], fixed)
      invariant begin <= end <= rawEnd
      invariant TrimmedEnd(record, begin, rawEnd, fixed) == TrimmedEnd(record, begin, end, fixed)
    {
      end := end - 1;
    }
    s := Segment(begin, end, Collapse(record[begin..end]));
  }

  // ----- the whole record

  /** How a place in the record ends the piece before it: not at all, before the byte, or around the byte. */
  datatype Cut = NoCut | CutBefore | CutAround

  function CutAt(record: Bytes, begin: nat, cursor: nat): Cut
    requires cursor < |record|
  {
    if cursor > begin && ControlAt(record, cursor) && !StartsWith(record, cursor, "sh")
       && (IsSpace(record[cursor - 1]) || record[cursor - 1] == DOT || record[cursor - 1] == COMMA)
    then CutBefore
    else if (record[cursor] == QUESTION || record[cursor] == COMMA) && ControlAt(record, cursor + 1) then CutAround
    else NoCut
  }

  /** Where the blanks before `cursor` start. */
  function BackOverSpace(record: Bytes, begin: nat, cursor: nat): (k: nat)
    requires begin <= cursor <= |record|
    ensures begin <= k <= cursor
  {
    if cursor > begin && IsSpace(record[cursor - 1]) then BackOverSpace(record, begin, cursor - 1) else cursor
  }

  /** A question mark that follows a word stays with the piece before it. */
  function PieceEnd(record: Bytes, begin: nat, cursor: nat, cut: Cut): (end: nat)
    requires begin <= cursor < |record|
    ensures end == cursor || (end == cursor + 1 && begin < cursor && record[cursor] == QUESTION && cut == CutAround)
  {
    if cut == CutAround && record[cursor] == QUESTION && cursor > begin then
      var k := BackOverSpace(record, begin, cursor);
      if k > begin && (IsAlnum(record[k - 1]) || record[k - 1] == ')' as int) then cursor + 1 else cursor
    else cursor
  }

  ghost function SegmentsOf(record: Bytes, begin: nat, end: nat): seq<Segment>
    requires begin <= end <= |record|
  {
    var s := SegmentOf(record, begin, end);
    if s.text == [] then [] else [s]
  }

  ghost function Split(record: Bytes, begin: nat, cursor: nat): seq<Segment>
    requires begin <= cursor <= |record|
    decreases |record| - cursor
  {
    if cursor == |record| then SegmentsOf(record, begin, cursor)
    else match CutAt(record, begin, cursor)
      case NoCut => Split(record, begin, cursor + 1)
      case CutBefore => SegmentsOf(record, begin, cursor) + Split(record, cursor, cursor + 1)
      case CutAround =>
        SegmentsOf(record, begin, PieceEnd(record, begin, cursor, CutAround)) + Split(record, cursor + 1, cursor + 1)
  }

  /** Where the piece after a cut starts. */
  function NextBegin(begin: nat, cursor: nat, cut: Cut): nat {
    if cut == NoCut then begin else if cut == CutBefore then cursor else cursor + 1
  }

  /** One turn, and the last piece. */
  lemma SplitNext(record: Bytes, begin: nat, cursor: nat)
    requires begin <= cursor <= |record|
    ensures cursor == |record| ==> Split(record, begin, cursor) == SegmentsOf(record, begin, cursor)
    ensures cursor < |record| ==>
              var cut := CutAt(record, begin, cursor);
              Split(record, begin, cursor)
              == (if cut == NoCut then [] else SegmentsOf(record, begin, PieceEnd(record, begin, cursor, cut)))
                 + Split(record, NextBegin(begin, cursor, cut), cursor + 1)
  {
    hide SegmentsOf, ControlAt, StartsWith;
  }

  /** `split_decoded_markup_segment_spans`. */
  method SplitRecord(record: Bytes) returns (segments: seq<Segment>)
    ensures segments == Split(record, 0, 0)
  {
    hide SegmentOf, CutAt, PieceEnd, ControlAt, StartsWith, Split;
    segments := [];
    var begin := 0;
    for cursor := 0 to |record|
      invariant begin <= cursor
      invariant Split(record, 0, 0) == segments + Split(record, begin, cursor)
    {
      SplitNext(record, begin, cursor);
      var cut := FindCut(record, begin, cursor);
      if cut == NoCut { continue; }
      var end := FindPieceEnd(record, begin, cursor, cut);
      var segment := MakeSegment(record, begin, end);
      Associate(segments, SegmentsOf(record, begin, end), Split(record, NextBegin(begin, cursor, cut), cursor + 1));
      if segment.text != [] { segments := segments + [segment]; }
      begin := if cut == CutBefore then cursor else cursor + 1;
    }
    SplitNext(record, begin, |record|);
    var segment := MakeSegment(record, begin, |record|);
    if segment.text != [] { segments := segments + [segment]; }
  }

  method FindCut(record: Bytes, begin: nat, cursor: nat) returns (cut: Cut)
    requires cursor < |record|
    ensures cut == CutAt(record, begin, cursor)
  {
    hide ControlAt, StartsWith;
    var here := LooksLikeControl(record, cursor);
    if cursor > begin && here && !StartsWith(record, cursor, "sh")
       && (IsSpace(record[cursor - 1]) || record[cursor - 1] == DOT || record[cursor - 1] == COMMA) {
      return CutBefore;
    }
    var next := LooksLikeControl(record, cursor + 1);
    if record[cursor] == QUESTION && next { return CutAround; }
    if record[cursor] == COMMA && next { return CutAround; }
    return NoCut;
  }

  method FindPieceEnd(record: Bytes, begin: nat, cursor: nat, cut: Cut) returns (end: nat)
    requires begin <= cursor < |record| && cut != NoCut
    ensures end == PieceEnd(record, begin, cursor, cut)
  {
    end := cursor;
    if cut != CutBefore && record[cursor] == QUESTION && cursor > begin {
      var previous := cursor;
      while previous > begin && IsSpace(record[previous - 1])
        invariant begin <= previous <= cursor
        invariant BackOverSpace(record, begin, cursor) == BackOverSpace(record, begin, previous)
      {
        previous := previous - 1;
      }
      if previous > begin && (IsAlnum(record[previous - 1]) || record[previous - 1] == ')' as int) {
        end := cursor + 1;
      }
    }
  }

  // ----- what the segments promise

  /** A byte that may stand between segments. */
  predicate IsSeparator(b: Byte) {
    IsSpace(b) || b < 0x20 || b == QUESTION || b == COMMA
  }

  /** The segments are not empty and follow each other inside the record, from `begin` on. */
  ghost predicate InRow(segments: seq<Segment>, begin: nat, end: nat) {
    if segments == [] then begin <= end
    else begin <= segments[0].begin < segments[0].end <= end && InRow(segments[1..], segments[0].end, end)
  }

  ghost predicate Inside(segments: seq<Segment>, at: nat) {
    exists i :: 0 <= i < |segments| && segments[i].begin <= at < segments[i].end
  }

  /** Only separators stand outside the segments. */
  ghost predicate LosesOnlySeparators(record: Bytes, segments: seq<Segment>, begin: nat, end: nat)
    requires end <= |record|
  {
    forall at: nat | begin <= at < end && !Inside(segments, at) :: IsSeparator(record[at])
  }

  lemma InsideConcat(a: seq<Segment>, b: seq<Segment>, at: nat)
    ensures Inside(a + b, at) <==> Inside(a, at) || Inside(b, at)
  {
    if Inside(a, at) {
      var i :| 0 <= i < |a| && a[i].begin <= at < a[i].end;
      assert (a + b)[i] == a[i];
    }
    if Inside(b, at) {
      var i :| 0 <= i < |b| && b[i].begin <= at < b[i].end;
      assert (a + b)[|a| + i] == b[i];
    }
    if Inside(a + b, at) {
      var i :| 0 <= i < |a + b| && (a + b)[i].begin <= at < (a + b)[i].end;
      if i < |a| { assert a[i] == (a + b)[i]; } else { assert b[i - |a|] == (a + b)[i]; }
    }
  }

  lemma {:induction false} InRowConcat(a: seq<Segment>, b: seq<Segment>, begin: nat, middle: nat, end: nat)
    requires InRow(a, begin, middle) && InRow(b, middle, end)
    ensures InRow(a + b, begin, end)
  {
    if a == [] {
      assert a + b == b;
      InRowFrom(b, middle, begin, end);
    } else {
      assert (a + b)[1..] == a[1..] + b;
      InRowConcat(a[1..], b, a[0].end, middle, end);
    }
  }

  lemma InRowFrom(segments: seq<Segment>, begin: nat, earlier: nat, end: nat)
    requires InRow(segments, begin, end) && earlier <= begin
    ensures InRow(segments, earlier, end)
  {
    InRowBounds(segments, begin, end);
  }

  lemma {:induction false} InRowBounds(segments: seq<Segment>, begin: nat, end: nat)
    requires InRow(segments, begin, end)
    ensures begin <= end
    ensures forall i | 0 <= i < |segments| :: begin <= segments[i].begin < segments[i].end <= end
    ensures forall i, j | 0 <= i < j < |segments| :: segments[i].end <= segments[j].begin
  {
    if segments != [] {
      InRowBounds(segments[1..], segments[0].end, end);
      assert forall i | 1 <= i < |segments| :: segments[i] == segments[1..][i - 1];
    }
  }

  /** One raw piece loses only what is trimmed off it. */
  lemma PieceKeeps(record: Bytes, begin: nat, end: nat)
    requires begin <= end <= |record|
    ensures InRow(SegmentsOf(record, begin, end), begin, end)
    ensures LosesOnlySeparators(record, SegmentsOf(record, begin, end), begin, end)
  {
    var s := SegmentOf(record, begin, end);
    var segments := SegmentsOf(record, begin, end);
    forall at: nat | begin <= at < end && !Inside(segments, at) ensures IsSeparator(record[at]) {
      if segments != [] { assert segments[0] == s; }
    }
  }

  /** The segments of a record follow each other, and everything outside them is a blank, a control character, a
      question mark or a comma: no other text is lost. */
  lemma {:induction false} SplitKeepsText(record: Bytes, begin: nat, cursor: nat)
    requires begin <= cursor <= |record|
    ensures InRow(Split(record, begin, cursor), begin, |record|)
    ensures LosesOnlySeparators(record, Split(record, begin, cursor), begin, |record|)
    decreases |record| - cursor
  {
    hide SegmentsOf, PieceEnd, ControlAt, StartsWith;
    if cursor == |record| {
      PieceKeeps(record, begin, cursor);
    } else {
      var cut := CutAt(record, begin, cursor);
      var next := NextBegin(begin, cursor, cut);
      SplitKeepsText(record, next, cursor + 1);
      if cut != NoCut {
        var end := PieceEnd(record, begin, cursor, cut);
        var piece, rest := SegmentsOf(record, begin, end), Split(record, next, cursor + 1);
        PieceKeeps(record, begin, end);
        InRowFrom(rest, next, end, |record|);
        InRowConcat(piece, rest, begin, end, |record|);
        forall at: nat | begin <= at < |record| && !Inside(piece + rest, at) ensures IsSeparator(record[at]) {
          InsideConcat(piece, rest, at);
        }
      }
    }
  }
}
