// What withdrawing controls keeps: the text, the controls that no display line owns, and their order.
module DemotionLaws {
  import opened SpanSearch
  import opened SegmentCuts
  import opened ControlIR
  import opened ControlSegments
  import opened Demotion

  // ----- which controls are withdrawn

  /** Control `i` is withdrawn as the spelling of a length byte. A selector that is withdrawn itself selects no line. */
  predicate IsWithdrawn(d: Decoded, controls: seq<Control>, i: nat, carried: bool)
    requires i < |controls|
  {
    var selected := if i == 0 then carried else IsOpenSelect(controls[i - 1]) && !IsWithdrawn(d, controls, i - 1, carried);
    IsLengthSpelling(d, controls[i], selected)
  }

  lemma {:induction false} WithdrawnAt(d: Decoded, controls: seq<Control>, plain: seq<Control>, carried: bool, i: nat)
    requires WithoutLengths(d, controls, plain, carried) && i < |controls|
    ensures plain[i] == if IsWithdrawn(d, controls, i, carried) then AsDisplayText(controls[i]) else controls[i]
    ensures OnSelectedLine(plain, i, carried)
            == if i == 0 then carried else IsOpenSelect(controls[i - 1]) && !IsWithdrawn(d, controls, i - 1, carried)
  {
    hide IsLengthSpelling;
    if i > 0 { WithdrawnAt(d, controls, plain, carried, i - 1); }
    assert WithoutLength(d, controls, plain, carried, i);
  }

  /** Neither pass withdraws anything from what it gives. */
  lemma WithdrawingSettles(d: Decoded, controls: seq<Control>, plain: seq<Control>, free: seq<Control>, carried: bool)
    requires WithoutLengths(d, controls, plain, carried) && WithoutOwned(d, plain, free)
    ensures WithoutLengths(d, plain, plain, carried) && WithoutOwned(d, free, free)
  {
    hide IsOwned, OpcodeToken, Spelling;
    forall i | 0 <= i < |plain| ensures WithoutLength(d, plain, plain, carried, i) {
      assert WithoutLength(d, controls, plain, carried, i);
    }
  }

  // ----- which controls survive

  /** A segment of that kind and opcode starts where `c` does. */
  ghost predicate IsIn(controls: seq<Control>, c: Control) {
    exists i :: 0 <= i < |controls| && SameControl(controls[i], c)
  }

  predicate SameControl(a: Control, c: Control) {
    a.complete.begin == c.complete.begin && a.kind == c.kind && a.opcode == c.opcode
  }

  /** The groups keep their first segments, and take in text only. */
  ghost predicate Gathers(controls: seq<Control>, starts: seq<nat>, result: seq<Control>) {
    && AreStarts(starts, |controls|) && |starts| == |result| + 1
    && (forall i | 0 <= i < |result| :: starts[i] < |controls| && SameControl(controls[starts[i]], result[i]))
    && forall i, j | 0 <= i < |result| && starts[i] < j < starts[i + 1] && j < |controls| :: controls[j].kind == PlainText
  }

  lemma GatheringKeeps(controls: seq<Control>, starts: seq<nat>, result: seq<Control>, c: Control)
    requires Gathers(controls, starts, result) && c.kind != PlainText
    ensures IsIn(result, c) <==> IsIn(controls, c)
  {
    hide AreStarts;
    if IsIn(controls, c) {
      var j :| 0 <= j < |controls| && SameControl(controls[j], c);
      var i := GroupOf(starts, |controls|, j);
      assert SameControl(result[i], c);
    }
    if IsIn(result, c) {
      var i :| 0 <= i < |result| && SameControl(result[i], c);
      assert SameControl(controls[starts[i]], c);
    }
  }

  lemma RejoiningGathers(d: Decoded, controls: seq<Control>, carried: bool, starts: seq<nat>, result: seq<Control>)
    requires AreStarts(starts, |controls|) && RejoinedBy(d, controls, carried, starts, result)
    ensures Gathers(controls, starts, result)
  {
    hide IsFound, BytesToWords, LineOf, TakesLine;
    forall i | 0 <= i < |result|
      ensures SameControl(controls[starts[i]], result[i])
      ensures forall j | starts[i] < j < starts[i + 1] :: controls[j].kind == PlainText
    {
      assert IsRejoined(d, controls, starts[i], starts[i + 1], result[i]);
    }
  }

  lemma BoundingGathers(d: Decoded, controls: seq<Control>, starts: seq<nat>, result: seq<Control>)
    requires SoundDecoded(d) && AreStarts(starts, |controls|) && BoundedBy(d, controls, starts, result)
    ensures Gathers(controls, starts, result)
  {
    hide SoundDecoded, IsFound, BytesToWords, LineOf, ItemLine, ItemEnd;
    forall i | 0 <= i < |result|
      ensures SameControl(controls[starts[i]], result[i])
      ensures forall j | starts[i] < j < starts[i + 1] :: controls[j].kind == PlainText
    {
      assert IsBounded(d, controls, starts[i], starts[i + 1], result[i]);
    }
  }

  /** The last two passes keep all controls and invent none. */
  lemma JoiningKeeps(d: Decoded, free: seq<Control>, joined: seq<Control>, result: seq<Control>, carried: bool, c: Control)
    requires SoundDecoded(d) && Rejoined(d, free, joined, carried) && ItemsBounded(d, joined, result) && c.kind != PlainText
    ensures IsIn(result, c) <==> IsIn(free, c)
  {
    hide SoundDecoded, RejoinedBy, BoundedBy, AreStarts, Gathers, IsIn;
    var first :| AreStarts(first, |free|) && RejoinedBy(d, free, carried, first, joined);
    RejoiningGathers(d, free, carried, first, joined);
    GatheringKeeps(free, first, joined, c);
    var second :| AreStarts(second, |joined|) && BoundedBy(d, joined, second, result);
    BoundingGathers(d, joined, second, result);
    GatheringKeeps(joined, second, result, c);
  }

  /** A control survives exactly when it is not the spelling of a length byte and no display line owns it. */
  lemma ControlSurvivesExactly(d: Decoded, controls: seq<Control>, result: seq<Control>, carried: bool, i: nat)
    requires SoundDecoded(d) && Row(d.env, controls) && Demoted(d, controls, result, carried)
    requires i < |controls| && controls[i].kind != PlainText
    ensures IsIn(result, controls[i]) <==> !IsWithdrawn(d, controls, i, carried) && !IsOwned(d, controls[i])
  {
    hide SoundDecoded, Row, WithoutLengths, Rejoined, ItemsBounded, IsWithdrawn, IsOwned;
    var plain: seq<Control>, free: seq<Control>, joined: seq<Control> :|
      DemotedBy(d, controls, plain, free, joined, result, carried);
    JoiningKeeps(d, free, joined, result, carried, controls[i]);
    KeepsExtents(d, controls, plain, free, carried);
    WithdrawnAt(d, controls, plain, carried, i);
    if IsIn(free, controls[i]) {
      var k :| 0 <= k < |free| && SameControl(free[k], controls[i]);
      if k < i { RowAscends(d.env, controls, k, i); }
      if i < k { RowAscends(d.env, controls, i, k); }
    } else {
      assert !SameControl(free[i], controls[i]);
    }
  }

  /** Every control of the result was one before. */
  lemma NoControlIsInvented(d: Decoded, controls: seq<Control>, result: seq<Control>, carried: bool, c: Control)
    requires SoundDecoded(d) && Demoted(d, controls, result, carried)
    requires c in result && c.kind != PlainText
    ensures IsIn(controls, c)
  {
    hide SoundDecoded, Row, WithoutLengths, Rejoined, ItemsBounded, IsWithdrawn, IsOwned;
    var plain: seq<Control>, free: seq<Control>, joined: seq<Control> :|
      DemotedBy(d, controls, plain, free, joined, result, carried);
    assert IsIn(result, c) by {
      var k :| 0 <= k < |result| && result[k] == c;
      assert SameControl(result[k], c);
    }
    JoiningKeeps(d, free, joined, result, carried, c);
    var i :| 0 <= i < |free| && SameControl(free[i], c);
    KeepsExtents(d, controls, plain, free, carried);
    WithdrawnAt(d, controls, plain, carried, i);
    assert SameControl(controls[i], c);
  }

  // ----- the text that the segments show

  lemma KeepsExtents(d: Decoded, controls: seq<Control>, plain: seq<Control>, free: seq<Control>, carried: bool)
    requires WithoutLengths(d, controls, plain, carried) && WithoutOwned(d, plain, free)
    ensures |free| == |controls| == |plain|
    ensures forall i | 0 <= i < |free| :: free[i].complete == controls[i].complete
  {
    hide IsLengthSpelling, IsOwned;
    forall i | 0 <= i < |free| ensures free[i].complete == controls[i].complete {
      assert WithoutLength(d, controls, plain, carried, i);
    }
  }

  /** The byte stood past the end of a menu item's display line, and the item was cut off there. */
  ghost predicate IsCutOff(d: Decoded, result: seq<Control>, at: nat)
    requires SoundDecoded(d)
  {
    exists i, line ::
      && 0 <= i < |result| && 0 <= line < |d.env.lines| && result[i].kind == MenuItem
      && result[i].complete.end == LineEnd(d.env, line) <= at
      && (i + 1 < |result| ==> at < result[i + 1].complete.begin)
  }

  lemma RejoiningShows(d: Decoded, controls: seq<Control>, result: seq<Control>, carried: bool, at: nat)
    requires SoundDecoded(d) && Row(d.env, controls) && Rejoined(d, controls, result, carried) && Shown(controls, at)
    ensures Shown(result, at)
  {
    hide SoundDecoded, Row, AreStarts, IsFound, BytesToWords, RejoinEnd;
    var starts :| AreStarts(starts, |controls|) && RejoinedBy(d, controls, carried, starts, result);
    var j :| 0 <= j < |controls| && controls[j].complete.begin <= at < controls[j].complete.end;
    var i := GroupOf(starts, |controls|, j);
    assert IsRejoined(d, controls, starts[i], starts[i + 1], result[i]);
    RowAscends(d.env, controls, starts[i], j);
    RowAscends(d.env, controls, j, starts[i + 1] - 1);
    assert result[i].complete.begin <= at < result[i].complete.end;
  }

  /** A group's segment ends where the group does, or at the end of a display line. */
  lemma BoundedEnd(d: Decoded, controls: seq<Control>, starts: seq<nat>, result: seq<Control>, i: nat)
    requires SoundDecoded(d) && BoundedBy(d, controls, starts, result) && i < |result|
    ensures starts[i] < starts[i + 1] <= |controls|
    ensures result[i].complete.begin == controls[starts[i]].complete.begin
    ensures result[i].complete.end != controls[starts[i + 1] - 1].complete.end ==>
              result[i].kind == MenuItem
              && exists line :: 0 <= line < |d.env.lines| && result[i].complete.end == LineEnd(d.env, line)
  {
    hide SoundDecoded, Sound, IsFound, BytesToWords, LineOf, LineEnd, RunEnd;
    ViewIsSound(d);
    assert IsBounded(d, controls, starts[i], starts[i + 1], result[i]);
  }

  lemma BoundingShows(d: Decoded, controls: seq<Control>, result: seq<Control>, at: nat)
    requires SoundDecoded(d) && Row(d.env, controls) && ItemsBounded(d, controls, result) && Shown(controls, at)
    ensures Shown(result, at) || IsCutOff(d, result, at)
  {
    hide SoundDecoded, Sound, Row, AreStarts, BoundedBy, LineEnd;
    ViewIsSound(d);
    var starts :| AreStarts(starts, |controls|) && BoundedBy(d, controls, starts, result);
    var j :| 0 <= j < |controls| && controls[j].complete.begin <= at < controls[j].complete.end;
    var i := GroupOf(starts, |controls|, j);
    StartsMatch(d, controls, starts, result);
    BoundedEnd(d, controls, starts, result, i);
    RowAscends(d.env, controls, starts[i], j);
    RowAscends(d.env, controls, j, starts[i + 1] - 1);
    if at < result[i].complete.end {
      assert result[i].complete.begin <= at < result[i].complete.end;
    } else if i + 1 < |result| {
      BoundedEnd(d, controls, starts, result, i + 1);
      RowAscends(d.env, controls, starts[i + 1] - 1, starts[i + 1]);
    }
  }

  lemma StartsMatch(d: Decoded, controls: seq<Control>, starts: seq<nat>, result: seq<Control>)
    requires SoundDecoded(d) && BoundedBy(d, controls, starts, result)
    ensures |starts| == |result| + 1
  {
  }

  lemma CutOffIsNotShown(d: Decoded, result: seq<Control>, at: nat)
    requires SoundDecoded(d) && Row(d.env, result) && IsCutOff(d, result, at)
    ensures !Shown(result, at)
  {
    hide SoundDecoded, Row, LineEnd;
    var i :| 0 <= i < |result| && result[i].complete.end <= at
             && (i + 1 < |result| ==> at < result[i + 1].complete.begin);
    forall k | 0 <= k < |result| ensures !(result[k].complete.begin <= at < result[k].complete.end) {
      if k <= i { RowAscends(d.env, result, k, i); }
      if k > i { RowAscends(d.env, result, i + 1, k); }
    }
  }

  /** A byte that a segment showed is lost exactly when it stood in a menu item's segment past the item's display line. */
  lemma OnlyLineEndsAreCut(d: Decoded, controls: seq<Control>, result: seq<Control>, carried: bool, at: nat)
    requires SoundDecoded(d) && Row(d.env, controls) && Demoted(d, controls, result, carried) && Shown(controls, at)
    requires Row(d.env, result)
    ensures Shown(result, at) <==> !IsCutOff(d, result, at)
  {
    hide SoundDecoded, Row, WithoutLengths, WithoutOwned, Rejoined, ItemsBounded, IsCutOff;
    var plain: seq<Control>, free: seq<Control>, joined: seq<Control> :|
      DemotedBy(d, controls, plain, free, joined, result, carried);
    KeepsExtents(d, controls, plain, free, carried);
    assert Shown(free, at) by {
      var i :| 0 <= i < |controls| && controls[i].complete.begin <= at < controls[i].complete.end;
      assert free[i].complete.begin <= at < free[i].complete.end;
    }
    RejoiningShows(d, free, joined, carried, at);
    BoundingShows(d, joined, result, at);
    if IsCutOff(d, result, at) { CutOffIsNotShown(d, result, at); }
  }
}
