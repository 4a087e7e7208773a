// Decoding and encoding are inverse to each other, and a single changed byte is always noticed.
module SnapshotLaws {
  import opened Bytes
  import opened Checksum
  import opened Snapshot

  lemma {:induction false} NumberOfItsBytes(value: nat, width: nat)
    requires value < Pow256(width)
    ensures NumberOf(NumberBytes(value, width)) == value
  {
    if width > 0 {
      assert value / 256 < Pow256(width - 1);
      NumberOfItsBytes(value / 256, width - 1);
      assert NumberBytes(value, width)[1..] == NumberBytes(value / 256, width - 1);
    }
  }

  lemma {:induction false} BytesOfTheirNumber(b: Bytes)
    ensures NumberBytes(NumberOf(b), |b|) == b
  {
    if b != [] {
      BytesOfTheirNumber(b[1..]);
      var rest := NumberOf(b[1..]);
      assert NumberOf(b) % 256 == b[0] && NumberOf(b) / 256 == rest;
      assert b == [b[0]] + b[1..];
    }
  }

  /** A number is read exactly where its bytes stand. */
  lemma NumberIsRead(b: Bytes, at: nat, width: nat, value: nat, end: nat)
    requires at <= |b|
    ensures ReadNumber(b, at, width) == Got(value, end)
            <==> value < Pow256(width) && end == at + width && StandsAt(b, at, NumberBytes(value, width))
  {
    hide NumberOf, NumberBytes, Pow256;
    if ReadNumber(b, at, width) == Got(value, end) {
      BytesOfTheirNumber(b[at..end]);
    }
    if value < Pow256(width) && end == at + width && StandsAt(b, at, NumberBytes(value, width)) {
      NumberOfItsBytes(value, width);
    }
  }

  lemma SignedIsRead(b: Bytes, at: nat, value: Int64, end: nat)
    requires at <= |b|
    ensures ReadSigned(b, at) == Got(value, end)
            <==> value >= 0 && end == at + 8 && StandsAt(b, at, NumberBytes(value, FIELD_WIDTH))
  {
    WordPower();
    if value >= 0 { NumberIsRead(b, at, FIELD_WIDTH, value, end); }
  }

  lemma UnsignedIsRead(b: Bytes, at: nat, value: U64, end: nat)
    requires at <= |b|
    ensures ReadUnsigned(b, at) == Got(value, end) <==> end == at + 8 && StandsAt(b, at, NumberBytes(value, FIELD_WIDTH))
  {
    WordPower();
    NumberIsRead(b, at, FIELD_WIDTH, value, end);
  }

  lemma TextIsRead(b: Bytes, at: nat, text: Bytes, end: nat)
    requires at <= |b|
    ensures ReadText(b, at) == Got(text, end)
            <==> |text| <= MAX_STRING_BYTES && end == at + 4 + |text| && StandsAt(b, at, TextBytes(text))
  {
    WordPower();
    NumberIsRead(b, at, COUNT_WIDTH, |text|, at + 4);
    StandsAtSplit(b, at, NumberBytes(|text|, COUNT_WIDTH), text);
  }

  lemma StampIsRead(b: Bytes, at: nat, s: FileStamp, end: nat)
    requires at <= |b|
    ensures ReadStamp(b, at) == Got(s, end)
            <==> ValidStamp(s) && end == at + 40 && StandsAt(b, at, StampBytes(s))
  {
    if ValidStamp(s) {
      var m, c, z := NumberBytes(s.mtime, FIELD_WIDTH), NumberBytes(s.ctime, FIELD_WIDTH), NumberBytes(s.size, FIELD_WIDTH);
      var d, i := NumberBytes(s.device, FIELD_WIDTH), NumberBytes(s.inode, FIELD_WIDTH);
      StandsAtSplit(b, at, m + c + z + d, i);
      StandsAtSplit(b, at, m + c + z, d);
      StandsAtSplit(b, at, m + c, z);
      StandsAtSplit(b, at, m, c);
      if at + 40 <= |b| {
        SignedIsRead(b, at, s.mtime, at + 8);
        SignedIsRead(b, at + 8, s.ctime, at + 16);
        SignedIsRead(b, at + 16, s.size, at + 24);
        UnsignedIsRead(b, at + 24, s.device, at + 32);
        UnsignedIsRead(b, at + 32, s.inode, at + 40);
      }
    }
  }

  ghost predicate ShortLabels(l: Labels) {
    |l.title| <= MAX_STRING_BYTES && |l.documentNumber| <= MAX_STRING_BYTES && |l.built| <= MAX_STRING_BYTES
  }

  lemma LabelsAreRead(b: Bytes, at: nat, l: Labels, end: nat)
    requires at <= |b|
    ensures ReadLabels(b, at) == Got(l, end)
            <==> ShortLabels(l) && end == at + |LabelBytes(l)| && StandsAt(b, at, LabelBytes(l))
  {
    hide ReadText;
    var x, y, z := l.title, l.documentNumber, l.built;
    StandsAtSplit(b, at, TextBytes(x) + TextBytes(y), TextBytes(z));
    StandsAtSplit(b, at, TextBytes(x), TextBytes(y));
    var a1 := at + |TextBytes(x)|;
    var a2 := a1 + |TextBytes(y)|;
    TextIsRead(b, at, x, a1);
    if a1 <= |b| { TextIsRead(b, a1, y, a2); }
    if a2 <= |b| { TextIsRead(b, a2, z, end); }
    if ReadLabels(b, at) == Got(l, end) {
      TextEnd(b, at);
      TextEnd(b, a1);
    }
  }

  lemma TextEnd(b: Bytes, at: nat)
    requires at <= |b| && ReadText(b, at).Got?
    ensures |ReadText(b, at).value| <= MAX_STRING_BYTES
    ensures ReadText(b, at).at == at + |TextBytes(ReadText(b, at).value)|
  {
  }

  /** An identity is read exactly where its bytes stand. */
  lemma IdentityIsRead(b: Bytes, at: nat, i: ShelfIdentity, end: nat)
    requires at <= |b|
    ensures ReadIdentity(b, at) == Got(i, end)
            <==> ValidIdentity(i) && end == at + |IdentityBytes(i)| && StandsAt(b, at, IdentityBytes(i))
  {
    hide NumberBytes;
    var e := i.entry;
    var name := TextBytes(e.filename);
    var a1 := at + |name|;
    TextIsRead(b, at, e.filename, a1);
    if a1 <= |b| { StampIsRead(b, a1, i.stamp, a1 + 40); }
    if a1 + 40 <= |b| { LabelsAreRead(b, a1 + 40, LabelsOf(e), end); }
    if ValidStamp(i.stamp) {
      StandsAtSplit(b, at, name + StampBytes(i.stamp), LabelBytes(LabelsOf(e)));
      StandsAtSplit(b, at, name, StampBytes(i.stamp));
    }
    if ReadIdentity(b, at) == Got(i, end) {
      TextEnd(b, at);
      StampIsRead(b, a1, i.stamp, ReadStamp(b, a1).at);
    }
  }

  lemma OneMoreIdentity(b: Bytes, at: nat, early: seq<ShelfIdentity>, next: nat, last: ShelfIdentity, end: nat)
    requires at <= |b| && next <= |b|
    requires ReadIdentities(b, at, |early|) == Got(early, next) && !NameTaken(early, last.entry.filename)
    requires ValidIdentity(last) && StandsAt(b, next, IdentityBytes(last)) && end == next + |IdentityBytes(last)|
    ensures ReadIdentities(b, at, |early| + 1) == Got(early + [last], end)
  {
    IdentityIsRead(b, next, last, end);
  }

  lemma LastReadIdentity(b: Bytes, at: nat, count: nat)
    returns (early: seq<ShelfIdentity>, next: nat, last: ShelfIdentity)
    requires at <= |b| && count > 0 && ReadIdentities(b, at, count).Got?
    ensures ReadIdentities(b, at, count - 1) == Got(early, next) && !NameTaken(early, last.entry.filename)
    ensures ValidIdentity(last) && StandsAt(b, next, IdentityBytes(last))
    ensures ReadIdentities(b, at, count) == Got(early + [last], next + |IdentityBytes(last)|)
  {
    var before := ReadIdentities(b, at, count - 1);
    early, next := before.value, before.at;
    var read := ReadIdentity(b, next);
    last := read.value;
    IdentityIsRead(b, next, last, read.at);
  }

  lemma Appended(early: seq<ShelfIdentity>, last: ShelfIdentity)
    requires ValidIdentities(early) && ValidIdentity(last)
    ensures ValidIdentities(early + [last])
    ensures DistinctNames(early + [last]) <==> DistinctNames(early) && !NameTaken(early, last.entry.filename)
    ensures AllIdentityBytes(early + [last]) == AllIdentityBytes(early) + IdentityBytes(last)
  {
    var ids := early + [last];
    assert ids[..|early|] == early;
    assert forall i | 0 <= i < |early| :: ids[i] == early[i];
    if DistinctNames(ids) {
      assert forall i | 0 <= i < |early| :: ids[i].entry.filename != ids[|early|].entry.filename;
    }
  }

  lemma {:induction false} IdentitiesAreRead(b: Bytes, at: nat, ids: seq<ShelfIdentity>)
    requires at <= |b| && ValidIdentities(ids) && DistinctNames(ids)
    requires StandsAt(b, at, AllIdentityBytes(ids))
    ensures ReadIdentities(b, at, |ids|) == Got(ids, at + |AllIdentityBytes(ids)|)
    decreases |ids|
  {
    hide ReadIdentity, ValidIdentity, IdentityBytes;
    if ids != [] {
      var early, last := ids[..|ids| - 1], ids[|ids| - 1];
      assert ids == early + [last];
      Appended(early, last);
      StandsAtSplit(b, at, AllIdentityBytes(early), IdentityBytes(last));
      IdentitiesAreRead(b, at, early);
      var next := at + |AllIdentityBytes(early)|;
      OneMoreIdentity(b, at, early, next, last, next + |IdentityBytes(last)|);
    }
  }

  ghost predicate IdentitiesStand(b: Bytes, at: nat, ids: seq<ShelfIdentity>, end: nat) {
    ValidIdentities(ids) && DistinctNames(ids)
    && StandsAt(b, at, AllIdentityBytes(ids)) && end == at + |AllIdentityBytes(ids)|
  }

  lemma OneMoreStands(b: Bytes, at: nat, early: seq<ShelfIdentity>, next: nat, last: ShelfIdentity)
    requires IdentitiesStand(b, at, early, next) && !NameTaken(early, last.entry.filename)
    requires ValidIdentity(last) && StandsAt(b, next, IdentityBytes(last))
    ensures IdentitiesStand(b, at, early + [last], next + |IdentityBytes(last)|)
  {
    Appended(early, last);
    StandsAtSplit(b, at, AllIdentityBytes(early), IdentityBytes(last));
  }

  lemma ReadIdentitiesStep(b: Bytes, at: nat, count: nat, early: seq<ShelfIdentity>, next: nat)
    requires at <= |b| && count > 0 && ReadIdentities(b, at, count).Got?
    requires ReadIdentities(b, at, count - 1) == Got(early, next) && IdentitiesStand(b, at, early, next)
    ensures IdentitiesStand(b, at, ReadIdentities(b, at, count).value, ReadIdentities(b, at, count).at)
  {
    var early', next', last := LastReadIdentity(b, at, count);
    OneMoreStands(b, at, early, next, last);
  }

  lemma NoIdentitiesStand(b: Bytes, at: nat)
    requires at <= |b|
    ensures IdentitiesStand(b, at, [], at)
  {
  }

  lemma {:induction false} ReadIdentitiesStand(b: Bytes, at: nat, count: nat, ids: seq<ShelfIdentity>, end: nat)
    requires at <= |b| && ReadIdentities(b, at, count) == Got(ids, end)
    ensures IdentitiesStand(b, at, ids, end)
    decreases count
  {
    hide ReadIdentity;
    if count == 0 {
      NoIdentitiesStand(b, at);
    } else {
      var before := ReadIdentities(b, at, count - 1);
      ReadIdentitiesStand(b, at, count - 1, before.value, before.at);
      ReadIdentitiesStep(b, at, count, before.value, before.at);
    }
  }

  /** Each identity takes at least 57 bytes, so the count guard only refuses what cannot be there. */
  lemma {:induction false} CountGuardIsSafe(ids: seq<ShelfIdentity>)
    requires ValidIdentities(ids)
    ensures |AllIdentityBytes(ids)| >= 57 * |ids|
    decreases |ids|
  {
    if ids != [] { CountGuardIsSafe(ids[..|ids| - 1]); }
  }

  lemma HeaderStands(b: Bytes, s: ShelfSnapshot)
    ensures var a2 := 12 + |TextBytes(s.directory)|;
            var a3 := a2 + |TextBytes(s.producer)|;
            StandsAt(b, 0, HeaderBytes(s))
            <==> StandsAt(b, 0, MAGIC) && StandsAt(b, 8, NumberBytes(1, COUNT_WIDTH))
                 && StandsAt(b, 12, TextBytes(s.directory)) && StandsAt(b, a2, TextBytes(s.producer))
                 && StandsAt(b, a3, NumberBytes(|s.identities|, COUNT_WIDTH))
  {
    var version, count := NumberBytes(1, COUNT_WIDTH), NumberBytes(|s.identities|, COUNT_WIDTH);
    var d, p := TextBytes(s.directory), TextBytes(s.producer);
    StandsAtSplit(b, 0, MAGIC + version + d + p, count);
    StandsAtSplit(b, 0, MAGIC + version + d, p);
    StandsAtSplit(b, 0, MAGIC + version, d);
    StandsAtSplit(b, 0, MAGIC, version);
  }

  lemma HeaderIsRead(b: Bytes, s: ShelfSnapshot)
    requires |s.directory| <= MAX_STRING_BYTES && |s.producer| <= MAX_STRING_BYTES
    requires |s.identities| <= MAX_IDENTITIES
    ensures StandsAt(b, 0, HeaderBytes(s))
            <==> |b| >= 8 && b[..8] == MAGIC
                 && ReadHeader(b, 8) == Got(Header(s.directory, s.producer, |s.identities|), |HeaderBytes(s)|)
  {
    hide NumberBytes;
    WordPower();
    HeaderStands(b, s);
    if |b| >= 8 {
      assert b[0..8] == b[..8];
      var a2 := 12 + |TextBytes(s.directory)|;
      var a3 := a2 + |TextBytes(s.producer)|;
      NumberIsRead(b, 8, COUNT_WIDTH, 1, 12);
      if 12 <= |b| { TextIsRead(b, 12, s.directory, a2); }
      if a2 <= |b| { TextIsRead(b, a2, s.producer, a3); }
      if a3 <= |b| { NumberIsRead(b, a3, COUNT_WIDTH, |s.identities|, a3 + 4); }
      if ReadHeader(b, 8).Got? { HeaderEnds(b, 8); }
    }
  }

  lemma HeaderEnds(b: Bytes, at: nat)
    requires at <= |b| && ReadHeader(b, at).Got?
    ensures var h := ReadHeader(b, at);
            && |h.value.directory| <= MAX_STRING_BYTES && |h.value.producer| <= MAX_STRING_BYTES
            && h.at == at + 8 + |TextBytes(h.value.directory)| + |TextBytes(h.value.producer)|
  {
    TextEnd(b, at + 4);
    TextEnd(b, ReadText(b, at + 4).at);
  }

  lemma SealIsChecked(b: Bytes, body: Bytes)
    requires |b| == |body| + 8 && b[..|body|] == body
    ensures SealHolds(b) <==> b == Sealed(body)
  {
    WordPower();
    FoldDependsOnPrefix(b, body, |body|);
    var seal := b[|b| - 8..];
    assert b == body + seal;
    NumberOfItsBytes(Fold(body, |body|), FIELD_WIDTH);
    BytesOfTheirNumber(seal);
    assert Sealed(body)[|body|..] == NumberBytes(Fold(body, |body|), FIELD_WIDTH);
  }

  lemma EncodedParts(s: ShelfSnapshot)
    requires Encodable(s)
    ensures var b := Encoded(s);
            && SealHolds(b) && |b| == |BodyBytes(s)| + 8
            && StandsAt(b, 0, HeaderBytes(s)) && StandsAt(b, |HeaderBytes(s)|, AllIdentityBytes(s.identities))
  {
    var b, body := Encoded(s), BodyBytes(s);
    assert b[0..|body|] == body && b[..|body|] == body;
    SealIsChecked(b, body);
    StandsAtSplit(b, 0, HeaderBytes(s), AllIdentityBytes(s.identities));
  }

  lemma EncodedIsDecoded(s: ShelfSnapshot)
    requires Encodable(s)
    ensures Decoded(Encoded(s), s.directory, s.producer) == Some(s)
  {
    var b := Encoded(s);
    EncodedParts(s);
    HeaderIsRead(b, s);
    CountGuardIsSafe(s.identities);
    IdentitiesAreRead(b, |HeaderBytes(s)|, s.identities);
  }

  lemma StandingPartsAreEncoded(b: Bytes, s: ShelfSnapshot)
    requires ValidIdentities(s.identities) && SealHolds(b) && |b| == |BodyBytes(s)| + 8
    requires StandsAt(b, 0, HeaderBytes(s)) && StandsAt(b, |HeaderBytes(s)|, AllIdentityBytes(s.identities))
    ensures b == Sealed(BodyBytes(s))
  {
    StandsAtSplit(b, 0, HeaderBytes(s), AllIdentityBytes(s.identities));
    var body := BodyBytes(s);
    assert b[..|body|] == b[0..|body|] == body;
    SealIsChecked(b, body);
  }

  lemma DecodedIsEncoded(b: Bytes, directory: Bytes, producer: Bytes)
    requires Decoded(b, directory, producer).Some?
    ensures var s := Decoded(b, directory, producer).value;
            s.directory == directory && s.producer == producer && Encodable(s) && Encoded(s) == b
  {
    var s := Decoded(b, directory, producer).value;
    var at := ReadHeader(b, 8).at;
    HeaderEnds(b, 8);
    assert at == |HeaderBytes(s)|;
    ReadIdentitiesStand(b, at, |s.identities|, s.identities, |b| - 8);
    HeaderIsRead(b, s);
    StandingPartsAreEncoded(b, s);
  }

  /** The codec is a bijection: a file decodes to a snapshot exactly when it is that snapshot's encoding. */
  lemma CodecIsExact(b: Bytes, directory: Bytes, producer: Bytes, s: ShelfSnapshot)
    ensures Decoded(b, directory, producer) == Some(s)
            <==> s.directory == directory && s.producer == producer && Encodable(s) && Encoded(s) == b
  {
    if Decoded(b, directory, producer) == Some(s) { DecodedIsEncoded(b, directory, producer); }
    if s.directory == directory && s.producer == producer && Encodable(s) && Encoded(s) == b { EncodedIsDecoded(s); }
  }

  lemma ChangedSealFails(b: Bytes, changed: Bytes, at: nat)
    requires SealHolds(b) && |changed| == |b| && at < |b| && changed[at] != b[at]
    requires forall i | 0 <= i < |b| && i != at :: changed[i] == b[i]
    ensures !SealHolds(changed)
  {
    var n := |b| - 8;
    var seal, seal' := b[n..], changed[n..];
    if at < n {
      assert seal == seal';
      OneChangedByteChangesTheFold(b, changed, at, n);
    } else {
      FoldDependsOnPrefix(b, changed, n);
      BytesOfTheirNumber(seal);
      BytesOfTheirNumber(seal');
      assert b[at] == seal[at - n] && changed[at] == seal'[at - n];
    }
  }

  /** One changed byte, anywhere, and the file is refused whatever shelf asks for it. */
  lemma OneChangedByteIsRefused(b: Bytes, changed: Bytes, at: nat, directory: Bytes, producer: Bytes,
                                directory': Bytes, producer': Bytes)
    requires Decoded(b, directory, producer).Some?
    requires |changed| == |b| && at < |b| && changed[at] != b[at]
    requires forall i | 0 <= i < |b| && i != at :: changed[i] == b[i]
    ensures Decoded(changed, directory', producer').None?
  {
    ChangedSealFails(b, changed, at);
  }
}
