// The bytes of a snapshot file, written out (shelf_snapshot.cpp).
module SnapshotLayout {
  import opened Bytes
  import opened Checksum
  import opened Snapshot

  /** Four bytes, the lowest first. */
  function Le4(n: nat): Bytes {
    [n % 0x100, n / 0x100 % 0x100, n / 0x1_0000 % 0x100, n / 0x100_0000 % 0x100]
  }

  /** Eight bytes, the lowest first. */
  function Le8(n: nat): Bytes {
    [n % 0x100, n / 0x100 % 0x100, n / 0x1_0000 % 0x100, n / 0x100_0000 % 0x100,
     n / 0x1_0000_0000 % 0x100, n / 0x100_0000_0000 % 0x100, n / 0x1_0000_0000_0000 % 0x100,
     n / 0x100_0000_0000_0000 % 0x100]
  }

  /** A string after its length. */
  function Counted(text: Bytes): Bytes {
    Le4(|text|) + text
  }

  /** One identity: the name, the stamp, and the labels of the listing. */
  function IdentityLayout(i: ShelfIdentity): Bytes
    requires i.stamp.mtime >= 0 && i.stamp.ctime >= 0 && i.stamp.size >= 0
  {
    Counted(i.entry.filename)
    + (Le8(i.stamp.mtime) + Le8(i.stamp.ctime) + Le8(i.stamp.size) + Le8(i.stamp.device) + Le8(i.stamp.inode))
    + (Counted(i.entry.title) + Counted(i.entry.documentNumber) + Counted(i.entry.built))
  }

  ghost predicate TimesHold(identities: seq<ShelfIdentity>) {
    forall i | i in identities :: i.stamp.mtime >= 0 && i.stamp.ctime >= 0 && i.stamp.size >= 0
  }

  ghost function IdentitiesLayout(identities: seq<ShelfIdentity>): Bytes
    requires TimesHold(identities)
  {
    if identities == [] then [] else IdentityLayout(identities[0]) + IdentitiesLayout(identities[1..])
  }

  /** "GSTIDX01", the version, the directory and the producer, then the identities after their count. */
  ghost function BodyLayout(s: ShelfSnapshot): Bytes
    requires TimesHold(s.identities)
  {
    ['G' as int, 'S' as int, 'T' as int, 'I' as int, 'D' as int, 'X' as int, '0' as int, '1' as int]
    + Le4(1) + Counted(s.directory) + Counted(s.producer) + Le4(|s.identities|) + IdentitiesLayout(s.identities)
  }

  /** A name that a file of a directory can have. */
  predicate FileName(name: Bytes) {
    && name != [] && name != ['.' as int] && name != ['.' as int, '.' as int]
    && forall k | 0 <= k < |name| :: name[k] != '/' as int && name[k] != '\\' as int && name[k] != 0
  }

  /** What a snapshot may hold: a hundred thousand readable entries of different names whose size is that of their
      stamp, no negative time or size, no string beyond 64 KiB and no file beyond 64 MiB. */
  ghost predicate MayBeStored(s: ShelfSnapshot) {
    && |s.identities| <= 100000 && |s.directory| <= 65536 && |s.producer| <= 65536
    && TimesHold(s.identities)
    && (forall i | i in s.identities ::
          && i.entry.readable && FileName(i.entry.filename) && i.entry.size == i.stamp.size
          && |i.entry.filename| <= 65536 && |i.entry.title| <= 65536
          && |i.entry.documentNumber| <= 65536 && |i.entry.built| <= 65536)
    && (forall j, k | 0 <= j < k < |s.identities| :: s.identities[j].entry.filename != s.identities[k].entry.filename)
    && |BodyLayout(s)| + 8 <= 67108864
  }

  // ----- the codec writes just that

  lemma NumberStep(n: nat, width: nat)
    requires width > 0
    ensures NumberBytes(n, width) == [n % 0x100] + NumberBytes(n / 0x100, width - 1)
  {
  }

  lemma NoBytes(n: nat)
    ensures NumberBytes(n, 0) == []
  {
  }

  lemma FourBytes(n: nat)
    ensures NumberBytes(n, 4) == Le4(n)
  {
    hide NumberBytes;
    NumberStep(n, 4);
    assert n / 0x100 / 0x100 == n / 0x1_0000;
    NumberStep(n / 0x100, 3);
    assert n / 0x1_0000 / 0x100 == n / 0x100_0000;
    NumberStep(n / 0x1_0000, 2);
    assert n / 0x100_0000 / 0x100 == n / 0x1_0000_0000;
    NumberStep(n / 0x100_0000, 1);
    NoBytes(n / 0x1_0000_0000);
  }

  lemma EightBytes(n: nat)
    ensures NumberBytes(n, 8) == Le8(n)
  {
    hide NumberBytes;
    NumberStep(n, 8);
    assert n / 0x100 / 0x100 == n / 0x1_0000;
    NumberStep(n / 0x100, 7);
    assert n / 0x1_0000 / 0x100 == n / 0x100_0000;
    NumberStep(n / 0x1_0000, 6);
    assert n / 0x100_0000 / 0x100 == n / 0x1_0000_0000;
    NumberStep(n / 0x100_0000, 5);
    assert n / 0x1_0000_0000 / 0x100 == n / 0x100_0000_0000;
    NumberStep(n / 0x1_0000_0000, 4);
    assert n / 0x100_0000_0000 / 0x100 == n / 0x1_0000_0000_0000;
    NumberStep(n / 0x100_0000_0000, 3);
    assert n / 0x1_0000_0000_0000 / 0x100 == n / 0x100_0000_0000_0000;
    NumberStep(n / 0x1_0000_0000_0000, 2);
    assert n / 0x100_0000_0000_0000 / 0x100 == n / 0x1_0000_0000_0000_0000;
    NumberStep(n / 0x100_0000_0000_0000, 1);
    NoBytes(n / 0x1_0000_0000_0000_0000);
  }

  lemma IdentityIsLaidOut(i: ShelfIdentity)
    requires ValidIdentity(i)
    ensures IdentityBytes(i) == IdentityLayout(i)
  {
    hide NumberBytes, Le4, Le8;
    FourBytes(|i.entry.filename|);
    FourBytes(|i.entry.title|);
    FourBytes(|i.entry.documentNumber|);
    FourBytes(|i.entry.built|);
    EightBytes(i.stamp.mtime);
    EightBytes(i.stamp.ctime);
    EightBytes(i.stamp.size);
    EightBytes(i.stamp.device);
    EightBytes(i.stamp.inode);
  }

  lemma {:induction false} LayoutGrows(identities: seq<ShelfIdentity>, last: ShelfIdentity)
    requires TimesHold(identities + [last])
    ensures TimesHold(identities) && TimesHold([last])
    ensures IdentitiesLayout(identities + [last]) == IdentitiesLayout(identities) + IdentityLayout(last)
  {
    hide IdentityLayout;
    var all := identities + [last];
    assert last in all && forall i | i in identities :: i in all;
    if identities == [] {
      assert all == [last] && all[1..] == [];
    } else {
      assert all[1..] == identities[1..] + [last];
      assert forall i | i in all[1..] :: i in all;
      LayoutGrows(identities[1..], last);
    }
  }

  lemma {:induction false} IdentitiesAreLaidOut(identities: seq<ShelfIdentity>)
    requires ValidIdentities(identities)
    ensures TimesHold(identities) && AllIdentityBytes(identities) == IdentitiesLayout(identities)
  {
    hide IdentityBytes, IdentityLayout;
    TimesAreValid(identities);
    if identities != [] {
      var front, last := identities[..|identities| - 1], identities[|identities| - 1];
      IdentitiesAreLaidOut(front);
      IdentityIsLaidOut(last);
      assert identities == front + [last];
      LayoutGrows(front, last);
    }
  }

  lemma TimesAreValid(identities: seq<ShelfIdentity>)
    requires ValidIdentities(identities)
    ensures TimesHold(identities)
  {
    forall i | i in identities ensures i.stamp.mtime >= 0 && i.stamp.ctime >= 0 && i.stamp.size >= 0 {
      var k :| 0 <= k < |identities| && identities[k] == i;
      assert ValidIdentity(identities[k]);
    }
  }

  lemma BodyIsLaidOut(s: ShelfSnapshot)
    requires ValidIdentities(s.identities)
    ensures TimesHold(s.identities) && BodyBytes(s) == BodyLayout(s)
  {
    hide NumberBytes, Le4, AllIdentityBytes, IdentitiesLayout;
    IdentitiesAreLaidOut(s.identities);
    FourBytes(1);
    FourBytes(|s.directory|);
    FourBytes(|s.producer|);
    FourBytes(|s.identities|);
  }

  /** A snapshot can be encoded exactly where it may be stored. */
  lemma EncodableExactly(s: ShelfSnapshot)
    ensures Encodable(s) <==> MayBeStored(s)
  {
    hide BodyBytes, BodyLayout;
    if Encodable(s) {
      BodyIsLaidOut(s);
      forall i | i in s.identities ensures ValidIdentity(i) {
        var k :| 0 <= k < |s.identities| && s.identities[k] == i;
      }
    }
    if MayBeStored(s) {
      forall k | 0 <= k < |s.identities| ensures ValidIdentity(s.identities[k]) { assert s.identities[k] in s.identities; }
      BodyIsLaidOut(s);
    }
  }

  /** The encoding is that layout and its checksum. */
  lemma EncodedIsLaidOut(s: ShelfSnapshot)
    requires Encodable(s)
    ensures TimesHold(s.identities) && Encoded(s) == BodyLayout(s) + Le8(Fold(BodyLayout(s), |BodyLayout(s)|))
  {
    BodyIsLaidOut(s);
    EightBytes(Fold(BodyLayout(s), |BodyLayout(s)|));
  }
}
