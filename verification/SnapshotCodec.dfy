// encode_snapshot and decode_snapshot as the code runs them: a Writer that grows a buffer and throws
// when it would pass the size limit, a Reader that moves an offset and gives up at the first surprise.
module SnapshotCodec {
  import opened Bytes
  import opened Checksum
  import opened Snapshot
  import SnapshotLaws

  class Writer {
    var bytes: Bytes

    constructor (bytes: Bytes)
      ensures this.bytes == bytes
    {
      this.bytes := bytes;
    }

    /** Appends a number, or throws (`false`) when the file would grow past its limit. */
    method Number(value: nat, width: nat) returns (ok: bool)
      requires width <= 8 && |bytes| <= MAX_SNAPSHOT_BYTES
      modifies this`bytes
      ensures ok == (|old(bytes)| + width <= MAX_SNAPSHOT_BYTES)
      ensures bytes == if ok then old(bytes) + NumberBytes(value, width) else old(bytes)
    {
      if |bytes| > MAX_SNAPSHOT_BYTES - width { return false; }
      var rest := value;
      ghost var start := bytes;
      for i := 0 to width
        invariant bytes + NumberBytes(rest, width - i) == start + NumberBytes(value, width)
      {
        ghost var before, left := bytes, NumberBytes(rest, width - i);
        bytes := bytes + [rest % 256];
        rest := rest / 256;
        assert left == [left[0]] + NumberBytes(rest, width - i - 1);
        Associate(before, [left[0]], NumberBytes(rest, width - i - 1));
      }
      return true;
    }

    method Text(value: Bytes) returns (ok: bool)
      requires |bytes| <= MAX_SNAPSHOT_BYTES
      modifies this`bytes
      ensures ok == (|value| <= MAX_STRING_BYTES && |old(bytes)| + 4 + |value| <= MAX_SNAPSHOT_BYTES)
      ensures ok ==> bytes == old(bytes) + TextBytes(value)
    {
      if |value| > MAX_STRING_BYTES || |bytes| > MAX_SNAPSHOT_BYTES - 4 - |value| { return false; }
      ok := Number(|value|, COUNT_WIDTH);
      bytes := bytes + value;
    }

    method Signed(value: Int64) returns (ok: bool)
      requires |bytes| <= MAX_SNAPSHOT_BYTES
      modifies this`bytes
      ensures ok == (value >= 0 && |old(bytes)| + 8 <= MAX_SNAPSHOT_BYTES)
      ensures ok ==> bytes == old(bytes) + NumberBytes(value, FIELD_WIDTH)
    {
      if value < 0 { return false; }
      ok := Number(value, FIELD_WIDTH);
    }

    method Stamp(s: FileStamp) returns (ok: bool)
      requires |bytes| <= MAX_SNAPSHOT_BYTES
      modifies this`bytes
      ensures ok == (ValidStamp(s) && |old(bytes)| + 40 <= MAX_SNAPSHOT_BYTES)
      ensures ok ==> bytes == old(bytes) + StampBytes(s)
    {
      hide NumberBytes;
      ok := Signed(s.mtime);
      if !ok { return; }
      ok := Signed(s.ctime);
      if !ok { return; }
      ok := Signed(s.size);
      if !ok { return; }
      ok := Number(s.device, FIELD_WIDTH);
      if !ok { return; }
      ok := Number(s.inode, FIELD_WIDTH);
    }

    method Labels(l: Labels) returns (ok: bool)
      requires |bytes| <= MAX_SNAPSHOT_BYTES
      modifies this`bytes
      ensures ok == (&& |l.title| <= MAX_STRING_BYTES && |l.documentNumber| <= MAX_STRING_BYTES
                     && |l.built| <= MAX_STRING_BYTES
                     && |old(bytes)| + |LabelBytes(l)| <= MAX_SNAPSHOT_BYTES)
      ensures ok ==> bytes == old(bytes) + LabelBytes(l)
    {
      hide NumberBytes;
      ok := Text(l.title);
      if !ok { return; }
      ok := Text(l.documentNumber);
      if !ok { return; }
      ok := Text(l.built);
    }

    method Identity(i: ShelfIdentity) returns (ok: bool)
      requires |bytes| <= MAX_SNAPSHOT_BYTES
      requires i.entry.readable && ValidFilename(i.entry.filename) && i.entry.size == i.stamp.size
      modifies this`bytes
      ensures ok <==> ValidIdentity(i) && |old(bytes)| + |IdentityBytes(i)| <= MAX_SNAPSHOT_BYTES
      ensures ok ==> bytes == old(bytes) + IdentityBytes(i)
    {
      hide StampBytes, LabelBytes, NumberBytes, ValidFilename;
      StampLength(i.stamp);
      ok := Text(i.entry.filename);
      if !ok { return; }
      ok := Stamp(i.stamp);
      if !ok { return; }
      ok := Labels(LabelsOf(i.entry));
    }
  }

  lemma StampLength(s: FileStamp)
    ensures ValidStamp(s) ==> |StampBytes(s)| == 40
  {
  }

  lemma {:induction false} PrefixIsShorter(ids: seq<ShelfIdentity>, count: nat)
    requires ValidIdentities(ids) && count <= |ids|
    ensures |AllIdentityBytes(ids[..count])| <= |AllIdentityBytes(ids)|
    decreases |ids| - count
  {
    if count == |ids| {
      assert ids[..count] == ids;
    } else {
      var more := ids[..count + 1];
      assert more[..count] == ids[..count];
      PrefixIsShorter(ids, count + 1);
    }
  }

  ghost predicate PrefixEncodable(s: ShelfSnapshot, count: nat)
    requires count <= |s.identities|
  {
    ValidIdentities(s.identities[..count]) && DistinctNames(s.identities[..count])
  }

  lemma EncodablePrefix(s: ShelfSnapshot, count: nat)
    requires Encodable(s) && count < |s.identities|
    ensures PrefixEncodable(s, count + 1)
    ensures |HeaderBytes(s)| + |AllIdentityBytes(s.identities[..count + 1])| + 8 <= MAX_SNAPSHOT_BYTES
  {
    assert forall i | 0 <= i <= count :: s.identities[..count + 1][i] == s.identities[i];
    PrefixIsShorter(s.identities, count + 1);
  }

  lemma PrefixStep(s: ShelfSnapshot, count: nat)
    requires count < |s.identities| && PrefixEncodable(s, count)
    ensures PrefixEncodable(s, count + 1)
            <==> ValidIdentity(s.identities[count])
                 && !NameTaken(s.identities[..count], s.identities[count].entry.filename)
    ensures PrefixEncodable(s, count + 1)
            ==> AllIdentityBytes(s.identities[..count + 1])
                == AllIdentityBytes(s.identities[..count]) + IdentityBytes(s.identities[count])
  {
    var early, last := s.identities[..count], s.identities[count];
    assert s.identities[..count + 1] == early + [last];
    assert (early + [last])[count] == last;
    if ValidIdentity(last) { SnapshotLaws.Appended(early, last); }
  }

  /** The loop of `encode_snapshot`; `false` is a throw. */
  method WriteIdentities(out: Writer, s: ShelfSnapshot) returns (ok: bool)
    requires out.bytes == HeaderBytes(s) && |out.bytes| <= MAX_SNAPSHOT_BYTES
    modifies out`bytes
    ensures ok ==> PrefixEncodable(s, |s.identities|) && |out.bytes| <= MAX_SNAPSHOT_BYTES
    ensures ok ==> out.bytes == HeaderBytes(s) + AllIdentityBytes(s.identities[..|s.identities|])
    ensures !ok ==> !Encodable(s)
  {
    hide Encodable, Encoded, IdentityBytes, HeaderBytes, BodyBytes, ValidFilename;
    var names: set<Bytes> := {};
    for i := 0 to |s.identities|
      invariant PrefixEncodable(s, i)
      invariant out.bytes == HeaderBytes(s) + AllIdentityBytes(s.identities[..i])
      invariant |out.bytes| <= MAX_SNAPSHOT_BYTES
      invariant forall name :: name in names <==> NameTaken(s.identities[..i], name)
    {
      hide AllIdentityBytes, PrefixEncodable, NameTaken;
      var identity := s.identities[i];
      var entry := identity.entry;
      PrefixStep(s, i);
      if Encodable(s) { EncodablePrefix(s, i); }
      if !entry.readable || !ValidFilename(entry.filename) || entry.filename in names
         || entry.size != identity.stamp.size {
        return false;
      }
      names := names + {entry.filename};
      NamesGrow(s.identities, i);
      ok := out.Identity(identity);
      if !ok { return; }
      Associate(HeaderBytes(s), AllIdentityBytes(s.identities[..i]), IdentityBytes(identity));
    }
    return true;
  }

  /** `encode_snapshot`: the encoding, or a throw exactly for the snapshots that have none. */
  method EncodeSnapshot(snapshot: ShelfSnapshot) returns (r: Option<Bytes>)
    ensures r == if Encodable(snapshot) then Some(Encoded(snapshot)) else None
  {
    hide Encodable, Encoded, HeaderBytes, AllIdentityBytes, NumberBytes;
    if |snapshot.identities| > MAX_IDENTITIES { TooMany(snapshot); return None; }
    var out := new Writer(MAGIC);
    var ok := Header(out, snapshot);
    if !ok { return None; }
    ok := WriteIdentities(out, snapshot);
    if !ok { return None; }
    WholeIsEncodable(snapshot);
    var hash := ComputeChecksum(out.bytes, |out.bytes|);
    ok := out.Number(hash, FIELD_WIDTH);
    if !ok { return None; }
    return Some(out.bytes);
  }

  lemma TooMany(s: ShelfSnapshot)
    requires |s.identities| > MAX_IDENTITIES
    ensures !Encodable(s)
  {
  }

  lemma NamesGrow(ids: seq<ShelfIdentity>, count: nat)
    requires count < |ids|
    ensures forall name :: NameTaken(ids[..count + 1], name)
                           <==> NameTaken(ids[..count], name) || name == ids[count].entry.filename
  {
    var early, all := ids[..count], ids[..count + 1];
    assert all[count] == ids[count];
    forall name
      ensures NameTaken(all, name) <==> NameTaken(early, name) || name == ids[count].entry.filename
    {
      if NameTaken(early, name) {
        var i :| 0 <= i < count && early[i].entry.filename == name;
        assert all[i].entry.filename == name;
      }
    }
  }

  lemma WholeIsEncodable(s: ShelfSnapshot)
    requires |s.identities| <= MAX_IDENTITIES && PrefixEncodable(s, |s.identities|)
    requires |s.directory| <= MAX_STRING_BYTES && |s.producer| <= MAX_STRING_BYTES
    ensures var body := HeaderBytes(s) + AllIdentityBytes(s.identities[..|s.identities|]);
            && (Encodable(s) <==> |body| + 8 <= MAX_SNAPSHOT_BYTES)
            && (Encodable(s) ==> Encoded(s) == Sealed(body))
  {
    assert s.identities[..|s.identities|] == s.identities;
  }

  method Header(out: Writer, snapshot: ShelfSnapshot) returns (ok: bool)
    requires out.bytes == MAGIC && |snapshot.identities| <= MAX_IDENTITIES
    modifies out`bytes
    ensures ok ==> out.bytes == HeaderBytes(snapshot) && |out.bytes| <= MAX_SNAPSHOT_BYTES
    ensures ok ==> |snapshot.directory| <= MAX_STRING_BYTES && |snapshot.producer| <= MAX_STRING_BYTES
    ensures !ok ==> !Encodable(snapshot)
  {
    hide NumberBytes, AllIdentityBytes;
    ok := out.Number(1, COUNT_WIDTH);
    ok := out.Text(snapshot.directory);
    if !ok { return; }
    ok := out.Text(snapshot.producer);
    if !ok { return; }
    ok := out.Number(|snapshot.identities|, COUNT_WIDTH);
  }

  lemma {:induction false} NumberGrows(b: Bytes, byte: Byte)
    ensures NumberOf(b + [byte]) == NumberOf(b) + byte * Pow256(|b|)
  {
    if b == [] {
      assert ([byte])[1..] == [];
      assert b + [byte] == [byte];
    } else {
      assert (b + [byte])[1..] == b[1..] + [byte];
      NumberGrows(b[1..], byte);
      var p := Pow256(|b[1..]|);
      assert byte * (256 * p) == 256 * (byte * p);
    }
  }

  class Reader {
    const bytes: Bytes
    var offset: nat

    ghost predicate Valid()
      reads this
    {
      offset <= |bytes|
    }

    constructor (bytes: Bytes, offset: nat)
      requires offset <= |bytes|
      ensures Valid() && this.bytes == bytes && this.offset == offset
    {
      this.bytes, this.offset := bytes, offset;
    }

    /** Reads `width` bytes, least significant first. The shifted bytes never overlap, so `|=` adds. */
    method Number(width: nat) returns (r: Read<nat>)
      requires Valid()
      modifies this`offset
      ensures Valid() && r == ReadNumber(bytes, old(offset), width)
      ensures offset == if r.Got? then r.at else old(offset)
    {
      if width > |bytes| - offset { return Refused; }
      var value := 0;
      ghost var start := offset;
      for i := 0 to width
        invariant Valid() && offset == start + i && value == NumberOf(bytes[start..offset])
      {
        NumberGrows(bytes[start..offset], bytes[offset]);
        assert bytes[start..offset + 1] == bytes[start..offset] + [bytes[offset]];
        value := value + bytes[offset] * Pow256(i);
        offset := offset + 1;
      }
      return Got(value, offset);
    }

    method Signed() returns (r: Read<nat>)
      requires Valid()
      modifies this`offset
      ensures Valid() && r == ReadSigned(bytes, old(offset)) && (r.Got? ==> offset == r.at)
    {
      r := Number(FIELD_WIDTH);
      if r.Got? && r.value > MAX_INT64 { return Refused; }
    }

    method Unsigned() returns (r: Read<U64>)
      requires Valid()
      modifies this`offset
      ensures Valid() && r == ReadUnsigned(bytes, old(offset)) && (r.Got? ==> offset == r.at)
    {
      var n := Number(FIELD_WIDTH);
      if n.Refused? { return Refused; }
      WordPower();
      return Got(n.value, n.at);
    }

    method Text() returns (r: Read<Bytes>)
      requires Valid()
      modifies this`offset
      ensures Valid() && r == ReadText(bytes, old(offset)) && (r.Got? ==> offset == r.at)
    {
      var length := Number(COUNT_WIDTH);
      if length.Refused? || length.value > MAX_STRING_BYTES || length.value > |bytes| - offset { return Refused; }
      offset := offset + length.value;
      return Got(bytes[offset - length.value..offset], offset);
    }

    method Stamp() returns (r: Read<FileStamp>)
      requires Valid()
      modifies this`offset
      ensures Valid() && r == ReadStamp(bytes, old(offset)) && (r.Got? ==> offset == r.at)
    {
      hide ReadSigned, ReadUnsigned;
      var mtime := Signed();
      if mtime.Refused? { return Refused; }
      var ctime := Signed();
      if ctime.Refused? { return Refused; }
      var size := Signed();
      if size.Refused? { return Refused; }
      var device := Unsigned();
      if device.Refused? { return Refused; }
      var inode := Unsigned();
      if inode.Refused? { return Refused; }
      return Got(FileStamp(mtime.value, ctime.value, size.value, device.value, inode.value), offset);
    }

    method Labels() returns (r: Read<Labels>)
      requires Valid()
      modifies this`offset
      ensures Valid() && r == ReadLabels(bytes, old(offset)) && (r.Got? ==> offset == r.at)
    {
      hide ReadText;
      var title := Text();
      if title.Refused? { return Refused; }
      var number := Text();
      if number.Refused? { return Refused; }
      var built := Text();
      if built.Refused? { return Refused; }
      return Got(Snapshot.Labels(title.value, number.value, built.value), offset);
    }

    method Identity() returns (r: Read<ShelfIdentity>)
      requires Valid()
      modifies this`offset
      ensures Valid() && r == ReadIdentity(bytes, old(offset)) && (r.Got? ==> offset == r.at)
    {
      hide ReadText, ReadStamp, ReadLabels, ValidFilename;
      var filename := Text();
      if filename.Refused? || !ValidFilename(filename.value) { return Refused; }
      var stamp := Stamp();
      if stamp.Refused? { return Refused; }
      var l := Labels();
      if l.Refused? { return Refused; }
      var entry := ShelfEntry(filename.value, l.value.title, l.value.documentNumber, l.value.built,
                              stamp.value.size, true);
      return Got(ShelfIdentity(stamp.value, entry), offset);
    }

    method Head() returns (r: Read<Snapshot.Header>)
      requires Valid()
      modifies this`offset
      ensures Valid() && r == ReadHeader(bytes, old(offset)) && (r.Got? ==> offset == r.at)
    {
      hide ReadText, ReadNumber;
      var version := Number(COUNT_WIDTH);
      if version.Refused? || version.value != 1 { return Refused; }
      var directory := Text();
      if directory.Refused? { return Refused; }
      var producer := Text();
      if producer.Refused? { return Refused; }
      var count := Number(COUNT_WIDTH);
      if count.Refused? { return Refused; }
      return Got(Snapshot.Header(directory.value, producer.value, count.value), offset);
    }

    method Identities(count: nat) returns (r: Read<seq<ShelfIdentity>>)
      requires Valid()
      modifies this`offset
      ensures Valid() && r == ReadIdentities(bytes, old(offset), count) && (r.Got? ==> offset == r.at)
    {
      hide ReadIdentity;
      var names: set<Bytes> := {};
      var identities: seq<ShelfIdentity> := [];
      for i := 0 to count
        invariant Valid() && ReadIdentities(bytes, old(offset), i) == Got(identities, offset)
        invariant forall name :: name in names <==> NameTaken(identities, name)
      {
        var identity := Identity();
        if identity.Refused? || identity.value.entry.filename in names {
          RefusalStays(bytes, old(offset), i + 1, count);
          return Refused;
        }
        names := names + {identity.value.entry.filename};
        ghost var all := identities + [identity.value];
        assert all[..i] == identities && all[..i + 1] == all;
        NamesGrow(all, i);
        identities := identities + [identity.value];
      }
      return Got(identities, offset);
    }
  }

  lemma {:induction false} RefusalStays(b: Bytes, at: nat, count: nat, more: nat)
    requires at <= |b| && count <= more && ReadIdentities(b, at, count).Refused?
    ensures ReadIdentities(b, at, more).Refused?
    decreases more
  {
    hide ReadIdentity;
    if count < more { RefusalStays(b, at, count, more - 1); }
  }

  /** `decode_snapshot`: publishes what the file encodes; a refused file leaves the snapshot as it was. */
  method DecodeSnapshot(bytes: Bytes, directory: Bytes, producer: Bytes, snapshot: ShelfSnapshot)
    returns (ok: bool, published: ShelfSnapshot)
    ensures ok == Decoded(bytes, directory, producer).Some?
    ensures published == if ok then Decoded(bytes, directory, producer).value else snapshot
  {
    hide ReadIdentities, ReadHeader, Fold, NumberOf;
    if |bytes| < |MAGIC| + 8 || |bytes| > MAX_SNAPSHOT_BYTES || bytes[..|MAGIC|] != MAGIC { return false, snapshot; }
    var trailer := new Reader(bytes, |bytes| - 8);
    var expected := trailer.Number(FIELD_WIDTH);
    var actual := ComputeChecksum(bytes, |bytes| - 8);
    assert bytes[|bytes| - 8..|bytes|] == bytes[|bytes| - 8..];
    if expected.Refused? || expected.value != actual { return false, snapshot; }
    var input := new Reader(bytes, |MAGIC|);
    var head := input.Head();
    if head.Refused? { return false, snapshot; }
    if head.value.directory != directory || head.value.producer != producer
       || head.value.count > MAX_IDENTITIES
       || head.value.count > (|bytes| - input.offset) / MIN_IDENTITY_BYTES {
      return false, snapshot;
    }
    var identities := input.Identities(head.value.count);
    if identities.Refused? || input.offset != |bytes| - 8 { return false, snapshot; }
    return true, ShelfSnapshot(directory, producer, identities.value);
  }
}
