// The shelf snapshot codec of shelf_snapshot.cpp: little-endian numbers, length-prefixed strings and
// a checksum trailer. The functions give the layout; Writer and Reader are the code.
module Snapshot {
  import opened Bytes
  import opened Checksum

  type Int64 = n: int | -0x8000_0000_0000_0000 <= n < 0x8000_0000_0000_0000

  datatype FileStamp = FileStamp(mtime: Int64, ctime: Int64, size: Int64, device: U64, inode: U64)

  datatype ShelfEntry = ShelfEntry(filename: Bytes, title: Bytes, documentNumber: Bytes, built: Bytes,
                                   size: Int64, readable: bool)

  datatype ShelfIdentity = ShelfIdentity(stamp: FileStamp, entry: ShelfEntry)

  datatype ShelfSnapshot = ShelfSnapshot(directory: Bytes, producer: Bytes, identities: seq<ShelfIdentity>)

  const MAGIC: Bytes := [0x47, 0x53, 0x54, 0x49, 0x44, 0x58, 0x30, 0x31]
  const MAX_STRING_BYTES: nat := 65536
  const MAX_IDENTITIES: nat := 100000
  const MAX_SNAPSHOT_BYTES: nat := 64 * 1024 * 1024
  const COUNT_WIDTH: nat := 4
  const FIELD_WIDTH: nat := 8
  const MAX_INT64: nat := 0x7fff_ffff_ffff_ffff
  const MIN_IDENTITY_BYTES: nat := 56

  predicate ValidFilename(name: Bytes) {
    name != [] && name != [0x2e] && name != [0x2e, 0x2e] && 0x2f !in name && 0x5c !in name && 0 !in name
  }

  // ----- the layout

  function Pow256(width: nat): (p: nat)
    ensures p > 0
  {
    if width == 0 then 1 else 256 * Pow256(width - 1)
  }

  function NumberBytes(value: nat, width: nat): (b: Bytes)
    ensures |b| == width
  {
    if width == 0 then [] else [value % 256] + NumberBytes(value / 256, width - 1)
  }

  function NumberOf(b: Bytes): (value: nat)
    ensures value < Pow256(|b|)
  {
    if b == [] then 0 else b[0] + 256 * NumberOf(b[1..])
  }

  function TextBytes(text: Bytes): Bytes {
    NumberBytes(|text|, COUNT_WIDTH) + text
  }

  function StampBytes(s: FileStamp): Bytes
    requires ValidStamp(s)
  {
    NumberBytes(s.mtime, FIELD_WIDTH) + NumberBytes(s.ctime, FIELD_WIDTH) + NumberBytes(s.size, FIELD_WIDTH)
    + NumberBytes(s.device, FIELD_WIDTH) + NumberBytes(s.inode, FIELD_WIDTH)
  }

  predicate ValidStamp(s: FileStamp) {
    s.mtime >= 0 && s.ctime >= 0 && s.size >= 0
  }

  predicate ValidIdentity(i: ShelfIdentity) {
    i.entry.readable && ValidFilename(i.entry.filename) && i.entry.size == i.stamp.size && ValidStamp(i.stamp)
    && |i.entry.filename| <= MAX_STRING_BYTES && |i.entry.title| <= MAX_STRING_BYTES
    && |i.entry.documentNumber| <= MAX_STRING_BYTES && |i.entry.built| <= MAX_STRING_BYTES
  }

  function IdentityBytes(i: ShelfIdentity): Bytes
    requires ValidIdentity(i)
  {
    TextBytes(i.entry.filename) + StampBytes(i.stamp) + LabelBytes(LabelsOf(i.entry))
  }

  predicate DistinctNames(identities: seq<ShelfIdentity>) {
    forall i, j | 0 <= i < j < |identities| :: identities[i].entry.filename != identities[j].entry.filename
  }

  predicate ValidIdentities(identities: seq<ShelfIdentity>) {
    forall i | 0 <= i < |identities| :: ValidIdentity(identities[i])
  }

  function AllIdentityBytes(identities: seq<ShelfIdentity>): Bytes
    requires ValidIdentities(identities)
  {
    if identities == [] then []
    else AllIdentityBytes(identities[..|identities| - 1]) + IdentityBytes(identities[|identities| - 1])
  }

  function HeaderBytes(s: ShelfSnapshot): Bytes {
    MAGIC + NumberBytes(1, COUNT_WIDTH) + TextBytes(s.directory) + TextBytes(s.producer) + NumberBytes(|s.identities|, COUNT_WIDTH)
  }

  function BodyBytes(s: ShelfSnapshot): Bytes
    requires ValidIdentities(s.identities)
  {
    HeaderBytes(s) + AllIdentityBytes(s.identities)
  }

  function Sealed(body: Bytes): Bytes {
    body + NumberBytes(Fold(body, |body|), FIELD_WIDTH)
  }

  /** The snapshots `encode_snapshot` does not throw on. */
  predicate Encodable(s: ShelfSnapshot) {
    && |s.identities| <= MAX_IDENTITIES
    && |s.directory| <= MAX_STRING_BYTES && |s.producer| <= MAX_STRING_BYTES
    && ValidIdentities(s.identities) && DistinctNames(s.identities)
    && |BodyBytes(s)| + 8 <= MAX_SNAPSHOT_BYTES
  }

  function Encoded(s: ShelfSnapshot): Bytes
    requires Encodable(s)
  {
    Sealed(BodyBytes(s))
  }

  // ----- reading, as offsets move

  datatype Read<+T> = Got(value: T, at: nat) | Refused

  function ReadNumber(b: Bytes, at: nat, width: nat): (r: Read<nat>)
    requires at <= |b|
    ensures r.Got? ==> r.at == at + width <= |b| && r.value < Pow256(width)
  {
    if width > |b| - at then Refused else Got(NumberOf(b[at..at + width]), at + width)
  }

  function ReadSigned(b: Bytes, at: nat): (r: Read<nat>)
    requires at <= |b|
    ensures r.Got? ==> at <= r.at <= |b| && r.value <= MAX_INT64
  {
    var n := ReadNumber(b, at, FIELD_WIDTH);
    if n.Got? && n.value > MAX_INT64 then Refused else n
  }

  function ReadUnsigned(b: Bytes, at: nat): (r: Read<U64>)
    requires at <= |b|
    ensures r.Got? ==> at <= r.at <= |b|
  {
    match ReadNumber(b, at, FIELD_WIDTH)
    case Refused => Refused
    case Got(n, next) => WordPower(); Got(n, next)
  }

  lemma WordPower()
    ensures Pow256(COUNT_WIDTH) == 0x1_0000_0000 && Pow256(FIELD_WIDTH) == TWO_64
  {
    assert Pow256(2) == 0x1_0000;
    assert Pow256(4) == 0x1_0000_0000;
    assert Pow256(6) == 0x1_0000_0000_0000;
  }

  function ReadText(b: Bytes, at: nat): (r: Read<Bytes>)
    requires at <= |b|
    ensures r.Got? ==> at <= r.at <= |b|
  {
    match ReadNumber(b, at, COUNT_WIDTH)
    case Refused => Refused
    case Got(length, start) =>
      if length > MAX_STRING_BYTES || length > |b| - start then Refused
      else Got(b[start..start + length], start + length)
  }

  function ReadStamp(b: Bytes, at: nat): (r: Read<FileStamp>)
    requires at <= |b|
    ensures r.Got? ==> at <= r.at <= |b|
  {
    match ReadSigned(b, at)
    case Refused => Refused
    case Got(mtime, a1) =>
      match ReadSigned(b, a1)
      case Refused => Refused
      case Got(ctime, a2) =>
        match ReadSigned(b, a2)
        case Refused => Refused
        case Got(size, a3) =>
          match ReadUnsigned(b, a3)
          case Refused => Refused
          case Got(device, a4) =>
            match ReadUnsigned(b, a4)
            case Refused => Refused
            case Got(inode, a5) => Got(FileStamp(mtime, ctime, size, device, inode), a5)
  }

  datatype Labels = Labels(title: Bytes, documentNumber: Bytes, built: Bytes)

  function LabelBytes(l: Labels): Bytes {
    TextBytes(l.title) + TextBytes(l.documentNumber) + TextBytes(l.built)
  }

  function LabelsOf(e: ShelfEntry): Labels {
    Labels(e.title, e.documentNumber, e.built)
  }

  function ReadLabels(b: Bytes, at: nat): (r: Read<Labels>)
    requires at <= |b|
    ensures r.Got? ==> at <= r.at <= |b|
  {
    match ReadText(b, at)
    case Refused => Refused
    case Got(title, a1) =>
      match ReadText(b, a1)
      case Refused => Refused
      case Got(number, a2) =>
        match ReadText(b, a2)
        case Refused => Refused
        case Got(built, a3) => Got(Labels(title, number, built), a3)
  }

  function ReadIdentity(b: Bytes, at: nat): (r: Read<ShelfIdentity>)
    requires at <= |b|
    ensures r.Got? ==> at <= r.at <= |b|
  {
    match ReadText(b, at)
    case Refused => Refused
    case Got(filename, a1) =>
      if !ValidFilename(filename) then Refused else
      match ReadStamp(b, a1)
      case Refused => Refused
      case Got(stamp, a2) =>
        match ReadLabels(b, a2)
        case Refused => Refused
        case Got(l, a3) =>
          Got(ShelfIdentity(stamp, ShelfEntry(filename, l.title, l.documentNumber, l.built, stamp.size, true)), a3)
  }

  predicate NameTaken(identities: seq<ShelfIdentity>, name: Bytes) {
    exists i | 0 <= i < |identities| :: identities[i].entry.filename == name
  }

  /** The first `count` identities; a name met twice refuses the file. */
  function ReadIdentities(b: Bytes, at: nat, count: nat): (r: Read<seq<ShelfIdentity>>)
    requires at <= |b|
    ensures r.Got? ==> at <= r.at <= |b| && |r.value| == count
  {
    if count == 0 then Got([], at) else
    match ReadIdentities(b, at, count - 1)
    case Refused => Refused
    case Got(identities, next) =>
      match ReadIdentity(b, next)
      case Refused => Refused
      case Got(identity, end) =>
        if NameTaken(identities, identity.entry.filename) then Refused else Got(identities + [identity], end)
  }

  datatype Header = Header(directory: Bytes, producer: Bytes, count: nat)

  function ReadHeader(b: Bytes, at: nat): (r: Read<Header>)
    requires at <= |b|
    ensures r.Got? ==> at <= r.at <= |b|
  {
    match ReadNumber(b, at, COUNT_WIDTH)
    case Refused => Refused
    case Got(version, a1) =>
      if version != 1 then Refused else
      match ReadText(b, a1)
      case Refused => Refused
      case Got(directory, a2) =>
        match ReadText(b, a2)
        case Refused => Refused
        case Got(producer, a3) =>
          match ReadNumber(b, a3, COUNT_WIDTH)
          case Refused => Refused
          case Got(count, a4) => Got(Header(directory, producer, count), a4)
  }

  predicate SealHolds(b: Bytes) {
    |b| >= 8 && NumberOf(b[|b| - 8..]) == Fold(b, |b| - 8)
  }

  /** What `decode_snapshot` publishes, or nothing. */
  function Decoded(b: Bytes, directory: Bytes, producer: Bytes): Option<ShelfSnapshot> {
    if |b| < 16 || |b| > MAX_SNAPSHOT_BYTES || b[..8] != MAGIC || !SealHolds(b) then None else
    match ReadHeader(b, 8)
    case Refused => None
    case Got(header, at) =>
      if header.directory != directory || header.producer != producer
         || header.count > MAX_IDENTITIES || header.count > (|b| - at) / MIN_IDENTITY_BYTES then None else
      match ReadIdentities(b, at, header.count)
      case Refused => None
      case Got(identities, end) =>
        if end != |b| - 8 then None else Some(ShelfSnapshot(directory, producer, identities))
  }
}
