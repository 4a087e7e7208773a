// The cache store of cache_store.cpp as a state machine over system calls: any number of readers and
// writers in any interleaving, short reads and writes, failures, crashes and power failures.
module CacheStore {
  import opened Bytes
  import Checksum

  type Name = string

  function HexDigit(digit: nat): char
    requires digit < 16
  {
    "0123456789abcdef"[digit]
  }

  /** `%0<width>llx` */
  function Hex(value: nat, width: nat): (s: string)
    ensures |s| == width
  {
    if width == 0 then "" else Hex(value / 16, width - 1) + [HexDigit(value % 16)]
  }

  function Decimal(value: nat): (s: string)
    ensures |s| > 0
  {
    if value < 10 then [HexDigit(value)] else Decimal(value / 10) + [HexDigit(value % 10)]
  }

  /** The bucket a key is stored under. */
  function Filename(key: Bytes): (name: Name)
    ensures IsFinal(name)
  {
    Hex(Checksum.Fold(key, |key|), 16) + ".cache"
  }

  function TemporaryName(name: Name, pid: nat, serial: nat): (temporary: Name)
    requires IsFinal(name)
    ensures !IsFinal(temporary)
  {
    name + ".tmp-" + Decimal(pid) + "-" + Decimal(serial)
  }

  /** Final names are 22 characters long and every temporary name is longer. */
  predicate IsFinal(name: Name) {
    |name| == 22
  }

  /** A regular file. Once its bytes are synced no writer touches it again. */
  datatype Inode = Inode(content: Bytes, synced: bool)

  datatype WriteStage =
    | Creating
    | Copying(inode: nat, offset: nat)
    | Renaming(inode: nat)
    | Unlinking(inode: nat)

  /** `value` is what the file held when it was opened: a history variable no step consults. */
  datatype ReadStage =
    | Opening
    | Checking(inode: nat, value: Bytes)
    | Reading(inode: nat, value: Bytes, size: nat, buffer: Bytes)

  datatype Call =
    | Write(name: Name, temporary: Name, bytes: Bytes, writing: WriteStage)
    | Read(name: Name, limit: nat, reading: ReadStage)

  /** `published`, `completed` and `requested` are history: which file was ever renamed to which name,
      which bytes that made a name hold, and which bytes writes were asked to store. */
  datatype State = State(directory: map<Name, nat>, inodes: map<nat, Inode>, calls: map<nat, Call>,
                         published: set<(Name, nat)>, completed: set<(Name, Bytes)>,
                         requested: set<(Name, Bytes)>)

  datatype Action =
    | BeginWrite(call: nat, key: Bytes, pid: nat, serial: nat, bytes: Bytes)
    | Create(call: nat, inode: nat)
    | CreateFails(call: nat)
    | WriteSome(call: nat, count: nat)
    | WriteFails(call: nat)
    | Sync(call: nat)
    | Rename(call: nat)
    | Unlink(call: nat)
    | BeginRead(call: nat, key: Bytes, limit: nat)
    | Open(call: nat)
    | Check(call: nat)
    | ReadSome(call: nat, count: nat)
    | ReturnBytes(call: nat, result: Bytes)
    | ReturnNothing(call: nat)
    | Crash(call: nat)
    | PowerFailure

  ghost predicate Initial(s: State) {
    s == State(map[], map[], map[], {}, {}, {})
  }

  ghost predicate IsWriting(s: State, c: nat) {
    c in s.calls && s.calls[c].Write?
  }

  ghost predicate IsReading(s: State, c: nat) {
    c in s.calls && s.calls[c].Read?
  }

  function WriteTo(s: State, c: nat, stage: WriteStage): map<nat, Call>
    requires c in s.calls && s.calls[c].Write?
  {
    s.calls[c := s.calls[c].(writing := stage)]
  }

  function ReadTo(s: State, c: nat, stage: ReadStage): map<nat, Call>
    requires c in s.calls && s.calls[c].Read?
  {
    s.calls[c := s.calls[c].(reading := stage)]
  }

  /** The number of names of a file: `st_nlink`. */
  ghost function Links(s: State, inode: nat): nat {
    |set n | n in s.directory && s.directory[n] == inode|
  }

  ghost predicate Step(s: State, a: Action, t: State) {
    match a
    case BeginWrite(c, key, pid, serial, bytes) =>
      && c !in s.calls
      && var name := Filename(key);
         t == s.(calls := s.calls[c := Write(name, TemporaryName(name, pid, serial), bytes, Creating)],
                 requested := s.requested + {(name, bytes)})
    case Create(c, inode) =>  // O_CREAT | O_EXCL: never an existing name, always a new file
      && IsWriting(s, c) && s.calls[c].writing.Creating?
      && s.calls[c].temporary !in s.directory && inode !in s.inodes
      && t == s.(directory := s.directory[s.calls[c].temporary := inode],
                 inodes := s.inodes[inode := Inode([], false)],
                 calls := WriteTo(s, c, Copying(inode, 0)))
    case CreateFails(c) =>
      IsWriting(s, c) && s.calls[c].writing.Creating? && t == s.(calls := s.calls - {c})
    case WriteSome(c, count) =>
      && IsWriting(s, c) && s.calls[c].writing.Copying?
      && var call := s.calls[c];
         var inode, offset := call.writing.inode, call.writing.offset;
         && 0 < count && offset + count <= |call.bytes| && inode in s.inodes
         && t == s.(inodes := s.inodes[inode := s.inodes[inode].(
                      content := s.inodes[inode].content + call.bytes[offset..offset + count])],
                    calls := WriteTo(s, c, Copying(inode, offset + count)))
    case WriteFails(c) =>  // a failed write, fsync or rename
      && IsWriting(s, c) && (s.calls[c].writing.Copying? || s.calls[c].writing.Renaming?)
      && t == s.(calls := WriteTo(s, c, Unlinking(s.calls[c].writing.inode)))
    case Sync(c) =>
      && IsWriting(s, c) && s.calls[c].writing.Copying?
      && var inode := s.calls[c].writing.inode;
         && s.calls[c].writing.offset == |s.calls[c].bytes| && inode in s.inodes
         && t == s.(inodes := s.inodes[inode := s.inodes[inode].(synced := true)],
                    calls := WriteTo(s, c, Renaming(inode)))
    case Rename(c) =>  // renames whatever the temporary name holds; the directory sync may or may not follow
      && IsWriting(s, c) && s.calls[c].writing.Renaming?
      && var call := s.calls[c];
         && call.temporary in s.directory
         && var moved := s.directory[call.temporary];
            t == s.(directory := (s.directory - {call.temporary})[call.name := moved],
                    calls := s.calls - {c},
                    published := s.published + {(call.name, moved)},
                    completed := s.completed + {(call.name, call.bytes)})
    case Unlink(c) =>
      && IsWriting(s, c) && s.calls[c].writing.Unlinking?
      && t == s.(directory := s.directory - {s.calls[c].temporary}, calls := s.calls - {c})
    case BeginRead(c, key, limit) =>
      c !in s.calls && t == s.(calls := s.calls[c := Read(Filename(key), limit, Opening)])
    case Open(c) =>
      && IsReading(s, c) && s.calls[c].reading.Opening? && s.calls[c].name in s.directory
      && var inode := s.directory[s.calls[c].name];
         inode in s.inodes && t == s.(calls := ReadTo(s, c, Checking(inode, s.inodes[inode].content)))
    case Check(c) =>
      && IsReading(s, c) && s.calls[c].reading.Checking?
      && var stage := s.calls[c].reading;
         && stage.inode in s.inodes && Links(s, stage.inode) == 1
         && |s.inodes[stage.inode].content| <= s.calls[c].limit
         && t == s.(calls := ReadTo(s, c, Reading(stage.inode, stage.value, |s.inodes[stage.inode].content|, [])))
    case ReadSome(c, count) =>
      && IsReading(s, c) && s.calls[c].reading.Reading?
      && var stage := s.calls[c].reading;
         && stage.inode in s.inodes
         && var content, offset := s.inodes[stage.inode].content, |stage.buffer|;
            && 0 < count && offset + count <= stage.size && offset + count <= |content|
            && t == s.(calls := ReadTo(s, c, stage.(buffer := stage.buffer + content[offset..offset + count])))
    case ReturnBytes(c, result) =>  // all of `size` read, and the extra read found the end of the file
      && IsReading(s, c) && s.calls[c].reading.Reading?
      && var stage := s.calls[c].reading;
         && |stage.buffer| == stage.size && stage.inode in s.inodes
         && |s.inodes[stage.inode].content| == stage.size
         && result == stage.buffer && t == s.(calls := s.calls - {c})
    case ReturnNothing(c) =>  // a missing, refused or short file, or a failed call
      IsReading(s, c) && t == s.(calls := s.calls - {c})
    case Crash(c) =>
      c in s.calls && t == s.(calls := s.calls - {c})
    case PowerFailure =>  // unsynced bytes and recent directory changes may be lost or kept, in any mixture
      && t.calls == map[]
      && t.published == s.published && t.completed == s.completed && t.requested == s.requested
      && t.inodes.Keys == s.inodes.Keys
      && (forall i | i in s.inodes && s.inodes[i].synced :: t.inodes[i] == s.inodes[i])
      && (forall n | n in t.directory :: t.directory[n] in s.inodes)
      && (forall n | n in t.directory && IsFinal(n) :: (n, t.directory[n]) in s.published)
  }

  // ----- what every step keeps

  /** A file that was ever given a final name is synced, and its bytes are a completed write of that name. */
  ghost predicate PublishedIsComplete(s: State) {
    forall n, i | (n, i) in s.published ::
      i in s.inodes && s.inodes[i].synced && (n, s.inodes[i].content) in s.completed
  }

  ghost predicate DirectoryIsSound(s: State) {
    forall n | n in s.directory ::
      s.directory[n] in s.inodes && (IsFinal(n) ==> (n, s.directory[n]) in s.published)
  }

  ghost predicate Unpublished(s: State, inode: nat) {
    forall n | (n, inode) in s.published :: false
  }

  /** The writer's temporary name still holds the file it created. */
  ghost predicate Owns(s: State, call: Call, inode: nat)
    requires call.Write?
  {
    inode in s.inodes && call.temporary in s.directory && s.directory[call.temporary] == inode
    && Unpublished(s, inode)
  }

  ghost predicate CallIsSound(s: State, call: Call) {
    match call
    case Write(name, temporary, bytes, stage) =>
      && IsFinal(name) && !IsFinal(temporary) && (name, bytes) in s.requested
      && (match stage
          case Creating => true
          case Copying(inode, offset) =>
            && Owns(s, call, inode) && !s.inodes[inode].synced
            && offset <= |bytes| && s.inodes[inode].content == bytes[..offset]
          case Renaming(inode) =>
            Owns(s, call, inode) && s.inodes[inode].synced && s.inodes[inode].content == bytes
          case Unlinking(inode) => Owns(s, call, inode))
    case Read(name, limit, stage) =>
      && IsFinal(name)
      && (match stage
          case Opening => true
          case Checking(inode, value) =>
            (name, inode) in s.published && inode in s.inodes && s.inodes[inode].content == value
          case Reading(inode, value, size, buffer) =>
            && (name, inode) in s.published && inode in s.inodes && s.inodes[inode].content == value
            && size == |value| <= limit && |buffer| <= size && buffer == value[..|buffer|])
  }

  function Held(call: Call): Option<nat> {
    if call.Write? && !call.writing.Creating? then Some(call.writing.inode) else None
  }

  ghost predicate HeldApart(s: State) {
    forall c, d | c in s.calls && d in s.calls && c != d && Held(s.calls[c]).Some? ::
      Held(s.calls[c]) != Held(s.calls[d])
  }

  ghost predicate CallsAreSound(s: State) {
    forall c | c in s.calls :: CallIsSound(s, s.calls[c])
  }

  ghost predicate CompletedWasRequested(s: State) {
    s.completed <= s.requested
  }

  ghost predicate Invariant(s: State) {
    && PublishedIsComplete(s) && DirectoryIsSound(s) && CallsAreSound(s)
    && HeldApart(s) && CompletedWasRequested(s)
  }
}
