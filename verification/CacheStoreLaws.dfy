// Every step keeps the invariant, so a read never sees a torn, partial or foreign file.
module CacheStoreLaws {
  import opened Bytes
  import opened CacheStore
  import Checksum

  lemma InitialIsSound(s: State)
    requires Initial(s)
    ensures Invariant(s)
  {
  }

  /** A step that leaves the files alone and drops or replaces one call. */
  lemma QuietStep(s: State, t: State, c: nat)
    requires Invariant(s) && t == s.(calls := t.calls)
    requires forall d | d in t.calls && d != c :: d in s.calls && t.calls[d] == s.calls[d]
    requires c in t.calls ==> CallIsSound(s, t.calls[c])
    requires c in t.calls && Held(t.calls[c]).Some? ==> c in s.calls && Held(s.calls[c]) == Held(t.calls[c])
    ensures Invariant(t)
  {
    forall d | d in t.calls ensures CallIsSound(t, t.calls[d]) {
      assert CallIsSound(s, t.calls[d]);
    }
  }

  lemma BeginWriteKeeps(s: State, a: Action, t: State)
    requires Invariant(s) && a.BeginWrite? && Step(s, a, t)
    ensures Invariant(t)
  {
    var u := s.(requested := t.requested);
    forall d | d in u.calls ensures CallIsSound(u, u.calls[d]) {
      assert CallIsSound(s, s.calls[d]);
    }
    assert CallIsSound(u, t.calls[a.call]);
    QuietStep(u, t, a.call);
  }

  lemma CreateKeeps(s: State, a: Action, t: State)
    requires Invariant(s) && a.Create? && Step(s, a, t)
    ensures Invariant(t)
  {
    var c, inode := a.call, a.inode;
    assert CallIsSound(s, s.calls[c]);
    forall d | d in s.calls && d != c
      ensures CallIsSound(t, t.calls[d]) && Held(t.calls[d]) != Some(inode)
    {
      assert CallIsSound(s, s.calls[d]);
    }
    assert Unpublished(t, inode);
    assert CallIsSound(t, t.calls[c]);
  }

  /** Changing a file only its writer holds disturbs nobody else. */
  lemma OwnFileStep(s: State, t: State, c: nat, inode: nat)
    requires Invariant(s) && c in s.calls && Held(s.calls[c]) == Some(inode)
    requires t.directory == s.directory && t.published == s.published
    requires t.completed == s.completed && t.requested == s.requested
    requires t.inodes.Keys == s.inodes.Keys
    requires forall i | i in s.inodes && i != inode :: t.inodes[i] == s.inodes[i]
    requires t.calls.Keys == s.calls.Keys && forall d | d in s.calls && d != c :: t.calls[d] == s.calls[d]
    requires CallIsSound(t, t.calls[c]) && Held(t.calls[c]) == Some(inode)
    ensures Invariant(t)
  {
    assert CallIsSound(s, s.calls[c]);
    assert Unpublished(s, inode);
    forall d | d in s.calls && d != c ensures CallIsSound(t, t.calls[d]) {
      assert CallIsSound(s, s.calls[d]);
      assert Held(s.calls[d]) != Some(inode);
    }
  }

  lemma WriteSomeKeeps(s: State, a: Action, t: State)
    requires Invariant(s) && a.WriteSome? && Step(s, a, t)
    ensures Invariant(t)
  {
    var call := s.calls[a.call];
    assert CallIsSound(s, call);
    var inode, offset := call.writing.inode, call.writing.offset;
    assert call.bytes[..offset] + call.bytes[offset..offset + a.count] == call.bytes[..offset + a.count];
    assert Unpublished(t, inode);
    assert CallIsSound(t, t.calls[a.call]);
    OwnFileStep(s, t, a.call, inode);
  }

  lemma SyncKeeps(s: State, a: Action, t: State)
    requires Invariant(s) && a.Sync? && Step(s, a, t)
    ensures Invariant(t)
  {
    var call := s.calls[a.call];
    assert CallIsSound(s, call);
    var inode := call.writing.inode;
    assert call.bytes[..|call.bytes|] == call.bytes;
    assert Unpublished(t, inode);
    assert CallIsSound(t, t.calls[a.call]);
    OwnFileStep(s, t, a.call, inode);
  }

  lemma RenameKeeps(s: State, a: Action, t: State)
    requires Invariant(s) && a.Rename? && Step(s, a, t)
    ensures Invariant(t)
  {
    var c := a.call;
    var call := s.calls[c];
    assert CallIsSound(s, call);
    var inode := call.writing.inode;
    forall d | d in t.calls ensures CallIsSound(t, t.calls[d]) {
      var other := s.calls[d];
      assert CallIsSound(s, other);
      assert Held(other) != Some(inode);
      if Held(other).Some? {
        assert other.temporary != call.temporary && other.temporary != call.name;
        assert Unpublished(t, Held(other).value);
      }
    }
  }

  lemma UnlinkKeeps(s: State, a: Action, t: State)
    requires Invariant(s) && a.Unlink? && Step(s, a, t)
    ensures Invariant(t)
  {
    var call := s.calls[a.call];
    assert CallIsSound(s, call);
    forall d | d in t.calls ensures CallIsSound(t, t.calls[d]) {
      assert CallIsSound(s, s.calls[d]);
      assert Held(s.calls[d]) != Held(call);
    }
  }

  lemma ReaderKeeps(s: State, a: Action, t: State)
    requires Invariant(s) && (a.Open? || a.Check? || a.ReadSome?) && Step(s, a, t)
    ensures Invariant(t)
  {
    var call := s.calls[a.call];
    assert CallIsSound(s, call);
    if a.ReadSome? {
      var stage := call.reading;
      var n := |stage.buffer|;
      assert stage.value[..n] + stage.value[n..n + a.count] == stage.value[..n + a.count];
    } else if a.Check? {
      assert call.reading.value[..0] == [];
    }
    assert CallIsSound(s, t.calls[a.call]);
    QuietStep(s, t, a.call);
  }

  lemma StepKeeps(s: State, a: Action, t: State)
    requires Invariant(s) && Step(s, a, t)
    ensures Invariant(t)
  {
    match a {
      case BeginWrite(_, _, _, _, _) => BeginWriteKeeps(s, a, t);
      case Create(_, _) => CreateKeeps(s, a, t);
      case WriteSome(_, _) => WriteSomeKeeps(s, a, t);
      case WriteFails(c) =>
        assert CallIsSound(s, s.calls[c]);
        QuietStep(s, t, c);
      case Sync(_) => SyncKeeps(s, a, t);
      case Rename(_) => RenameKeeps(s, a, t);
      case Unlink(_) => UnlinkKeeps(s, a, t);
      case BeginRead(c, _, _) => QuietStep(s, t, c);
      case Open(_) => ReaderKeeps(s, a, t);
      case Check(_) => ReaderKeeps(s, a, t);
      case ReadSome(_, _) => ReaderKeeps(s, a, t);
      case CreateFails(c) => QuietStep(s, t, c);
      case ReturnBytes(c, _) => QuietStep(s, t, c);
      case ReturnNothing(c) => QuietStep(s, t, c);
      case Crash(c) => QuietStep(s, t, c);
      case PowerFailure =>
    }
  }

  // ----- runs

  /** A run: states[0] is initial and actions[i] leads from states[i] to states[i + 1]. */
  ghost predicate Run(states: seq<State>, actions: seq<Action>) {
    |states| == |actions| + 1 && Initial(states[0])
    && forall i | 0 <= i < |actions| :: Step(states[i], actions[i], states[i + 1])
  }

  lemma {:induction false} RunKeeps(states: seq<State>, actions: seq<Action>, at: nat)
    requires Run(states, actions) && at < |states|
    ensures Invariant(states[at])
    decreases at
  {
    hide Invariant, Step;
    if at == 0 {
      InitialIsSound(states[0]);
    } else {
      RunKeeps(states, actions, at - 1);
      StepKeeps(states[at - 1], actions[at - 1], states[at]);
    }
  }

  /** What a final name holds at this moment, if anything. */
  ghost function Stored(s: State, name: Name): Option<Bytes> {
    if name in s.directory && s.directory[name] in s.inodes
    then Some(s.inodes[s.directory[name]].content) else None
  }

  ghost predicate HasOpened(s: State, c: nat) {
    IsReading(s, c) && !s.calls[c].reading.Opening?
  }

  lemma OpenedByThisStepOrBefore(s: State, a: Action, t: State, c: nat)
    requires Step(s, a, t) && HasOpened(t, c)
    ensures if a == Open(c) then
              && IsReading(s, c) && s.calls[c].name == t.calls[c].name
              && Stored(s, t.calls[c].name) == Some(t.calls[c].reading.value)
            else
              && HasOpened(s, c) && s.calls[c].name == t.calls[c].name
              && s.calls[c].reading.value == t.calls[c].reading.value
  {
  }

  /** An open read goes back to the step that opened it, and to what the name held then. */
  lemma {:induction false} OpenedEarlier(states: seq<State>, actions: seq<Action>, at: nat, c: nat) returns (j: nat)
    requires Run(states, actions) && at < |states| && HasOpened(states[at], c)
    ensures j < at && actions[j] == Open(c) && IsReading(states[j], c)
    ensures states[j].calls[c].name == states[at].calls[c].name
    ensures Stored(states[j], states[at].calls[c].name) == Some(states[at].calls[c].reading.value)
    decreases at
  {
    assert at > 0;
    var s, a, t := states[at - 1], actions[at - 1], states[at];
    hide Step, Initial;
    OpenedByThisStepOrBefore(s, a, t, c);
    if a == Open(c) {
      j := at - 1;
    } else {
      j := OpenedEarlier(states, actions, at - 1, c);
    }
  }

  lemma ReturnedIsWhole(s: State, a: Action, t: State)
    requires Invariant(s) && a.ReturnBytes? && Step(s, a, t)
    ensures HasOpened(s, a.call) && s.calls[a.call].reading.value == a.result
    ensures (s.calls[a.call].name, a.result) in s.completed && |a.result| <= s.calls[a.call].limit
  {
    var call := s.calls[a.call];
    assert CallIsSound(s, call);
    assert call.reading.buffer == call.reading.value[..|call.reading.value|] == call.reading.value;
  }

  /** Whatever a read returns is all of what one write was asked to store under that filename, completed by
      then, and is exactly what the name held at the step that opened the file. */
  lemma ReadsAreWhole(states: seq<State>, actions: seq<Action>, at: nat) returns (start: nat)
    requires Run(states, actions) && at < |actions| && actions[at].ReturnBytes?
    ensures start < at && actions[start] == Open(actions[at].call) && IsReading(states[start], actions[at].call)
    ensures var name := states[start].calls[actions[at].call].name;
            && Stored(states[start], name) == Some(actions[at].result)
            && (name, actions[at].result) in states[at].completed
            && (name, actions[at].result) in states[at].requested
  {
    RunKeeps(states, actions, at);
    assert Step(states[at], actions[at], states[at + 1]);
    ReturnedIsWhole(states[at], actions[at], states[at + 1]);
    start := OpenedEarlier(states, actions, at, actions[at].call);
  }

  ghost predicate HasChecked(s: State, c: nat) {
    IsReading(s, c) && s.calls[c].reading.Reading?
  }

  /** The file that the read has opened has one name and no more bytes than the read allows. */
  ghost predicate PassesCheck(s: State, c: nat, limit: nat) {
    && IsReading(s, c) && s.calls[c].reading.Checking? && s.calls[c].reading.inode in s.inodes
    && |set n | n in s.directory && s.directory[n] == s.calls[c].reading.inode| == 1
    && |s.inodes[s.calls[c].reading.inode].content| <= limit && s.calls[c].limit == limit
  }

  ghost predicate HasCheckedWithin(s: State, c: nat, limit: nat) {
    HasChecked(s, c) && s.calls[c].limit == limit
  }

  lemma CheckedByThisStepOrBefore(s: State, a: Action, t: State, c: nat, limit: nat)
    requires Step(s, a, t) && HasCheckedWithin(t, c, limit)
    ensures if a == Check(c) then PassesCheck(s, c, limit) else HasCheckedWithin(s, c, limit)
  {
  }

  lemma {:induction false} CheckedEarlier(states: seq<State>, actions: seq<Action>, at: nat, c: nat, limit: nat)
    returns (k: nat)
    requires Run(states, actions) && at < |states| && HasCheckedWithin(states[at], c, limit)
    ensures k < at && actions[k] == Check(c) && PassesCheck(states[k], c, limit)
    decreases at
  {
    NothingIsChecked(states[0], c, limit);
    assert at > 0;
    hide Step, Initial, PassesCheck, HasCheckedWithin;
    CheckedByThisStepOrBefore(states[at - 1], actions[at - 1], states[at], c, limit);
    if actions[at - 1] == Check(c) {
      k := at - 1;
    } else {
      k := CheckedEarlier(states, actions, at - 1, c, limit);
    }
  }

  lemma NothingIsChecked(s: State, c: nat, limit: nat)
    requires Initial(s)
    ensures !HasCheckedWithin(s, c, limit)
  {
  }

  /** Before a read returns bytes it found the opened file with one name and within its limit, and so are the bytes. */
  lemma ReadsAreChecked(states: seq<State>, actions: seq<Action>, at: nat) returns (k: nat)
    requires Run(states, actions) && at < |actions| && actions[at].ReturnBytes?
    ensures var c := actions[at].call;
            && k < at && actions[k] == Check(c) && IsReading(states[at], c)
            && |actions[at].result| <= states[at].calls[c].limit
            && PassesCheck(states[k], c, states[at].calls[c].limit)
  {
    RunKeeps(states, actions, at);
    assert Step(states[at], actions[at], states[at + 1]);
    ReturnedIsWhole(states[at], actions[at], states[at + 1]);
    var c := actions[at].call;
    k := CheckedEarlier(states, actions, at, c, states[at].calls[c].limit);
  }

  /** A write and a read work under the name of their key; a write keeps the bytes that it was asked to store. */
  lemma CallsAreUnderTheirKeys(s: State, a: Action, t: State)
    requires Step(s, a, t)
    ensures a.BeginRead? ==> t.calls == s.calls[a.call := Read(Filename(a.key), a.limit, Opening)]
    ensures a.BeginWrite? ==>
              && a.call in t.calls && t.calls[a.call].Write? && t.calls[a.call].name == Filename(a.key)
              && t.calls[a.call].bytes == a.bytes && t.calls[a.call].writing.Creating?
              && t.requested == s.requested + {(Filename(a.key), a.bytes)}
  {
  }

  const DIGITS: string := "0123456789abcdef"

  function Power16(k: nat): (p: nat)
    ensures p > 0
  {
    if k == 0 then 1 else 16 * Power16(k - 1)
  }

  lemma {:induction false} HexDigits(value: nat, width: nat, k: nat)
    requires k < width
    ensures Hex(value, width)[k] == DIGITS[value / Power16(width - 1 - k) % 16]
    decreases width
  {
    if k < width - 1 {
      HexDigits(value / 16, width - 1, k);
      DividedTwice(value, Power16(width - 2 - k));
    }
  }

  lemma DividedTwice(value: nat, p: nat)
    requires p > 0
    ensures value / 16 / p == value / (16 * p)
  {
    var m: nat := value / 16;
    var q, r: nat := m / p, m % p;
    assert m == p * q + r;
    assert value == (16 * p) * q + (16 * r + value % 16);
    Checksum.QuotientIs(value, 16 * p, q, 16 * r + value % 16);
  }

  /** A key is stored under the sixteen hex digits of its checksum, the highest first, and ".cache". */
  lemma FilenameExactly(key: Bytes)
    ensures |Filename(key)| == 22 && Filename(key)[16..] == ".cache"
    ensures forall k | 0 <= k < 16 ::
              Filename(key)[k] == DIGITS[Checksum.Fold(key, |key|) / Power16(15 - k) % 16]
  {
    forall k | 0 <= k < 16 ensures Filename(key)[k] == DIGITS[Checksum.Fold(key, |key|) / Power16(15 - k) % 16] {
      HexDigits(Checksum.Fold(key, |key|), 16, k);
    }
  }

  /** The store is an atomic register: only a rename (or a power failure) changes what a name holds, and a
      rename leaves it holding exactly the bytes of its write. */
  lemma OnlyRenameChangesTheStore(s: State, a: Action, t: State, name: Name)
    requires Invariant(s) && Step(s, a, t) && IsFinal(name) && !a.PowerFailure?
    ensures Stored(t, name) == if a.Rename? && s.calls[a.call].name == name then Some(s.calls[a.call].bytes)
                               else Stored(s, name)
  {
    if a.Rename? || a.Unlink? || a.Create? || a.WriteSome? || a.Sync? {
      assert CallIsSound(s, s.calls[a.call]);
    }
    if name in s.directory {
      assert (name, s.directory[name]) in s.published;
    }
  }

  /** A power failure leaves each name with some completed write of it, or with nothing. */
  lemma PowerFailureKeepsWholeFiles(s: State, t: State, name: Name)
    requires Invariant(s) && Step(s, PowerFailure, t) && IsFinal(name) && Stored(t, name).Some?
    ensures (name, Stored(t, name).value) in s.completed
  {
    assert (name, t.directory[name]) in s.published;
  }
}
