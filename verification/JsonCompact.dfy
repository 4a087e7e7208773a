// What the writer writes, in the terms of the grammar: the compact tree of the value.
module JsonCompact {
  import opened Bytes
  import opened JsonNumber
  import opened JsonValue
  import opened JsonWriter
  import opened JsonGrammar
  import JsonGrammarLaws
  import Utf8

  // ----- compact trees

  /** The seven characters with an escape of their own have it, the other control characters are escaped in small hex
      digits, and everything else stands as it is. */
  predicate IsCompactChar(c: Char) {
    CharHolds(c) &&
    match c
    case Plain(_) => true
    case Short(letter) => letter != '/' as int
    case Escape(u) =>
      && !u.a.capital && !u.b.capital && !u.c.capital && !u.d.capital && UnitValue(u) < 0x20
      && UnitValue(u) !in {0x08, 0x09, 0x0a, 0x0c, 0x0d}
    case Pair(_, _) => false
  }

  predicate AreCompactChars(chars: seq<Char>) {
    forall c | c in chars :: IsCompactChar(c)
  }

  /** No blanks, compact characters, and the keys of an object in order. */
  ghost predicate IsCompact(t: Tree) {
    match t
    case StringTree(chars) => AreCompactChars(chars)
    case ArrayTree(blanks, items) => blanks == [] && forall i | 0 <= i < |items| :: IsCompactItem(items[i])
    case ObjectTree(blanks, entries) =>
      && blanks == [] && (forall i | 0 <= i < |entries| :: IsCompactEntry(entries[i]))
      && forall i, j | 0 <= i < j < |entries| && CharsHold(entries[i].key) && CharsHold(entries[j].key) ::
           Less(CharsMeaning(entries[i].key), CharsMeaning(entries[j].key))
    case _ => true
  }

  ghost predicate IsCompactItem(item: Item) {
    item.before == [] && item.after == [] && IsCompact(item.tree)
  }

  ghost predicate IsCompactEntry(e: Entry) {
    && e.before == [] && e.beforeColon == [] && e.afterColon == [] && e.after == []
    && AreCompactChars(e.key) && IsCompact(e.tree)
  }

  // ----- strings

  lemma CharIsCompact(value: Bytes, at: nat) returns (c: Char)
    requires at < |value| && Utf8.Length(value, at) > 0
    ensures IsCompactChar(c) && CharSpelled(c) == CharText(value, at)
    ensures CharMeaning(c) == value[at..at + Utf8.Length(value, at)]
  {
    var byte := value[at];
    if byte < 0x20 || byte == QUOTE || byte == BACKSLASH {
      c := EscapedIsCompact(value, at);
    } else {
      Utf8.MeasuredIsEncoding(value, at);
      c := Plain(Utf8.ScalarAt(value, at));
      if byte >= 0x80 { FirstByte(value, at, Utf8.Encode(c.codepoint)); }
    }
  }

  lemma EscapedIsCompact(value: Bytes, at: nat) returns (c: Char)
    requires at < |value| && (value[at] < 0x20 || value[at] == QUOTE || value[at] == BACKSLASH)
    ensures IsCompactChar(c) && CharSpelled(c) == CharText(value, at)
    ensures CharMeaning(c) == value[at..at + 1] && Utf8.Length(value, at) == 1
  {
    var byte := value[at];
    if ShortEscape(byte).Some? {
      c := Short(ShortEscape(byte).value);
    } else {
      c := ControlIsCompact(byte);
    }
  }

  lemma ControlIsCompact(byte: Byte) returns (c: Char)
    requires byte < 0x20 && ShortEscape(byte).None?
    ensures IsCompactChar(c) && CharMeaning(c) == [byte]
    ensures CharSpelled(c) == [BACKSLASH, LETTER_U, 0x30, 0x30, LowerHex(byte / 16), LowerHex(byte % 16)]
  {
    var a, b: nat := byte / 16, byte % 16;
    c := Escape(Unit(Hex(0, false), Hex(0, false), Hex(a, false), Hex(b, false)));
    assert UnitValue(c.unit) == byte;
    DigitIsSmall(a);
    DigitIsSmall(b);
    hide LowerHex, ShortEscape;
  }

  lemma DigitIsSmall(value: nat)
    requires value < 16
    ensures LowerHex(value) == HexSpelled(Hex(value, false))
  {
  }

  lemma {:induction false} TailIsCompact(value: Bytes, at: nat) returns (chars: seq<Char>)
    requires at <= |value| && Utf8.ValidFrom(value, at)
    ensures CharsHold(chars) && AreCompactChars(chars) && CharsSpelled(chars) == StringTail(value, at)
    ensures CharsMeaning(chars) == value[at..]
    decreases |value| - at
  {
    hide IsCompactChar, CharSpelled, CharMeaning, CharText;
    chars := [];
    if at < |value| {
      var next := at + Utf8.Length(value, at);
      var c := CharIsCompact(value, at);
      var rest := TailIsCompact(value, next);
      chars := [c] + rest;
      CompactHolds(c);
      assert chars[1..] == rest && value[at..] == value[at..next] + value[next..];
    }
  }

  lemma CompactHolds(c: Char)
    requires IsCompactChar(c)
    ensures CharHolds(c)
  {
  }

  lemma StringIsCompact(value: Bytes) returns (chars: seq<Char>)
    requires Utf8.Valid(value)
    ensures CharsHold(chars) && AreCompactChars(chars)
    ensures StringSpelled(chars) == StringText(value) && CharsMeaning(chars) == value
  {
    hide CharsHold, AreCompactChars, CharsSpelled, StringTail, CharsMeaning;
    chars := TailIsCompact(value, 0);
    assert value[0..] == value;
  }

  // ----- values

  /** The text of a value is what its compact tree spells. */
  lemma {:induction false} WrittenIsCompact(v: Value) returns (t: Tree)
    requires WellFormed(v) && Writable(v)
    ensures TreeHolds(t) && IsCompact(t) && Spelled(t) == Text(v) && Meaning(t) == v
    decreases v, 0
  {
    hide CharsHold, AreCompactChars, StringSpelled, StringText, IsNumber, ValidNumber, ItemHolds, EntryHolds;
    match v
    case Null => t := NullTree;
    case Bool(flag) => t := BoolTree(flag);
    case Number(text) =>
      ValidNumberIsGrammar(text);
      t := NumberTree(text);
    case String(bytes) =>
      var chars := StringIsCompact(bytes);
      t := StringTree(chars);
    case Array(items) => t := ArrayIsCompact(items);
    case Object(members) => t := ObjectIsCompact(members);
  }

  lemma {:induction false} ArrayIsCompact(items: seq<Value>) returns (t: Tree)
    requires WellFormed(Array(items)) && Writable(Array(items))
    ensures TreeHolds(t) && IsCompact(t) && Spelled(t) == Text(Array(items)) && Meaning(t) == Array(items)
    decreases items, |items| + 1
  {
    hide ItemHolds, ItemsSpelled, ItemsMeaning, ItemsText, IsCompactItem;
    var spelled := [];
    if items == [] {
      assert ItemsText(items, 0) == [] && ItemsMeaning([]) == [] by { NoItems(); }
    } else {
      spelled := ItemsAreCompact(items, 0);
      assert items[0..] == items;
    }
    t := ArrayTree([], spelled);
    assert Text(Array(items)) == [OPEN_BRACKET] + ItemsText(items, 0) + [CLOSE_BRACKET];
  }

  lemma NoItems()
    ensures ItemsText([], 0) == [] && ItemsMeaning([]) == []
    ensures MembersText([], 0) == [] && EntriesMeaning([]) == []
  {
  }

  lemma {:induction false} ItemIsCompact(v: Value) returns (item: Item)
    requires WellFormed(v) && Writable(v)
    ensures ItemHolds(item) && IsCompactItem(item) && ItemSpelled(item) == Text(v) && Meaning(item.tree) == v
    decreases v, 1
  {
    hide Text, Spelled, Meaning, TreeHolds, IsCompact, WellFormed, Writable;
    var t := WrittenIsCompact(v);
    item := Item([], t, []);
  }

  lemma {:induction false} ItemsAreCompact(items: seq<Value>, from: nat) returns (spelled: seq<Item>)
    requires from < |items| && forall i | 0 <= i < |items| :: WellFormed(items[i]) && Writable(items[i])
    ensures spelled != [] && forall i | 0 <= i < |spelled| :: ItemHolds(spelled[i]) && IsCompactItem(spelled[i])
    ensures ItemsText(items, from) == (if from == 0 then [] else [COMMA]) + ItemsSpelled(spelled)
    ensures ItemsMeaning(spelled) == items[from..]
    decreases items, |items| - from
  {
    hide *;
    var item := ItemIsCompact(items[from]);
    if from + 1 < |items| {
      var rest := ItemsAreCompact(items, from + 1);
      spelled := [item] + rest;
      ItemAhead(items, from, item, rest);
    } else {
      spelled := [item];
      LastItem(items, from, item);
    }
  }

  lemma LastItem(items: seq<Value>, from: nat, item: Item)
    requires from + 1 == |items| && forall i | 0 <= i < |items| :: Writable(items[i])
    requires ItemHolds(item) && ItemSpelled(item) == Text(items[from]) && Meaning(item.tree) == items[from]
    ensures ItemsText(items, from) == (if from == 0 then [] else [COMMA]) + ItemsSpelled([item])
    ensures ItemsMeaning([item]) == items[from..]
  {
    hide *;
    LastItemText(items, from);
    OneItem(item);
    assert items[from..] == [items[from]];
  }

  lemma LastItemText(items: seq<Value>, from: nat)
    requires from + 1 == |items| && forall i | 0 <= i < |items| :: Writable(items[i])
    ensures ItemsText(items, from) == (if from == 0 then [] else [COMMA]) + Text(items[from])
  {
    hide Text, Writable;
    assert ItemsText(items, from + 1) == [];
  }

  lemma OneItem(item: Item)
    requires ItemHolds(item)
    ensures ItemsSpelled([item]) == ItemSpelled(item) && ItemsMeaning([item]) == [Meaning(item.tree)]
  {
    hide ItemSpelled, Meaning, TreeHolds, IsBlank;
    assert ItemsMeaning([item][1..]) == [];
  }

  lemma ItemAhead(items: seq<Value>, from: nat, item: Item, rest: seq<Item>)
    requires from + 1 < |items| && forall i | 0 <= i < |items| :: Writable(items[i])
    requires ItemHolds(item) && ItemSpelled(item) == Text(items[from]) && Meaning(item.tree) == items[from]
    requires rest != [] && forall i | 0 <= i < |rest| :: ItemHolds(rest[i])
    requires ItemsText(items, from + 1) == [COMMA] + ItemsSpelled(rest) && ItemsMeaning(rest) == items[from + 1..]
    ensures forall i | 0 <= i < |rest| + 1 :: ItemHolds(([item] + rest)[i])
    ensures ItemsText(items, from) == (if from == 0 then [] else [COMMA]) + ItemsSpelled([item] + rest)
    ensures ItemsMeaning([item] + rest) == items[from..]
  {
    hide *;
    ItemsTextNext(items, from, ItemsSpelled(rest));
    ItemsOpened(item, rest);
    assert items[from..] == [items[from]] + items[from + 1..];
  }

  lemma ItemsTextNext(items: seq<Value>, from: nat, rest: Bytes)
    requires from + 1 < |items| && forall i | 0 <= i < |items| :: Writable(items[i])
    requires ItemsText(items, from + 1) == [COMMA] + rest
    ensures ItemsText(items, from) == (if from == 0 then [] else [COMMA]) + (Text(items[from]) + [COMMA] + rest)
  {
    hide Text, Writable;
    var sep: Bytes := if from == 0 then [] else [COMMA];
    assert ItemsText(items, from) == sep + Text(items[from]) + ItemsText(items, from + 1);
    hide ItemsText;
  }

  lemma ItemsOpened(item: Item, rest: seq<Item>)
    requires ItemHolds(item) && rest != [] && forall i | 0 <= i < |rest| :: ItemHolds(rest[i])
    ensures forall i | 0 <= i < |rest| + 1 :: ItemHolds(([item] + rest)[i])
    ensures ItemsSpelled([item] + rest) == ItemSpelled(item) + [COMMA] + ItemsSpelled(rest)
    ensures ItemsMeaning([item] + rest) == [Meaning(item.tree)] + ItemsMeaning(rest)
  {
    hide ItemSpelled, Meaning, TreeHolds, IsBlank;
    assert ([item] + rest)[1..] == rest;
  }

  lemma {:induction false} ObjectIsCompact(members: seq<Member>) returns (t: Tree)
    requires WellFormed(Object(members)) && Writable(Object(members))
    ensures TreeHolds(t) && IsCompact(t) && Spelled(t) == Text(Object(members)) && Meaning(t) == Object(members)
    decreases members, |members| + 1
  {
    hide EntryHolds, EntriesSpelled, EntriesMeaning, MembersText, IsCompactEntry;
    var spelled := [];
    if members == [] {
      NoItems();
    } else {
      spelled := EntriesAreCompact(members, 0);
      assert members[0..] == members;
    }
    assert Text(Object(members)) == [OPEN_BRACE] + MembersText(members, 0) + [CLOSE_BRACE];
    t := ObjectOf(members, spelled);
  }

  lemma ObjectOf(members: seq<Member>, spelled: seq<Entry>) returns (t: Tree)
    requires Sorted(members) && forall i | 0 <= i < |spelled| :: EntryHolds(spelled[i]) && IsCompactEntry(spelled[i])
    requires EntriesMeaning(spelled) == members
    ensures TreeHolds(t) && IsCompact(t) && Meaning(t) == Object(members) && t == ObjectTree([], spelled)
  {
    hide EntryHolds, EntriesMeaning, IsCompactEntry, Gathered, CharsHold, CharsMeaning, Sorted;
    t := ObjectTree([], spelled);
    KeysAscend(members, spelled);
    assert [] + members == members;
    GatheredInOrder([], members);
  }

  lemma {:induction false} EntryIsCompact(m: Member) returns (e: Entry)
    requires Utf8.Valid(m.key) && WellFormed(m.value) && Writable(m.value)
    ensures EntryHolds(e) && IsCompactEntry(e) && EntrySpelled(e) == MemberText(m) && EntryMeaning(e) == m
    decreases m, 1
  {
    hide Text, Spelled, Meaning, TreeHolds, IsCompact, WellFormed, Writable, StringSpelled, StringText, CharsHold,
      CharsMeaning, AreCompactChars;
    var key := StringIsCompact(m.key);
    var t := WrittenIsCompact(m.value);
    e := Entry([], key, [], [], t, []);
  }

  lemma {:induction false} EntriesAreCompact(members: seq<Member>, from: nat) returns (spelled: seq<Entry>)
    requires from < |members|
    requires forall i | 0 <= i < |members| ::
               Utf8.Valid(members[i].key) && WellFormed(members[i].value) && Writable(members[i].value)
    ensures spelled != [] && forall i | 0 <= i < |spelled| :: EntryHolds(spelled[i]) && IsCompactEntry(spelled[i])
    ensures MembersText(members, from) == (if from == 0 then [] else [COMMA]) + EntriesSpelled(spelled)
    ensures EntriesMeaning(spelled) == members[from..]
    decreases members, |members| - from
  {
    hide *;
    var e := EntryIsCompact(members[from]);
    if from + 1 < |members| {
      var rest := EntriesAreCompact(members, from + 1);
      spelled := [e] + rest;
      EntryAhead(members, from, e, rest);
    } else {
      spelled := [e];
      LastEntry(members, from, e);
    }
  }

  lemma LastEntry(members: seq<Member>, from: nat, e: Entry)
    requires from + 1 == |members|
    requires forall i | 0 <= i < |members| :: Utf8.Valid(members[i].key) && Writable(members[i].value)
    requires EntryHolds(e) && EntrySpelled(e) == MemberText(members[from]) && EntryMeaning(e) == members[from]
    ensures MembersText(members, from) == (if from == 0 then [] else [COMMA]) + EntriesSpelled([e])
    ensures EntriesMeaning([e]) == members[from..]
  {
    hide EntryHolds, EntrySpelled, MemberText, Utf8.Valid, Writable, EntryMeaning;
    assert EntriesMeaning([e]) == [EntryMeaning(e)];
  }

  lemma EntryAhead(members: seq<Member>, from: nat, e: Entry, rest: seq<Entry>)
    requires from + 1 < |members|
    requires forall i | 0 <= i < |members| :: Utf8.Valid(members[i].key) && Writable(members[i].value)
    requires EntryHolds(e) && EntrySpelled(e) == MemberText(members[from]) && EntryMeaning(e) == members[from]
    requires rest != [] && forall i | 0 <= i < |rest| :: EntryHolds(rest[i])
    requires MembersText(members, from + 1) == [COMMA] + EntriesSpelled(rest) && EntriesMeaning(rest) == members[from + 1..]
    ensures forall i | 0 <= i < |rest| + 1 :: EntryHolds(([e] + rest)[i])
    ensures MembersText(members, from) == (if from == 0 then [] else [COMMA]) + EntriesSpelled([e] + rest)
    ensures EntriesMeaning([e] + rest) == members[from..]
  {
    hide *;
    var all := [e] + rest;
    assert all[0] == e && all[1..] == rest && |all| > 1;
    assert members[from..] == [members[from]] + members[from + 1..];
    MembersTextNext(members, from, EntriesSpelled(rest));
    EntriesOpened(all);
  }

  lemma MembersTextNext(members: seq<Member>, from: nat, rest: Bytes)
    requires from + 1 < |members|
    requires forall i | 0 <= i < |members| :: Utf8.Valid(members[i].key) && Writable(members[i].value)
    requires MembersText(members, from + 1) == [COMMA] + rest
    ensures MembersText(members, from) == (if from == 0 then [] else [COMMA]) + (MemberText(members[from]) + [COMMA] + rest)
  {
    hide MemberText, Utf8.Valid, Writable;
    var sep: Bytes := if from == 0 then [] else [COMMA];
    assert MembersText(members, from) == sep + MemberText(members[from]) + MembersText(members, from + 1);
    hide MembersText;
  }

  lemma EntriesOpened(entries: seq<Entry>)
    requires |entries| > 1 && forall i | 0 <= i < |entries| :: EntryHolds(entries[i])
    ensures EntriesSpelled(entries) == EntrySpelled(entries[0]) + [COMMA] + EntriesSpelled(entries[1..])
    ensures EntriesMeaning(entries) == [EntryMeaning(entries[0])] + EntriesMeaning(entries[1..])
  {
    hide EntrySpelled, EntryMeaning, EntryHolds;
  }

  /** Entries that mean members in key order have keys in order, so that no two are the same. */
  lemma KeysAscend(members: seq<Member>, spelled: seq<Entry>)
    requires forall i | 0 <= i < |spelled| :: EntryHolds(spelled[i])
    requires Sorted(members) && EntriesMeaning(spelled) == members
    ensures forall i | 0 <= i < |spelled| :: CharsHold(spelled[i].key)
    ensures forall i, j | 0 <= i < j < |spelled| :: Less(CharsMeaning(spelled[i].key), CharsMeaning(spelled[j].key))
    ensures KeysDiffer(spelled)
  {
    JsonGrammarLaws.KeysOfEntries(spelled);
    forall i, j | 0 <= i < j < |spelled|
      ensures Less(CharsMeaning(spelled[i].key), CharsMeaning(spelled[j].key))
      ensures CharsMeaning(spelled[i].key) != CharsMeaning(spelled[j].key)
    {
      JsonGrammarLaws.EntriesMeaningAt(spelled, i);
      JsonGrammarLaws.EntriesMeaningAt(spelled, j);
      LessIsIrreflexive(members[i].key);
    }
  }

  /** Members in key order go into the map in that order. */
  lemma {:induction false} GatheredInOrder(members: seq<Member>, more: seq<Member>)
    requires Sorted(members + more)
    ensures Gathered(members, more) == members + more
    decreases |more|
  {
    if more != [] {
      var both := members + [more[0]];
      assert both + more[1..] == members + more;
      assert forall i | 0 <= i < |both| :: both[i] == (members + more)[i];
      EmplacedLast(members, more[0]);
      GatheredInOrder(both, more[1..]);
    }
  }

  /** What an object means: the members that its entries mean, each once, in key order. */
  lemma {:induction false} GatheredIsSorted(members: seq<Member>, more: seq<Member>)
    requires Sorted(members) && JsonGrammarLaws.AllNew(members, more)
    ensures Sorted(Gathered(members, more)) && multiset(Gathered(members, more)) == multiset(members) + multiset(more)
    decreases |more|
  {
    if more != [] {
      JsonGrammarLaws.AllNewFirst(members, more);
      EmplacedKeepsOrder(members, more[0]);
      var at := EmplacedAt(members, more[0]);
      assert members == members[..at] + members[at..];
      assert more == [more[0]] + more[1..];
      GatheredIsSorted(Emplaced(members, more[0]), more[1..]);
    }
  }

  lemma ObjectMeansItsEntries(t: Tree)
    requires t.ObjectTree? && TreeHolds(t)
    ensures var members := Meaning(t).members;
            Sorted(members) && multiset(members) == multiset(EntriesMeaning(t.entries))
  {
    hide EntriesMeaning, KeysDiffer, Gathered, JsonGrammarLaws.AllNew, EntryHolds;
    JsonGrammarLaws.KeysOfEntries(t.entries);
    JsonGrammarLaws.KeysAreNew(t.entries);
    GatheredIsSorted([], EntriesMeaning(t.entries));
  }
}
