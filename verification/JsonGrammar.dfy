// The grammar of JSON texts (RFC 8259, sections 2 to 7) as derivation trees, and what a tree spells and means. A key
// stands once in an object, as the parser demands.
module JsonGrammar {
  import opened Bytes
  import opened JsonValue
  import JsonNumber
  import Utf8

  // ----- characters of a string

  /** A hex digit: its value, and whether it is spelled with a capital letter where it is a letter. */
  datatype Hex = Hex(value: nat, capital: bool)

  predicate HexHolds(h: Hex) {
    h.value < 16
  }

  function HexSpelled(h: Hex): Byte {
    (if h.capital then CAPITAL_DIGITS else SMALL_DIGITS)[h.value % 16]
  }

  /** One code unit: four hex digits. */
  datatype Unit = Unit(a: Hex, b: Hex, c: Hex, d: Hex)

  predicate UnitHolds(u: Unit) {
    HexHolds(u.a) && HexHolds(u.b) && HexHolds(u.c) && HexHolds(u.d)
  }

  function UnitSpelled(u: Unit): (text: Bytes)
    ensures |text| == 4
  {
    [HexSpelled(u.a), HexSpelled(u.b), HexSpelled(u.c), HexSpelled(u.d)]
  }

  function UnitValue(u: Unit): (value: nat)
    requires UnitHolds(u)
    ensures value < 0x10000
  {
    u.a.value * 0x1000 + u.b.value * 0x100 + u.c.value * 0x10 + u.d.value
  }

  /** One character as a string spells it: as it stands, by a letter after a backslash, by one code unit or by a
      surrogate pair. */
  datatype Char =
    | Plain(codepoint: Utf8.Scalar)
    | Short(letter: Byte)
    | Escape(unit: Unit)
    | Pair(high: Unit, low: Unit)

  /** What a letter after a backslash means. */
  function EscapeMeaning(letter: Byte): Option<Byte> {
    if letter == '"' as int then Some(0x22)
    else if letter == '\\' as int then Some(0x5c)
    else if letter == '/' as int then Some(0x2f)
    else if letter == 'b' as int then Some(0x08)
    else if letter == 'f' as int then Some(0x0c)
    else if letter == 'n' as int then Some(0x0a)
    else if letter == 'r' as int then Some(0x0d)
    else if letter == 't' as int then Some(0x09)
    else None
  }

  predicate IsHigh(u: Unit) {
    UnitHolds(u) && 0xd800 <= UnitValue(u) <= 0xdbff
  }

  predicate IsLow(u: Unit) {
    UnitHolds(u) && 0xdc00 <= UnitValue(u) <= 0xdfff
  }

  predicate CharHolds(c: Char) {
    match c
    case Plain(codepoint) => codepoint >= 0x20 && codepoint != '"' as int && codepoint != '\\' as int
    case Short(letter) => EscapeMeaning(letter).Some?
    case Escape(unit) => UnitHolds(unit) && !IsHigh(unit) && !IsLow(unit)
    case Pair(high, low) => IsHigh(high) && IsLow(low)
  }

  /** A backslash, a small u and four hex digits. */
  function UnitEscape(u: Unit): (text: Bytes)
    ensures |text| == 6
  {
    ['\\' as int, 'u' as int] + UnitSpelled(u)
  }

  function CharSpelled(c: Char): Bytes {
    match c
    case Plain(codepoint) => Utf8.Encode(codepoint)
    case Short(letter) => ['\\' as int, letter]
    case Escape(unit) => UnitEscape(unit)
    case Pair(high, low) => UnitEscape(high) + UnitEscape(low)
  }

  function CharMeaning(c: Char): Bytes
    requires CharHolds(c)
  {
    match c
    case Plain(codepoint) => Utf8.Encode(codepoint)
    case Short(letter) => [EscapeMeaning(letter).value]
    case Escape(unit) => Utf8.Encode(UnitValue(unit))
    case Pair(high, low) => Utf8.Encode(0x10000 + (UnitValue(high) - 0xd800) * 0x400 + (UnitValue(low) - 0xdc00))
  }

  predicate CharsHold(chars: seq<Char>) {
    forall c | c in chars :: CharHolds(c)
  }

  function CharsSpelled(chars: seq<Char>): Bytes {
    if chars == [] then [] else CharSpelled(chars[0]) + CharsSpelled(chars[1..])
  }

  function CharsMeaning(chars: seq<Char>): Bytes
    requires CharsHold(chars)
  {
    if chars == [] then [] else CharMeaning(chars[0]) + CharsMeaning(chars[1..])
  }

  // ----- values

  /** A value as a text spells it. Blanks stand around the entries of an array and an object, or alone in an empty one. */
  datatype Tree =
    | NullTree
    | BoolTree(flag: bool)
    | NumberTree(text: Bytes)
    | StringTree(chars: seq<Char>)
    | ArrayTree(blanks: Bytes, items: seq<Item>)
    | ObjectTree(blanks: Bytes, entries: seq<Entry>)

  datatype Item = Item(before: Bytes, tree: Tree, after: Bytes)

  datatype Entry = Entry(before: Bytes, key: seq<Char>, beforeColon: Bytes, afterColon: Bytes, tree: Tree, after: Bytes)

  /** Blanks, tabs, line feeds and carriage returns. */
  predicate IsBlank(blanks: Bytes) {
    forall k | 0 <= k < |blanks| :: blanks[k] == 0x20 || blanks[k] == 0x09 || blanks[k] == 0x0a || blanks[k] == 0x0d
  }

  ghost predicate TreeHolds(t: Tree) {
    match t
    case NullTree => true
    case BoolTree(_) => true
    case NumberTree(text) => JsonNumber.IsNumber(text)
    case StringTree(chars) => CharsHold(chars)
    case ArrayTree(blanks, items) => IsBlank(blanks) && forall i | 0 <= i < |items| :: ItemHolds(items[i])
    case ObjectTree(blanks, entries) =>
      IsBlank(blanks) && (forall i | 0 <= i < |entries| :: EntryHolds(entries[i])) && KeysDiffer(entries)
  }

  ghost predicate ItemHolds(item: Item) {
    IsBlank(item.before) && TreeHolds(item.tree) && IsBlank(item.after)
  }

  ghost predicate EntryHolds(e: Entry) {
    && IsBlank(e.before) && CharsHold(e.key) && IsBlank(e.beforeColon) && IsBlank(e.afterColon)
    && TreeHolds(e.tree) && IsBlank(e.after)
  }

  /** No two entries mean the same key. */
  ghost predicate KeysDiffer(entries: seq<Entry>)
    requires forall i | 0 <= i < |entries| :: CharsHold(entries[i].key)
  {
    forall i, j | 0 <= i < j < |entries| :: CharsMeaning(entries[i].key) != CharsMeaning(entries[j].key)
  }

  function StringSpelled(chars: seq<Char>): Bytes {
    ['"' as int] + CharsSpelled(chars) + ['"' as int]
  }

  function Spelled(t: Tree): Bytes {
    match t
    case NullTree => ['n' as int, 'u' as int, 'l' as int, 'l' as int]
    case BoolTree(flag) =>
      if flag then ['t' as int, 'r' as int, 'u' as int, 'e' as int]
      else ['f' as int, 'a' as int, 'l' as int, 's' as int, 'e' as int]
    case NumberTree(text) => text
    case StringTree(chars) => StringSpelled(chars)
    case ArrayTree(blanks, items) =>
      ['[' as int] + (if items == [] then blanks else ItemsSpelled(items)) + [']' as int]
    case ObjectTree(blanks, entries) =>
      ['{' as int] + (if entries == [] then blanks else EntriesSpelled(entries)) + ['}' as int]
  }

  function ItemSpelled(item: Item): Bytes {
    item.before + Spelled(item.tree) + item.after
  }

  function ItemsSpelled(items: seq<Item>): Bytes
    requires items != []
  {
    if |items| == 1 then ItemSpelled(items[0]) else ItemSpelled(items[0]) + [',' as int] + ItemsSpelled(items[1..])
  }

  function EntrySpelled(e: Entry): Bytes
    decreases e, 1
  {
    e.before + MemberSpelled(e) + e.after
  }

  /** The entry without the blanks around it. */
  function MemberSpelled(e: Entry): Bytes
    decreases e, 0
  {
    StringSpelled(e.key) + e.beforeColon + [':' as int] + e.afterColon + Spelled(e.tree)
  }

  function EntriesSpelled(entries: seq<Entry>): Bytes
    requires entries != []
    decreases entries, 2
  {
    if |entries| == 1 then EntrySpelled(entries[0])
    else EntrySpelled(entries[0]) + [',' as int] + EntriesSpelled(entries[1..])
  }

  ghost function Meaning(t: Tree): Value
    requires TreeHolds(t)
  {
    match t
    case NullTree => Null
    case BoolTree(flag) => Bool(flag)
    case NumberTree(text) => Number(text)
    case StringTree(chars) => String(CharsMeaning(chars))
    case ArrayTree(_, items) => Array(ItemsMeaning(items))
    case ObjectTree(_, entries) => Object(Gathered([], EntriesMeaning(entries)))
  }

  ghost function ItemsMeaning(items: seq<Item>): (values: seq<Value>)
    requires forall i | 0 <= i < |items| :: ItemHolds(items[i])
    ensures |values| == |items|
  {
    if items == [] then []
    else
      assert ItemHolds(items[0]);
      [Meaning(items[0].tree)] + ItemsMeaning(items[1..])
  }

  ghost function EntryMeaning(e: Entry): Member
    requires EntryHolds(e)
  {
    Member(CharsMeaning(e.key), Meaning(e.tree))
  }

  ghost function EntriesMeaning(entries: seq<Entry>): (members: seq<Member>)
    requires forall i | 0 <= i < |entries| :: EntryHolds(entries[i])
    ensures |members| == |entries|
  {
    if entries == [] then [] else [EntryMeaning(entries[0])] + EntriesMeaning(entries[1..])
  }

  /** The members put into a map one after the other. */
  function Gathered(members: seq<Member>, more: seq<Member>): seq<Member>
    decreases |more|
  {
    if more == [] then members else Gathered(Emplaced(members, more[0]), more[1..])
  }

  /** The text is blanks, what the tree spells, and blanks. */
  ghost predicate Derives(s: Bytes, before: Bytes, t: Tree, after: Bytes) {
    IsBlank(before) && TreeHolds(t) && IsBlank(after) && s == before + Spelled(t) + after
  }

  /** A text of the grammar that means the value. */
  ghost predicate IsTextOf(s: Bytes, v: Value) {
    exists before, t, after :: Derives(s, before, t, after) && Meaning(t) == v
  }
}
