// JSON values as machine::JsonValue holds them, and what the parser's limits allow.
module JsonValue {
  import opened Bytes
  import opened JsonNumber
  import Utf8

  /** A number keeps its exact spelling; an object is a `std::map`, so its members are in key order. */
  datatype Value =
    | Null
    | Bool(flag: bool)
    | Number(text: Bytes)
    | String(bytes: Bytes)
    | Array(items: seq<Value>)
    | Object(members: seq<Member>)

  datatype Member = Member(key: Bytes, value: Value)

  datatype ParseOptions = ParseOptions(maxDepth: nat, maxStringBytes: nat, maxContainerEntries: nat)

  ghost predicate Sorted(members: seq<Member>) {
    forall i, j | 0 <= i < j < |members| :: Less(members[i].key, members[j].key)
  }

  /** Every string is UTF-8, so the writer does not throw. */
  ghost predicate Writable(v: Value) {
    match v
    case Null => true
    case Bool(_) => true
    case Number(_) => true
    case String(bytes) => Utf8.Valid(bytes)
    case Array(items) => forall i | 0 <= i < |items| :: Writable(items[i])
    case Object(members) =>
      forall i | 0 <= i < |members| :: Utf8.Valid(members[i].key) && Writable(members[i].value)
  }

  /** What a JsonValue keeps by construction: number grammar and key order. */
  ghost predicate WellFormed(v: Value) {
    match v
    case Null => true
    case Bool(_) => true
    case Number(text) => ValidNumber(text)
    case String(_) => true
    case Array(items) => forall i | 0 <= i < |items| :: WellFormed(items[i])
    case Object(members) => Sorted(members) && forall i | 0 <= i < |members| :: WellFormed(members[i].value)
  }

  /** The value keeps to the limits when it stands at nesting depth `depth`; leaves count. */
  ghost predicate Fits(v: Value, depth: nat, o: ParseOptions) {
    depth <= o.maxDepth &&
    match v
    case Null => true
    case Bool(_) => true
    case Number(_) => true
    case String(bytes) => |bytes| <= o.maxStringBytes
    case Array(items) =>
      |items| <= o.maxContainerEntries && forall i | 0 <= i < |items| :: Fits(items[i], depth + 1, o)
    case Object(members) =>
      && |members| <= o.maxContainerEntries
      && forall i | 0 <= i < |members| ::
           |members[i].key| <= o.maxStringBytes && Fits(members[i].value, depth + 1, o)
  }

  ghost predicate AtLeast(p: ParseOptions, o: ParseOptions) {
    o.maxDepth <= p.maxDepth && o.maxStringBytes <= p.maxStringBytes && o.maxContainerEntries <= p.maxContainerEntries
  }

  /** What keeps to some limits keeps to larger ones. */
  lemma {:induction false} FitsLarger(v: Value, depth: nat, o: ParseOptions, p: ParseOptions)
    requires Fits(v, depth, o) && AtLeast(p, o)
    ensures Fits(v, depth, p)
    decreases v
  {
    match v
    case Array(items) =>
      forall i | 0 <= i < |items| ensures Fits(items[i], depth + 1, p) { FitsLarger(items[i], depth + 1, o, p); }
    case Object(members) =>
      forall i | 0 <= i < |members| ensures Fits(members[i].value, depth + 1, p) {
        FitsLarger(members[i].value, depth + 1, o, p);
      }
    case _ =>
  }

  function Max(a: nat, b: nat): nat {
    if a < b then b else a
  }

  function Larger(o: ParseOptions, p: ParseOptions): (q: ParseOptions)
    ensures AtLeast(q, o) && AtLeast(q, p)
  {
    ParseOptions(Max(o.maxDepth, p.maxDepth), Max(o.maxStringBytes, p.maxStringBytes),
                 Max(o.maxContainerEntries, p.maxContainerEntries))
  }

  /** Every value keeps to some limits. */
  lemma {:induction false} SomeLimitsFit(v: Value, depth: nat) returns (o: ParseOptions)
    ensures Fits(v, depth, o)
    decreases v, 0
  {
    o := ParseOptions(depth, 0, 0);
    match v
    case String(bytes) => o := ParseOptions(depth, |bytes|, 0);
    case Array(items) =>
      var inner := SomeLimitsFitItems(items, |items|, depth + 1);
      o := Larger(inner, ParseOptions(depth, 0, |items|));
      forall i | 0 <= i < |items| ensures Fits(items[i], depth + 1, o) { FitsLarger(items[i], depth + 1, inner, o); }
    case Object(members) =>
      var inner := SomeLimitsFitMembers(members, |members|, depth + 1);
      o := Larger(inner, ParseOptions(depth, 0, |members|));
      forall i | 0 <= i < |members| ensures Fits(members[i].value, depth + 1, o) {
        FitsLarger(members[i].value, depth + 1, inner, o);
      }
    case _ =>
  }

  lemma {:induction false} SomeLimitsFitItems(items: seq<Value>, n: nat, depth: nat) returns (o: ParseOptions)
    requires n <= |items|
    ensures forall i | 0 <= i < n :: Fits(items[i], depth, o)
    decreases items, n
  {
    o := ParseOptions(0, 0, 0);
    if n > 0 {
      var before := SomeLimitsFitItems(items, n - 1, depth);
      var last := SomeLimitsFit(items[n - 1], depth);
      o := Larger(before, last);
      FitsLarger(items[n - 1], depth, last, o);
      forall i | 0 <= i < n - 1 ensures Fits(items[i], depth, o) { FitsLarger(items[i], depth, before, o); }
    }
  }

  lemma {:induction false} SomeLimitsFitMembers(members: seq<Member>, n: nat, depth: nat) returns (o: ParseOptions)
    requires n <= |members|
    ensures forall i | 0 <= i < n :: |members[i].key| <= o.maxStringBytes && Fits(members[i].value, depth, o)
    decreases members, n
  {
    o := ParseOptions(0, 0, 0);
    if n > 0 {
      var before := SomeLimitsFitMembers(members, n - 1, depth);
      var last := SomeLimitsFit(members[n - 1].value, depth);
      o := Larger(Larger(before, last), ParseOptions(0, |members[n - 1].key|, 0));
      FitsLarger(members[n - 1].value, depth, last, o);
      forall i | 0 <= i < n - 1 ensures Fits(members[i].value, depth, o) {
        FitsLarger(members[i].value, depth, before, o);
      }
    }
  }

  // ----- `std::map::emplace` on key-ordered members

  predicate HasKey(members: seq<Member>, key: Bytes) {
    exists i | 0 <= i < |members| :: members[i].key == key
  }

  /** The members with one more, in its place. */
  function Emplaced(members: seq<Member>, m: Member): (r: seq<Member>)
    ensures |r| == |members| + 1
  {
    if members == [] || Less(m.key, members[0].key) then [m] + members
    else [members[0]] + Emplaced(members[1..], m)
  }

  lemma {:induction false} EmplacedAt(members: seq<Member>, m: Member) returns (at: nat)
    requires Sorted(members) && !HasKey(members, m.key)
    ensures at <= |members| && Emplaced(members, m) == members[..at] + [m] + members[at..]
    ensures forall i | 0 <= i < at :: Less(members[i].key, m.key)
    ensures forall i | at <= i < |members| :: Less(m.key, members[i].key)
  {
    if members == [] {
      at := 0;
    } else if Less(m.key, members[0].key) {
      at := 0;
      forall i | 0 < i < |members| ensures Less(m.key, members[i].key) {
        LessIsTransitive(m.key, members[0].key, members[i].key);
      }
    } else {
      LessIsTotal(m.key, members[0].key);
      assert members[0].key != m.key;
      var rest := members[1..];
      assert forall i | 0 <= i < |rest| :: rest[i] == members[i + 1];
      var inner := EmplacedAt(rest, m);
      at := inner + 1;
      assert Emplaced(members, m) == [members[0]] + (rest[..inner] + [m] + rest[inner..]);
      forall i | at <= i < |members| ensures Less(m.key, members[i].key) {
        assert members[i] == rest[i - 1];
      }
      forall i | 0 <= i < at ensures Less(members[i].key, m.key) {
        if i > 0 { assert members[i] == rest[i - 1]; }
      }
    }
  }

  lemma EmplacedKeepsOrder(members: seq<Member>, m: Member)
    requires Sorted(members) && !HasKey(members, m.key)
    ensures Sorted(Emplaced(members, m))
  {
    var at := EmplacedAt(members, m);
  }

  /** A member with the greatest key goes last. */
  lemma EmplacedLast(members: seq<Member>, m: Member)
    requires Sorted(members + [m])
    ensures !HasKey(members, m.key) && Emplaced(members, m) == members + [m]
  {
    var all := members + [m];
    forall i | 0 <= i < |members| ensures Less(members[i].key, m.key) && members[i].key != m.key {
      assert Less(all[i].key, all[|members|].key);
      LessIsIrreflexive(m.key);
    }
    assert forall i, j | 0 <= i < j < |members| :: all[i] == members[i] && all[j] == members[j];
    var at := EmplacedAt(members, m);
    if at < |members| {
      LessIsTransitive(m.key, members[at].key, m.key);
      LessIsIrreflexive(m.key);
    }
    assert members[..at] == members;
  }
}
