// Reading a table of numbers that is spread over pages (logical.cpp).
module PagedIndex {
  import opened Bytes

  /** The file, and the page of its directory. */
  datatype File = File(bytes: Bytes, directoryPage: nat)

  const PAGE_SIZE: nat := 4096
  const PAGES: nat := 0x1_0000_0000

  function Be16(bytes: Bytes, at: nat): (value: nat)
    requires at + 2 <= |bytes|
    ensures value < 0x1_0000
  {
    (bytes[at] as nat) * 0x100 + bytes[at + 1]
  }

  /** Where the continuation table of logical page `page` stands; the page number wraps like a 32-bit one. */
  function TableOfPage(file: File, page: nat): nat
    requires page > 0
  {
    (file.directoryPage + page - 1) % PAGES * PAGE_SIZE
  }

  predicate HeadFits(file: File, table: nat) {
    table + 4 <= |file.bytes|
  }

  function Count(file: File, table: nat): nat
    requires HeadFits(file, table)
  {
    Be16(file.bytes, table)
  }

  function NextPage(file: File, table: nat): nat
    requires HeadFits(file, table)
  {
    Be16(file.bytes, table + 2)
  }

  predicate Fits(file: File, table: nat) {
    HeadFits(file, table) && table + 4 + Count(file, table) * 2 <= |file.bytes|
  }

  function Values(file: File, table: nat): (values: seq<nat>)
    requires Fits(file, table)
    ensures |values| == Count(file, table)
  {
    seq(Count(file, table), i requires 0 <= i < Count(file, table) => Be16(file.bytes, table + 4 + i * 2))
  }

  /** A table is a count and a page in two bytes each, the high byte first, then its numbers. The page of a continuation
      table counts from the directory's, 4096 bytes a page. */
  lemma TableIs(file: File, table: nat, page: nat)
    ensures page > 0 ==> TableOfPage(file, page) == (file.directoryPage + page - 1) % 0x1_0000_0000 * 4096
    ensures HeadFits(file, table) <==> table + 4 <= |file.bytes|
    ensures HeadFits(file, table) ==>
              && Count(file, table) == 0x100 * file.bytes[table] as int + file.bytes[table + 1]
              && NextPage(file, table) == 0x100 * file.bytes[table + 2] as int + file.bytes[table + 3]
              && TerminalOf(file, table) == table + 4 + 2 * Count(file, table)
    ensures Fits(file, table) <==> HeadFits(file, table) && table + 4 + 2 * Count(file, table) <= |file.bytes|
    ensures Fits(file, table) ==>
              forall i | 0 <= i < Count(file, table) ::
                Values(file, table)[i]
                == 0x100 * file.bytes[table + 4 + 2 * i] as int + file.bytes[table + 5 + 2 * i]
  {
  }

  /** Tables along the continuation chain from `root`, none twice. */
  ghost predicate IsChain(file: File, root: nat, path: seq<nat>) {
    && path != [] && path[0] == root
    && (forall i | 0 <= i < |path| :: Fits(file, path[i]))
    && (forall i, j | 0 <= i < j < |path| :: path[i] != path[j])
    && (forall i | 0 < i < |path| :: Follows(file, path[i - 1], path[i]))
  }

  ghost predicate Follows(file: File, table: nat, next: nat) {
    HeadFits(file, table) && NextPage(file, table) != 0 && next == TableOfPage(file, NextPage(file, table))
  }

  function AllValues(file: File, path: seq<nat>): seq<nat>
    requires forall i | 0 <= i < |path| :: Fits(file, path[i])
  {
    if path == [] then [] else AllValues(file, path[..|path| - 1]) + Values(file, path[|path| - 1])
  }

  function TerminalOf(file: File, table: nat): nat
    requires HeadFits(file, table)
  {
    table + 4 + Count(file, table) * 2
  }

  /** The chain holds exactly the expected number of values, and no shorter chain does. */
  ghost predicate IsComplete(file: File, root: nat, expected: nat, terminal: bool, path: seq<nat>) {
    && IsChain(file, root, path) && |AllValues(file, path)| == expected
    && (forall k | 0 < k < |path| :: |AllValues(file, path[..k])| < expected)
    && (terminal ==> TerminalOf(file, path[|path| - 1]) + 2 <= |file.bytes|)
  }

  /** The numbers of a complete chain. */
  ghost function Numbers(file: File, terminal: bool, path: seq<nat>): seq<nat>
    requires path != [] && forall i | 0 <= i < |path| :: Fits(file, path[i])
    requires terminal ==> HeadFits(file, path[|path| - 1]) && TerminalOf(file, path[|path| - 1]) + 2 <= |file.bytes|
  {
    AllValues(file, path) + if terminal then [Be16(file.bytes, TerminalOf(file, path[|path| - 1]))] else []
  }

  /** A chain that has been walked and does not hold enough values yet. */
  ghost predicate IsWalked(file: File, root: nat, expected: nat, path: seq<nat>) {
    path != [] ==> && IsChain(file, root, path)
                   && forall k | 0 < k <= |path| :: |AllValues(file, path[..k])| < expected
  }

  /** Where the walk goes next. */
  ghost predicate IsNext(file: File, root: nat, path: seq<nat>, table: nat) {
    if path == [] then table == root else Follows(file, path[|path| - 1], table)
  }

  /** There is only one way along a chain: a complete one goes through every table that was walked, and on. */
  lemma {:induction false} OneWay(file: File, root: nat, expected: nat, terminal: bool, walked: seq<nat>, path: seq<nat>, k: nat)
    requires IsWalked(file, root, expected, walked) && IsComplete(file, root, expected, terminal, path) && k <= |walked|
    ensures k < |path| && path[..k] == walked[..k]
  {
    hide AllValues, Fits;
    if k > 0 {
      OneWay(file, root, expected, terminal, walked, path, k - 1);
      assert path[k - 1] == walked[k - 1] by {
        if k > 1 { assert path[k - 2] == path[..k - 1][k - 2] == walked[..k - 1][k - 2] == walked[k - 2]; }
      }
      assert path[..k] == path[..k - 1] + [path[k - 1]] && walked[..k] == walked[..k - 1] + [walked[k - 1]];
      assert path[..|path|] == path && walked[..|walked|] == walked;
    }
  }

  lemma NextIsOnThePath(file: File, root: nat, expected: nat, terminal: bool, walked: seq<nat>, table: nat, path: seq<nat>)
    requires IsWalked(file, root, expected, walked) && IsComplete(file, root, expected, terminal, path)
    requires IsNext(file, root, walked, table)
    ensures |walked| < |path| && path[..|walked| + 1] == walked + [table]
  {
    OneWay(file, root, expected, terminal, walked, path, |walked|);
    assert walked[..|walked|] == walked;
    if walked != [] { assert path[|walked| - 1] == path[..|walked|][|walked| - 1]; }
    assert path[..|walked| + 1] == path[..|walked|] + [path[|walked|]];
  }

  lemma {:induction false} ValuesGrow(file: File, path: seq<nat>, k: nat)
    requires k <= |path| && forall i | 0 <= i < |path| :: Fits(file, path[i])
    ensures |AllValues(file, path[..k])| <= |AllValues(file, path)|
    decreases |path|
  {
    if k < |path| {
      ValuesGrow(file, path[..|path| - 1], k);
      assert path[..|path| - 1][..k] == path[..k];
    } else {
      assert path[..k] == path;
    }
  }

  /** Tables that were walked and one more table that fits: the walk can go on, it is complete, or it is too long. */
  lemma WalkExtends(file: File, root: nat, walked: seq<nat>, table: nat)
    requires walked == [] || IsChain(file, root, walked)
    requires IsNext(file, root, walked, table) && Fits(file, table) && table !in walked
    ensures IsChain(file, root, walked + [table])
    ensures AllValues(file, walked + [table]) == AllValues(file, walked) + Values(file, table)
  {
    assert (walked + [table])[..|walked|] == walked;
  }

  lemma StillWalked(file: File, root: nat, expected: nat, walked: seq<nat>, table: nat)
    requires IsWalked(file, root, expected, walked) && IsChain(file, root, walked + [table])
    ensures forall k | 0 < k <= |walked| :: |AllValues(file, (walked + [table])[..k])| < expected
    ensures |AllValues(file, walked + [table])| < expected ==> IsWalked(file, root, expected, walked + [table])
  {
    var longer := walked + [table];
    forall k | 0 < k <= |walked| ensures |AllValues(file, longer[..k])| < expected {
      assert longer[..k] == walked[..k];
    }
    assert longer[..|longer|] == longer;
  }

  /** A complete chain goes on from what was walked, by a new table that fits and does not hold too much. */
  lemma NextIsGood(file: File, root: nat, expected: nat, terminal: bool, walked: seq<nat>, table: nat, path: seq<nat>)
    requires IsWalked(file, root, expected, walked) && IsComplete(file, root, expected, terminal, path)
    requires IsNext(file, root, walked, table)
    ensures Fits(file, table) && table !in walked
    ensures forall i | 0 <= i < |walked| :: Fits(file, walked[i])
    ensures |AllValues(file, walked)| + Count(file, table) <= expected
  {
    var n := |walked|;
    NextIsOnThePath(file, root, expected, terminal, walked, table, path);
    assert path[..n + 1][n] == table;
    forall i | 0 <= i < n ensures Fits(file, walked[i]) && walked[i] != table {
      assert path[..n + 1][i] == walked[i];
    }
    assert (walked + [table])[..n] == walked;
    ValuesGrow(file, path, n + 1);
  }

  /** A table that was walked, does not fit or holds too much is on no complete chain. */
  lemma Refused(file: File, root: nat, expected: nat, terminal: bool, walked: seq<nat>, table: nat)
    requires IsWalked(file, root, expected, walked) && IsNext(file, root, walked, table)
    requires forall i | 0 <= i < |walked| :: Fits(file, walked[i])
    requires table in walked || !Fits(file, table) || |AllValues(file, walked)| + Count(file, table) > expected
    ensures forall path :: !IsComplete(file, root, expected, terminal, path)
  {
    hide IsComplete, IsWalked, IsNext, AllValues, Fits;
    forall path ensures !IsComplete(file, root, expected, terminal, path) {
      if IsComplete(file, root, expected, terminal, path) {
        NextIsGood(file, root, expected, terminal, walked, table, path);
      }
    }
  }

  lemma ShorterIsShort(file: File, root: nat, expected: nat, terminal: bool, path: seq<nat>, k: nat)
    requires IsComplete(file, root, expected, terminal, path) && 0 < k <= |path|
    ensures |AllValues(file, path[..k])| == expected ==> path[..k] == path
  {
    assert path[..|path|] == path;
  }

  /** The walk has the expected number of values: the chain so far is the only one that can be complete. */
  lemma LastTable(file: File, root: nat, expected: nat, terminal: bool, walked: seq<nat>, table: nat)
    requires IsWalked(file, root, expected, walked) && IsNext(file, root, walked, table)
    requires IsChain(file, root, walked + [table]) && |AllValues(file, walked + [table])| == expected
    ensures forall path | IsComplete(file, root, expected, terminal, path) :: path == walked + [table]
    ensures (terminal ==> TerminalOf(file, table) + 2 <= |file.bytes|)
            ==> IsComplete(file, root, expected, terminal, walked + [table])
  {
    hide AllValues;
    var longer := walked + [table];
    StillWalked(file, root, expected, walked, table);
    forall path | IsComplete(file, root, expected, terminal, path) ensures path == longer {
      NextIsOnThePath(file, root, expected, terminal, walked, table, path);
      ShorterIsShort(file, root, expected, terminal, path, |longer|);
    }
  }

  /** A complete chain goes on from a table that was walked before. */
  lemma GoesOn(file: File, root: nat, expected: nat, terminal: bool, walked: seq<nat>, path: seq<nat>)
    requires walked != [] && IsWalked(file, root, expected, walked) && IsComplete(file, root, expected, terminal, path)
    ensures HeadFits(file, walked[|walked| - 1]) && NextPage(file, walked[|walked| - 1]) != 0
  {
    var n := |walked|;
    OneWay(file, root, expected, terminal, walked, path, n);
    assert path[..n][n - 1] == walked[..n][n - 1];
    assert Follows(file, path[n - 1], path[n]);
  }

  /** A chain that ends before it holds enough values. */
  lemma DeadEnd(file: File, root: nat, expected: nat, terminal: bool, walked: seq<nat>)
    requires walked != [] && IsWalked(file, root, expected, walked) && HeadFits(file, walked[|walked| - 1])
    requires NextPage(file, walked[|walked| - 1]) == 0
    ensures forall path :: !IsComplete(file, root, expected, terminal, path)
  {
    hide IsComplete, IsWalked, NextPage;
    forall path ensures !IsComplete(file, root, expected, terminal, path) {
      if IsComplete(file, root, expected, terminal, path) {
        GoesOn(file, root, expected, terminal, walked, path);
      }
    }
  }

  method AppendTable(file: File, table: nat, before: seq<nat>) returns (values: seq<nat>)
    requires Fits(file, table)
    ensures values == before + Values(file, table)
  {
    values := before;
    var index := 0;
    while index < Count(file, table)
      invariant index <= Count(file, table) && values == before + Values(file, table)[..index]
    {
      values := values + [Be16(file.bytes, table + 4 + index * 2)];
      index := index + 1;
    }
    assert Values(file, table)[..index] == Values(file, table);
  }

  lemma NothingWalked(file: File, root: nat, expected: nat)
    ensures IsWalked(file, root, expected, []) && IsNext(file, root, [], root) && AllValues(file, []) == []
  {
  }

  lemma Onward(file: File, root: nat, walked: seq<nat>, table: nat)
    requires IsChain(file, root, walked + [table]) && Fits(file, table) && NextPage(file, table) != 0
    ensures IsNext(file, root, walked + [table], TableOfPage(file, NextPage(file, table)))
    ensures forall i | 0 <= i < |walked + [table]| :: Fits(file, (walked + [table])[i])
  {
  }

  /** `parse_paged_u16_index`. It ends on every file: each turn visits a table that was not visited before. */
  method ParsePagedIndex(file: File, root: nat, expected: nat, terminal: bool) returns (values: seq<nat>)
    ensures forall path | IsComplete(file, root, expected, terminal, path) :: values == Numbers(file, terminal, path)
    ensures (forall path :: !IsComplete(file, root, expected, terminal, path)) ==> values == []
  {
    hide IsComplete, IsWalked, IsNext, IsChain, AllValues, Values;
    values := [];
    var visited: set<nat> := {};
    var table: nat := root;
    ghost var walked: seq<nat> := [];
    NothingWalked(file, root, expected);
    while true
      invariant IsWalked(file, root, expected, walked) && IsNext(file, root, walked, table)
      invariant walked == [] || IsChain(file, root, walked)
      invariant forall i | 0 <= i < |walked| :: Fits(file, walked[i])
      invariant values == AllValues(file, walked)
      invariant forall t :: t in visited <==> t in walked
      invariant forall t | t in visited :: t < |file.bytes|
      decreases |file.bytes| - |visited|
    {
      if table + 4 > |file.bytes| || table in visited {
        Refused(file, root, expected, terminal, walked, table);
        return [];
      }
      visited := visited + {table};
      Bounded(visited, |file.bytes|);
      var count, next := Be16(file.bytes, table), Be16(file.bytes, table + 2);
      if |values| + count > expected || table + 4 + count * 2 > |file.bytes| {
        Refused(file, root, expected, terminal, walked, table);
        return [];
      }
      WalkExtends(file, root, walked, table);
      StillWalked(file, root, expected, walked, table);
      values := AppendTable(file, table, values);
      if |values| == expected {
        LastTable(file, root, expected, terminal, walked, table);
        if terminal {
          var at := table + 4 + count * 2;
          if at + 2 > |file.bytes| {
            TerminalMissing(file, root, expected, walked + [table]);
            return [];
          }
          values := values + [Be16(file.bytes, at)];
        }
        return values;
      }
      if next == 0 {
        DeadEnd(file, root, expected, terminal, walked + [table]);
        return [];
      }
      Onward(file, root, walked, table);
      table, walked := TableOfPage(file, next), walked + [table];
    }
  }

  lemma TerminalMissing(file: File, root: nat, expected: nat, only: seq<nat>)
    requires only != [] && HeadFits(file, only[|only| - 1]) && TerminalOf(file, only[|only| - 1]) + 2 > |file.bytes|
    ensures !IsComplete(file, root, expected, true, only)
  {
  }
}
