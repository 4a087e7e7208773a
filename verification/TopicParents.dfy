// The nesting of a topic, read off its chain of parents (toc.cpp, logical.cpp).
module TopicParents {
  import opened Bytes

  /** A topic and its parent: none when it was not read, empty when the topic is at the top. */
  datatype Topic = Topic(id: Bytes, parent: Option<Bytes>)

  function Upper(b: Byte): Byte {
    if 'a' as int <= b <= 'z' as int then b - 32 else b
  }

  /** `topic.id == normalize_toc_id(id)`. */
  predicate IsNormalized(topicId: Bytes, id: Bytes) {
    |topicId| == |id| && forall k | 0 <= k < |id| :: topicId[k] == Upper(id[k])
  }

  /** `ascii_equals_case_insensitive`. */
  predicate EqualsIgnoringCase(a: Bytes, b: Bytes) {
    |a| == |b| && forall k | 0 <= k < |a| :: Lower(a[k]) == Lower(b[k])
  }

  /** The first test never finds more than the second one does. */
  lemma NormalizedIsEqual(topicId: Bytes, id: Bytes)
    ensures IsNormalized(topicId, id) ==> EqualsIgnoringCase(topicId, id)
  {
  }

  function FindFrom(topics: seq<Topic>, id: Bytes, k: nat): (found: Option<nat>)
    requires k <= |topics|
    ensures found.Some? ==> found.value < |topics|
    decreases |topics| - k
  {
    if k == |topics| then None
    else if EqualsIgnoringCase(topics[k].id, id) then Some(k)
    else FindFrom(topics, id, k + 1)
  }

  /** `find_topic_data`: the first topic of that id, whatever its case. */
  method FindTopic(topics: seq<Topic>, id: Bytes) returns (found: Option<nat>)
    ensures found == FindFrom(topics, id, 0)
  {
    for k := 0 to |topics|
      invariant FindFrom(topics, id, 0) == FindFrom(topics, id, k)
    {
      NormalizedIsEqual(topics[k].id, id);
      if IsNormalized(topics[k].id, id) || EqualsIgnoringCase(topics[k].id, id) { return Some(k); }
    }
    return None;
  }

  /** The identifiers are spelled alike but for capital letters. */
  predicate SameLetters(a: Bytes, b: Bytes) {
    |a| == |b| && forall k | 0 <= k < |a| ::
      (if 'A' as int <= a[k] <= 'Z' as int then a[k] as int + 32 else a[k])
      == if 'A' as int <= b[k] <= 'Z' as int then b[k] as int + 32 else b[k]
  }

  /** Exactly the first topic from `k` on that has the identifier is found. */
  lemma {:induction false} FoundExactly(topics: seq<Topic>, id: Bytes, k: nat, i: nat)
    requires k <= |topics|
    ensures FindFrom(topics, id, k) == Some(i)
            <==> k <= i < |topics| && SameLetters(topics[i].id, id)
                 && forall j | k <= j < i :: !SameLetters(topics[j].id, id)
    decreases |topics| - k
  {
    if k < |topics| {
      FoundExactly(topics, id, k + 1, i);
      assert EqualsIgnoringCase(topics[k].id, id) <==> SameLetters(topics[k].id, id);
      hide EqualsIgnoringCase, SameLetters;
    }
  }

  // ----- the chain

  predicate IsRoot(topics: seq<Topic>, i: nat)
    requires i < |topics|
  {
    topics[i].parent == Some([])
  }

  /** The parent of a topic, where it has one that was read and is known. */
  function ParentOf(topics: seq<Topic>, i: nat): (parent: Option<nat>)
    requires i < |topics|
    ensures parent.Some? ==> parent.value < |topics|
  {
    if topics[i].parent.None? || topics[i].parent.value == [] then None
    else FindFrom(topics, topics[i].parent.value, 0)
  }

  /** A topic is at the top where its parent was read and is empty; its parent is the first topic that a parent read and
      not empty names. */
  lemma ParentExactly(topics: seq<Topic>, i: nat, p: nat)
    requires i < |topics|
    ensures IsRoot(topics, i) <==> topics[i].parent.Some? && topics[i].parent.value == []
    ensures ParentOf(topics, i) == Some(p)
            <==> && topics[i].parent.Some? && topics[i].parent.value != [] && p < |topics|
                 && SameLetters(topics[p].id, topics[i].parent.value)
                 && forall j | 0 <= j < p :: !SameLetters(topics[j].id, topics[i].parent.value)
  {
    if topics[i].parent.Some? { FoundExactly(topics, topics[i].parent.value, 0, p); }
    hide SameLetters;
  }

  /** The topic that `n` steps from parent to parent lead to. */
  function After(topics: seq<Topic>, start: Option<nat>, n: nat): (topic: Option<nat>)
    requires start.Some? ==> start.value < |topics|
    ensures topic.Some? ==> topic.value < |topics|
  {
    if n == 0 then start
    else
      var before := After(topics, start, n - 1);
      if before.None? then None else ParentOf(topics, before.value)
  }

  /** The chain of parents reaches the top in exactly `n` steps. */
  ghost predicate Reaches(topics: seq<Topic>, start: Option<nat>, n: nat)
    requires start.Some? ==> start.value < |topics|
  {
    After(topics, start, n).Some? && IsRoot(topics, After(topics, start, n).value)
  }

  /** Past a step that leads nowhere there is nothing. */
  lemma {:induction false} NothingAfter(topics: seq<Topic>, start: Option<nat>, m: nat, n: nat)
    requires start.Some? ==> start.value < |topics|
    requires m <= n && After(topics, start, m).None?
    ensures After(topics, start, n).None?
  {
    if m < n { NothingAfter(topics, start, m, n - 1); }
  }

  lemma RootIsLast(topics: seq<Topic>, start: Option<nat>, m: nat, n: nat)
    requires start.Some? ==> start.value < |topics|
    requires Reaches(topics, start, m) && m < n
    ensures After(topics, start, n).None?
  {
    NothingAfter(topics, start, m + 1, n);
  }

  /** A chain that visits a topic twice goes on in the same way from both visits. */
  lemma {:induction false} Repeats(topics: seq<Topic>, start: Option<nat>, i: nat, j: nat, k: nat)
    requires start.Some? ==> start.value < |topics|
    requires After(topics, start, i) == After(topics, start, j)
    ensures After(topics, start, i + k) == After(topics, start, j + k)
  {
    if k > 0 { Repeats(topics, start, i, j, k - 1); }
  }

  /** On the way to the top no topic is visited twice. */
  lemma NoRepeat(topics: seq<Topic>, start: Option<nat>, n: nat, i: nat, j: nat)
    requires start.Some? ==> start.value < |topics|
    requires Reaches(topics, start, n) && i < j <= n
    ensures After(topics, start, i) != After(topics, start, j)
  {
    if After(topics, start, i) == After(topics, start, j) {
      Repeats(topics, start, i, j, n - j);
      RootIsLast(topics, start, i + (n - j), n);
    }
  }

  /** The topics of the first `n` steps. */
  function Visited(topics: seq<Topic>, start: Option<nat>, n: nat): set<nat>
    requires start.Some? ==> start.value < |topics|
  {
    set k: nat | k < n && After(topics, start, k).Some? :: After(topics, start, k).value
  }

  lemma {:induction false} VisitsAreDistinct(topics: seq<Topic>, start: Option<nat>, n: nat)
    requires start.Some? ==> start.value < |topics|
    requires forall k | 0 <= k < n :: After(topics, start, k).Some?
    requires forall i, j | 0 <= i < j < n :: After(topics, start, i) != After(topics, start, j)
    ensures |Visited(topics, start, n)| == n
  {
    hide ParentOf;
    if n == 0 {
      assert Visited(topics, start, 0) == {};
    } else {
      VisitsAreDistinct(topics, start, n - 1);
      var last := After(topics, start, n - 1).value;
      assert Visited(topics, start, n) == Visited(topics, start, n - 1) + {last};
      assert last !in Visited(topics, start, n - 1);
    }
  }

  /** A chain that reaches the top has fewer steps than there are topics: the cut-off never refuses one. */
  lemma ChainIsShort(topics: seq<Topic>, start: Option<nat>, n: nat)
    requires start.Some? ==> start.value < |topics|
    requires Reaches(topics, start, n)
    ensures n < |topics|
  {
    forall k | 0 <= k <= n ensures After(topics, start, k).Some? {
      if After(topics, start, k).None? { NothingAfter(topics, start, k, n); }
    }
    forall i, j | 0 <= i < j <= n ensures After(topics, start, i) != After(topics, start, j) {
      NoRepeat(topics, start, n, i, j);
    }
    VisitsAreDistinct(topics, start, n + 1);
    Bounded(Visited(topics, start, n + 1), |topics|);
  }

  /** `parent_chain_length`: k exactly when the chain of parents reaches the top in k steps, nothing exactly when it
      never does. */
  method ParentChainLength(topics: seq<Topic>, id: Bytes) returns (length: Option<nat>)
    ensures var start := FindFrom(topics, id, 0);
            forall k: nat :: length == Some(k) <==> Reaches(topics, start, k)
  {
    ghost var start := FindFrom(topics, id, 0);
    var steps := 0;
    var topic := FindTopic(topics, id);
    while topic.Some?
      invariant topic == After(topics, start, steps) && steps <= |topics|
      invariant forall k: nat | k < steps :: !Reaches(topics, start, k)
      decreases |topics| - steps, topic.Some?
    {
      var parent := topics[topic.value].parent;
      if parent.None? {
        Stuck(topics, start, steps);
        return None;
      }
      if parent.value == [] {
        OnlyThere(topics, start, steps);
        return Some(steps);
      }
      steps := steps + 1;
      if steps > |topics| {
        TooLong(topics, start, steps);
        return None;
      }
      topic := FindTopic(topics, parent.value);
    }
    Stuck(topics, start, steps);
    return None;
  }

  lemma OnlyThere(topics: seq<Topic>, start: Option<nat>, n: nat)
    requires start.Some? ==> start.value < |topics|
    requires Reaches(topics, start, n)
    ensures forall k: nat :: Reaches(topics, start, k) <==> k == n
  {
    forall k: nat ensures Reaches(topics, start, k) <==> k == n {
      if k < n && Reaches(topics, start, k) { RootIsLast(topics, start, k, n); }
      if n < k { RootIsLast(topics, start, n, k); }
    }
  }

  /** A chain that leads nowhere without having reached the top never reaches it. */
  lemma Stuck(topics: seq<Topic>, start: Option<nat>, n: nat)
    requires start.Some? ==> start.value < |topics|
    requires forall k: nat | k < n :: !Reaches(topics, start, k)
    requires After(topics, start, n).None? || topics[After(topics, start, n).value].parent.None?
    ensures forall k: nat :: !Reaches(topics, start, k)
  {
    forall k: nat ensures !Reaches(topics, start, k) {
      if After(topics, start, n).None? {
        if n <= k { NothingAfter(topics, start, n, k); }
      } else if n < k {
        NothingAfter(topics, start, n + 1, k);
      }
    }
  }

  lemma TooLong(topics: seq<Topic>, start: Option<nat>, n: nat)
    requires start.Some? ==> start.value < |topics|
    requires n > |topics| && forall k: nat | k < n :: !Reaches(topics, start, k)
    ensures forall k: nat :: !Reaches(topics, start, k)
  {
    forall k: nat ensures !Reaches(topics, start, k) {
      if Reaches(topics, start, k) { ChainIsShort(topics, start, k); }
    }
  }

  /** The chain comes to a topic whose parent was not read, or to a parent that is no topic of the book. */
  ghost predicate Breaks(topics: seq<Topic>, start: Option<nat>, n: nat)
    requires start.Some? ==> start.value < |topics|
  {
    After(topics, start, n).None? || topics[After(topics, start, n).value].parent.None?
  }

  /** The chain comes back to a topic that it has been at. */
  ghost predicate Cycles(topics: seq<Topic>, start: Option<nat>, i: nat, j: nat)
    requires start.Some? ==> start.value < |topics|
  {
    i < j && After(topics, start, i).Some? && After(topics, start, i) == After(topics, start, j)
  }

  /** A chain never reaches the top exactly when it breaks before it does or runs in a cycle. */
  lemma NoLengthExactly(topics: seq<Topic>, start: Option<nat>)
    requires start.Some? ==> start.value < |topics|
    ensures (forall k: nat :: !Reaches(topics, start, k))
            <==> || (exists n: nat :: Breaks(topics, start, n) && forall k: nat | k <= n :: !Reaches(topics, start, k))
                 || (exists i: nat, j: nat :: Cycles(topics, start, i, j))
  {
    if n: nat :| Breaks(topics, start, n) && forall k: nat | k <= n :: !Reaches(topics, start, k) {
      Stuck(topics, start, n);
    } else if i: nat, j: nat :| Cycles(topics, start, i, j) {
      forall k: nat ensures !Reaches(topics, start, k) {
        if Reaches(topics, start, k) { CycleNeverEnds(topics, start, i, j, k); }
      }
    } else if forall k: nat :: !Reaches(topics, start, k) {
      var n := |topics| + 1;
      forall k | 0 <= k < n ensures After(topics, start, k).Some? {
        assert !Breaks(topics, start, k);
      }
      forall i, j | 0 <= i < j < n ensures After(topics, start, i) != After(topics, start, j) {
        assert !Cycles(topics, start, i, j);
      }
      VisitsAreDistinct(topics, start, n);
      Bounded(Visited(topics, start, n), |topics|);
    }
  }

  lemma CycleNeverEnds(topics: seq<Topic>, start: Option<nat>, i: nat, j: nat, k: nat)
    requires start.Some? ==> start.value < |topics|
    requires Cycles(topics, start, i, j)
    ensures !Reaches(topics, start, k)
  {
    if Reaches(topics, start, k) {
      if k < j { RootIsLast(topics, start, k, j); } else { NoRepeat(topics, start, k, i, j); }
    }
  }
}
