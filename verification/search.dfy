/**
 * Breadth-first search over the letter subsets of an input.
 *
 * The search starts from the canonical key of the input and repeatedly
 * takes one character out of a key. A first-in-first-out queue holds the
 * keys still to examine, and a visited set keeps any key from being queued
 * twice. Every key the search meets is the sorted input with some positions
 * deleted, so it is sorted and its letters fit inside the input.
 *
 * The all-words query drains the whole queue; the longest-word query stops at
 * the first dequeued key that the dictionary holds.
 */
module Search {
  import opened Letters
  import opened Dictionary

  /** `k` is a canonical key whose letters can all be taken from `input`. */
  ghost predicate Fits(k: string, input: string) {
    Sorted(k) && multiset(k) <= multiset(input)
  }

  /** The answer the all-words query should give: every word stored under a key that fits. */
  ghost function AllMatches(dict: Index, input: string): set<string> {
    set k, w | k in dict && w in dict[k] && Fits(k, input) :: w
  }

  /** `k` is a key of the index that fits `input`, and no fitting key is longer. */
  ghost predicate IsLongestKey(dict: Index, input: string, k: string) {
    && k in dict
    && Fits(k, input)
    && forall k' :: k' in dict && Fits(k', input) ==> |k'| <= |k|
  }

  /**
   * An answer the longest-word query may give: the words under one longest
   * fitting key, or nothing when no key fits.
   */
  ghost predicate IsLongestResult(dict: Index, input: string, result: set<string>) {
    || (exists k :: IsLongestKey(dict, input, k) && result == dict[k])
    || (result == {} && forall k :: k in dict ==> !Fits(k, input))
  }

  /** The words stored under those of `keys` that the index holds. */
  ghost function WordsAt(dict: Index, keys: set<string>): set<string> {
    set k, w | k in dict && w in dict[k] && k in keys :: w
  }

  /** All strings one deletion away from `x`. */
  function Children(x: string): set<string> {
    set i: nat | i < |x| :: Delete(x, i)
  }

  /** The strings held in a queue. */
  function Elems(q: seq<string>): set<string> {
    set x | x in q
  }

  /** No string is held twice. */
  predicate NoDup(q: seq<string>) {
    forall i, j :: 0 <= i < j < |q| ==> q[i] != q[j]
  }

  /**
   * The state of a search from `start`. `done` holds the keys already
   * dequeued; every visited key is either done or still queued, never both;
   * the queue holds no key twice; every visited key is sorted and fits inside
   * `start`; and every child of a done key has been visited.
   */
  ghost predicate SearchState(start: string, queue: seq<string>, visited: set<string>, done: set<string>) {
    && start in visited
    && (forall v :: v in visited ==> Sorted(v) && multiset(v) <= multiset(start))
    && visited == done + Elems(queue)
    && done !! Elems(queue)
    && NoDup(queue)
    && (forall u :: u in done ==> Children(u) <= visited)
  }

  /**
   * The deletions `Delete(x, 0)`, ..., `Delete(x, i - 1)` in that order, each
   * left out when it was visited before or already occurs earlier.
   */
  ghost function FreshChildren(x: string, visited: set<string>, i: nat): seq<string>
    requires i <= |x|
  {
    if i == 0 then []
    else
      var prev := FreshChildren(x, visited, i - 1);
      var child := Delete(x, i - 1);
      if child in visited || child in prev then prev else prev + [child]
  }

  /** Expanding "ab" from nothing visited queues "b" (position 0 deleted) before "a". */
  lemma FreshChildrenOrder()
    ensures FreshChildren("ab", {}, 2) == ["b", "a"]
  {
    assert Delete("ab", 0) == "b";
    assert Delete("ab", 1) == "a";
    assert FreshChildren("ab", {}, 1) == ["b"];
  }

  /**
   * The queue `rest` and visited set `visited` after expanding `x`: every
   * child of `x` is now visited, and the children not visited before were
   * appended to `rest`, each once, none of them visited before.
   */
  ghost predicate Expanded(x: string, rest: seq<string>, visited: set<string>, queue: seq<string>, seen: set<string>) {
    && |rest| <= |queue| <= |rest| + |x|
    && queue[..|rest|] == rest
    && seen == visited + Children(x)
    && Elems(queue[|rest|..]) == Children(x) - visited
    && NoDup(queue[|rest|..])
    && (forall j :: |rest| <= j < |queue| ==> |queue[j]| + 1 == |x|)
  }

  /** Breadth-first order: queued lengths never increase, and differ by at most one. */
  ghost predicate LevelOrdered(q: seq<string>) {
    forall i, j :: 0 <= i < j < |q| ==> |q[j]| <= |q[i]| <= |q[j]| + 1
  }

  /** Appending a string the queue lacks keeps it duplicate-free. */
  lemma NoDupSnoc(q: seq<string>, x: string)
    requires NoDup(q) && x !in Elems(q)
    ensures NoDup(q + [x])
  {
    forall a, b | 0 <= a < b < |q| + 1 ensures (q + [x])[a] != (q + [x])[b] {
      if b == |q| {
        assert (q + [x])[a] == q[a];
        assert q[a] in Elems(q);
      }
    }
  }

  /** The deletions of positions `0` to `i - 1` of `x`. */
  ghost function DeletionsBelow(x: string, i: nat): set<string>
    requires i <= |x|
  {
    set j: nat | j < i :: Delete(x, j)
  }

  /**
   * The fresh deletions below `i` are exactly those not visited before, none
   * of them twice, at most one per position, each one letter shorter than `x`.
   */
  lemma {:induction false} FreshChildrenSpec(x: string, visited: set<string>, i: nat)
    requires i <= |x|
    ensures |FreshChildren(x, visited, i)| <= i
    ensures Elems(FreshChildren(x, visited, i)) == DeletionsBelow(x, i) - visited
    ensures NoDup(FreshChildren(x, visited, i))
    ensures forall j :: 0 <= j < |FreshChildren(x, visited, i)| ==> |FreshChildren(x, visited, i)[j]| + 1 == |x|
  {
    if i > 0 {
      FreshChildrenSpec(x, visited, i - 1);
      var prev := FreshChildren(x, visited, i - 1);
      var child := Delete(x, i - 1);
      assert DeletionsBelow(x, i) == DeletionsBelow(x, i - 1) + {child};
      if child in visited || child in prev {
        assert child in prev ==> child in Elems(prev);
      } else {
        assert child !in Elems(prev);
        assert Elems(prev + [child]) == Elems(prev) + {child};
        NoDupSnoc(prev, child);
      }
    }
  }

  /**
   * Takes each character of `x` out in turn and appends the results that
   * have not been visited to the queue `rest`, marking them visited. The
   * new entries come in order of the deleted position.
   */
  method Expand(x: string, rest: seq<string>, visited: set<string>) returns (queue: seq<string>, seen: set<string>)
    ensures Expanded(x, rest, visited, queue, seen)
    ensures queue == rest + FreshChildren(x, visited, |x|)
  {
    queue, seen := rest, visited;
    var i := 0;
    while i < |x|
      invariant 0 <= i <= |x|
      invariant queue == rest + FreshChildren(x, visited, i)
      invariant seen == visited + DeletionsBelow(x, i)
    {
      var child := Delete(x, i);
      FreshChildrenSpec(x, visited, i);
      assert DeletionsBelow(x, i + 1) == DeletionsBelow(x, i) + {child};
      assert child in seen <==> child in visited || child in FreshChildren(x, visited, i) by {
        assert child in FreshChildren(x, visited, i) <==> child in Elems(FreshChildren(x, visited, i));
      }
      if child !in seen {
        queue := queue + [child];
        seen := seen + {child};
      }
      i := i + 1;
    }
    FreshChildrenSpec(x, visited, |x|);
    assert queue[..|rest|] == rest && queue[|rest|..] == FreshChildren(x, visited, |x|);
    assert Children(x) == DeletionsBelow(x, |x|);
  }

  // ---------------------------------------------------------------------
  // Termination: each key weighs (|key| + 1)!; a key is replaced by at most
  // |key| children of length |key| - 1, which together weigh less.

  /** `n!`, never below one. */
  function Fact(n: nat): (r: nat)
    ensures r >= 1
  {
    if n == 0 then 1 else n * Fact(n - 1)
  }

  /** The sum over the keys of `q` of `(|key| + 1)!`. */
  function Weight(q: seq<string>): nat {
    if q == [] then 0 else Weight(q[..|q| - 1]) + Fact(|q[|q| - 1]| + 1)
  }

  /** The weight of a concatenation is the sum of the weights. */
  lemma {:induction false} WeightAppend(a: seq<string>, b: seq<string>)
    ensures Weight(a + b) == Weight(a) + Weight(b)
    decreases |b|
  {
    if b == [] {
      assert a + b == a;
    } else {
      var n := |b| - 1;
      var ab := a + b;
      assert ab[..|ab| - 1] == a + b[..n];
      assert ab[|ab| - 1] == b[n];
      WeightAppend(a, b[..n]);
    }
  }

  /** Keys all one shorter than `n` weigh `n!` each. */
  lemma {:induction false} WeightUniform(a: seq<string>, n: nat)
    requires forall j :: 0 <= j < |a| ==> |a[j]| + 1 == n
    ensures Weight(a) == |a| * Fact(n)
  {
    if a != [] {
      WeightUniform(a[..|a| - 1], n);
    }
  }

  /** At most `n` copies of a positive weight are lighter than `n + 1` of them. */
  lemma FewerLighter(k: nat, n: nat, f: nat)
    requires k <= n && f >= 1
    ensures k * f < (n + 1) * f
  {
    assert k * f <= n * f;
  }

  /** Replacing the front key `x` by its expansion makes the queue lighter. */
  lemma ExpandShrinksWeight(x: string, rest: seq<string>, queue: seq<string>)
    requires |rest| <= |queue| <= |rest| + |x|
    requires queue[..|rest|] == rest
    requires forall j :: |rest| <= j < |queue| ==> |queue[j]| + 1 == |x|
    ensures Weight(queue) < Weight([x] + rest)
  {
    var added := queue[|rest|..];
    assert queue == rest + added;
    WeightAppend(rest, added);
    WeightAppend([x], rest);
    assert Weight([x]) == Fact(|x| + 1) by {
      assert [x][..0] == [];
    }
    WeightUniform(added, |x|);
    FewerLighter(|added|, |x|, Fact(|x|));
  }

  // ---------------------------------------------------------------------
  // The search state is kept by every step.

  lemma InitState(start: string)
    requires Sorted(start)
    ensures SearchState(start, [start], {start}, {})
  {
    assert Elems([start]) == {start};
  }

  /** Appending strings outside `visited` to a duplicate-free queue inside it keeps it duplicate-free. */
  lemma NoDupAppend(rest: seq<string>, added: seq<string>, visited: set<string>)
    requires NoDup(rest) && NoDup(added)
    requires Elems(rest) <= visited && Elems(added) !! visited
    ensures NoDup(rest + added)
  {
    var q := rest + added;
    forall i, j | 0 <= i < j < |q| ensures q[i] != q[j] {
      if j < |rest| {
        assert q[i] == rest[i] && q[j] == rest[j];
      } else if i >= |rest| {
        assert q[i] == added[i - |rest|] && q[j] == added[j - |rest|];
      } else {
        assert q[i] == rest[i] && q[i] in visited;
        assert q[j] == added[j - |rest|] && q[j] in Elems(added);
      }
    }
  }

  /** The children of a sorted key that fits inside `start` fit inside `start` as well. */
  lemma ChildrenFit(start: string, x: string)
    requires Sorted(x) && multiset(x) <= multiset(start)
    ensures forall v :: v in Children(x) ==> Sorted(v) && multiset(v) <= multiset(start)
  {
    forall v | v in Children(x) ensures Sorted(v) && multiset(v) <= multiset(start) {
      var i: nat :| i < |x| && v == Delete(x, i);
      DeleteSpec(x, i);
    }
  }

  lemma StepState(start: string, q0: seq<string>, visited: set<string>, done: set<string>,
                  queue: seq<string>, seen: set<string>)
    requires SearchState(start, q0, visited, done)
    requires q0 != []
    requires Expanded(q0[0], q0[1..], visited, queue, seen)
    ensures SearchState(start, queue, seen, done + {q0[0]})
  {
    var x, rest := q0[0], q0[1..];
    var added := queue[|rest|..];
    assert queue == rest + added;
    assert Elems(queue) == Elems(rest) + Elems(added);
    assert q0 == [x] + rest;
    assert Elems(q0) == {x} + Elems(rest);
    assert NoDup(rest) by {
      forall i, j | 0 <= i < j < |rest| ensures rest[i] != rest[j] {
        assert rest[i] == q0[i + 1] && rest[j] == q0[j + 1];
      }
    }
    assert x !in Elems(rest) by {
      forall j | 0 <= j < |rest| ensures rest[j] != x {
        assert rest[j] == q0[j + 1];
      }
    }
    ChildrenFit(start, x);
    NoDupAppend(rest, added, visited);
  }

  lemma LevelStep(q0: seq<string>, queue: seq<string>)
    requires q0 != [] && LevelOrdered(q0)
    requires |q0| - 1 <= |queue| && queue[..|q0| - 1] == q0[1..]
    requires forall j :: |q0| - 1 <= j < |queue| ==> |queue[j]| + 1 == |q0[0]|
    ensures LevelOrdered(queue)
  {
    var n := |q0| - 1;
    forall i, j | 0 <= i < j < |queue| ensures |queue[j]| <= |queue[i]| <= |queue[j]| + 1 {
      if j < n {
        assert queue[i] == q0[i + 1] && queue[j] == q0[j + 1];
      } else if i < n {
        assert queue[i] == q0[i + 1];
      }
    }
  }

  // ---------------------------------------------------------------------
  // What the search has reached.

  /**
   * Below a done key `u`, every sorted string longer than `b` whose letters
   * fit inside `u` is done too, provided every done key has its children
   * visited and every visited key longer than `b` is done.
   */
  lemma {:induction false} ReachedBelow(visited: set<string>, done: set<string>, b: int, u: string)
    requires forall v :: v in done ==> Children(v) <= visited
    requires forall v :: v in visited && |v| > b ==> v in done
    requires u in done && Sorted(u)
    ensures forall t :: Sorted(t) && multiset(t) <= multiset(u) && |t| > b ==> t in done
    decreases |u|
  {
    forall t | Sorted(t) && multiset(t) <= multiset(u) && |t| > b ensures t in done {
      if multiset(t) == multiset(u) {
        SortedUnique(t, u);
      } else {
        var i := DeletionAbove(u, t);
        var c := Delete(u, i);
        DeleteSpec(u, i);
        assert c in Children(u);
        SubMultisetCard(multiset(t), multiset(c));
        ReachedBelow(visited, done, b, c);
      }
    }
  }

  /** A drained search has dequeued exactly the sorted strings that fit inside `start`. */
  lemma DrainedExact(start: string, visited: set<string>, done: set<string>)
    requires SearchState(start, [], visited, done)
    ensures forall t :: t in done <==> Sorted(t) && multiset(t) <= multiset(start)
  {
    assert Elems([]) == {};
    ReachedBelow(visited, done, -1, start);
  }

  /** While the queue is level ordered, every fitting string longer than its front is done. */
  lemma LongerDone(start: string, q: seq<string>, visited: set<string>, done: set<string>)
    requires SearchState(start, q, visited, done)
    requires q != [] && LevelOrdered(q)
    ensures forall t :: Sorted(t) && multiset(t) <= multiset(start) && |t| > |q[0]| ==> t in done
  {
    forall v | v in visited && |v| > |q[0]| ensures v in done {
      assert v !in q by {
        forall j | 0 <= j < |q| ensures q[j] != v {
          assert j == 0 || |q[j]| <= |q[0]|;
        }
      }
    }
    forall t | Sorted(t) && multiset(t) <= multiset(start) && |t| > |q[0]| ensures t in done {
      SubMultisetCard(multiset(t), multiset(start));
      ReachedBelow(visited, done, |q[0]|, start);
    }
  }

  lemma WordsAtAdd(dict: Index, keys: set<string>, k: string)
    ensures WordsAt(dict, keys + {k}) == WordsAt(dict, keys) + Lookup(dict, k)
  {
    forall w | w in WordsAt(dict, keys + {k}) ensures w in WordsAt(dict, keys) + Lookup(dict, k) {
      var k' :| k' in dict && w in dict[k'] && k' in keys + {k};
      if k' != k {
        assert w in WordsAt(dict, keys);
      }
    }
  }

  lemma WordsAtFitting(dict: Index, input: string, keys: set<string>)
    requires forall t :: t in keys <==> Fits(t, input)
    ensures WordsAt(dict, keys) == AllMatches(dict, input)
  {
  }

  // ---------------------------------------------------------------------
  // The two queries.

  /**
   * All-words query: dequeues every key reachable from the sorted input and
   * collects the words the index holds under each. The answer is exactly
   * the words stored under keys that fit inside the input.
   */
  method FindAllWords(input: string, dict: Index) returns (result: set<string>)
    ensures result == AllMatches(dict, input)
  {
    var start := SortKey(input);
    SortKeySpec(input);
    var queue := [start];
    var visited := {start};
    ghost var done: set<string> := {};
    result := {};
    InitState(start);
    while queue != []
      invariant SearchState(start, queue, visited, done)
      invariant result == WordsAt(dict, done)
      decreases Weight(queue)
    {
      ghost var q0, v0 := queue, visited;
      var word := queue[0];
      var rest := queue[1..];
      result := result + Lookup(dict, word);
      queue, visited := Expand(word, rest, visited);
      StepState(start, q0, v0, done, queue, visited);
      ExpandShrinksWeight(word, rest, queue);
      assert q0 == [word] + rest;
      WordsAtAdd(dict, done, word);
      done := done + {word};
    }
    DrainedExact(start, visited, done);
    WordsAtFitting(dict, input, done);
  }

  /**
   * In a level-ordered search that has met no key of the index yet, the
   * front key, when the index holds it, is a longest fitting key.
   */
  lemma FoundIsLongest(dict: Index, input: string, start: string, q: seq<string>, visited: set<string>, done: set<string>)
    requires multiset(start) == multiset(input)
    requires SearchState(start, q, visited, done)
    requires q != [] && LevelOrdered(q) && q[0] in dict
    requires forall k :: k in done ==> k !in dict
    ensures IsLongestKey(dict, input, q[0])
  {
    LongerDone(start, q, visited, done);
  }

  /** A drained search that has met no key of the index shows that no key fits. */
  lemma NoneFits(dict: Index, input: string, start: string, visited: set<string>, done: set<string>)
    requires multiset(start) == multiset(input)
    requires SearchState(start, [], visited, done)
    requires forall k :: k in done ==> k !in dict
    ensures IsLongestResult(dict, input, {})
  {
    DrainedExact(start, visited, done);
  }

  /**
   * Longest-word query: the same search, stopping at the first dequeued key
   * the index holds and answering with the words under that key. Because
   * the queue is breadth-first, that key is a longest fitting key; when no
   * key fits the answer is empty.
   */
  method FindLongestWord(input: string, dict: Index) returns (result: set<string>)
    ensures IsLongestResult(dict, input, result)
  {
    var start := SortKey(input);
    SortKeySpec(input);
    var queue := [start];
    var visited := {start};
    ghost var done: set<string> := {};
    result := {};
    InitState(start);
    while queue != []
      invariant SearchState(start, queue, visited, done)
      invariant LevelOrdered(queue)
      invariant forall k :: k in done ==> k !in dict
      decreases Weight(queue)
    {
      ghost var q0, v0 := queue, visited;
      var word := queue[0];
      var rest := queue[1..];
      if word in dict {
        FoundIsLongest(dict, input, start, q0, v0, done);
        result := dict[word];
        return;
      }
      queue, visited := Expand(word, rest, visited);
      StepState(start, q0, v0, done, queue, visited);
      LevelStep(q0, queue);
      ExpandShrinksWeight(word, rest, queue);
      assert q0 == [word] + rest;
      done := done + {word};
    }
    NoneFits(dict, input, start, visited, done);
  }

  // ---------------------------------------------------------------------
  // Every longest word, as the longest-word query's documentation promises.

  /** Every word stored under a longest fitting key. */
  ghost function LongestMatches(dict: Index, input: string): set<string> {
    set k, w | k in dict && w in dict[k] && IsLongestKey(dict, input, k) :: w
  }

  /**
   * Over a well-formed index with two different longest fitting keys, no
   * answer the longest-word query gives holds every longest word: an answer
   * is the word set of one key, and a word is filed only under its own key.
   */
  lemma TieLost(dict: Index, input: string, ka: string, kb: string)
    requires WellFormed(dict)
    requires ka != kb && IsLongestKey(dict, input, ka) && IsLongestKey(dict, input, kb)
    ensures forall r :: IsLongestResult(dict, input, r) ==> r != LongestMatches(dict, input)
  {
    var wa :| wa in dict[ka];
    var wb :| wb in dict[kb];
    var all := LongestMatches(dict, input);
    assert wa in all && wb in all;
    forall r | IsLongestResult(dict, input, r) ensures r != all {
      if k :| IsLongestKey(dict, input, k) && r == dict[k] {
        assert !(wa in r && wb in r) by {
          assert SortKey(wa) == ka && SortKey(wb) == kb;
        }
      }
    }
  }

  /** Two fitting keys of equal length, the only keys of the index, are both longest. */
  lemma TwoLongest(dict: Index, input: string, a: string, b: string)
    requires dict.Keys == {a, b}
    requires Fits(a, input) && Fits(b, input) && |a| == |b|
    ensures IsLongestKey(dict, input, a) && IsLongestKey(dict, input, b)
  {
  }

  /** An index of two words, each its own canonical key, is well formed. */
  lemma KeysOfThemselves(a: string, b: string)
    requires SortKey(a) == a && SortKey(b) == b
    ensures WellFormed(map[a := {a}, b := {b}])
  {
  }

  /** "at" and "ax" are already sorted. */
  lemma SortKeyOfAtAx()
    ensures SortKey("at") == "at" && SortKey("ax") == "ax"
  {
    assert SortKey("t") == "t";
    assert SortKey("x") == "x";
  }

  /**
   * A concrete tie: from the letters of "tax" both "at" and "ax" can be
   * made, yet no answer the longest-word query gives holds both.
   */
  lemma LongestMissesTie()
    ensures var dict := map["at" := {"at"}, "ax" := {"ax"}];
      forall r :: IsLongestResult(dict, "tax", r) ==> r != LongestMatches(dict, "tax")
  {
    var dict := map["at" := {"at"}, "ax" := {"ax"}];
    assert multiset("tax") == multiset{'t', 'a', 'x'};
    assert Fits("at", "tax") by {
      assert multiset("at") == multiset{'a', 't'};
    }
    assert Fits("ax", "tax") by {
      assert multiset("ax") == multiset{'a', 'x'};
    }
    assert "at"[1] != "ax"[1];
    SortKeyOfAtAx();
    KeysOfThemselves("at", "ax");
    TwoLongest(dict, "tax", "at", "ax");
    TieLost(dict, "tax", "at", "ax");
  }

  /** The lengths in `q` are at most `n`. */
  ghost predicate AtMost(q: seq<string>, n: int) {
    forall j :: 0 <= j < |q| ==> |q[j]| <= n
  }

  /** Expanding the front of a level-ordered queue leaves nothing longer than that front. */
  lemma AtMostStep(q0: seq<string>, queue: seq<string>)
    requires q0 != [] && LevelOrdered(q0)
    requires |q0| - 1 <= |queue| && queue[..|q0| - 1] == q0[1..]
    requires forall j :: |q0| - 1 <= j < |queue| ==> |queue[j]| + 1 == |q0[0]|
    ensures AtMost(queue, |q0[0]|)
  {
    var n := |q0| - 1;
    forall j | 0 <= j < |queue| ensures |queue[j]| <= |q0[0]| {
      if j < n {
        assert queue[j] == q0[j + 1];
      }
    }
  }

  /**
   * The search has found a key the index holds at length `level`: no
   * fitting key of the index is longer, and every done key the index holds
   * has exactly that length.
   */
  ghost predicate Settled(dict: Index, input: string, done: set<string>, level: int) {
    && (forall k :: k in dict && Fits(k, input) ==> |k| <= level)
    && (forall k :: k in done && k in dict ==> |k| == level)
    && (exists k :: k in done && k in dict)
  }

  /** Once every fitting key of length `level` or more is done, the done keys hold exactly the longest words. */
  lemma LevelComplete(dict: Index, input: string, done: set<string>, level: int)
    requires Settled(dict, input, done, level)
    requires forall t :: t in done ==> Fits(t, input)
    requires forall t :: Fits(t, input) && |t| >= level ==> t in done
    ensures LongestMatches(dict, input) == WordsAt(dict, done)
  {
    var k0 :| k0 in done && k0 in dict;
    forall k ensures IsLongestKey(dict, input, k) <==> k in done && k in dict {
      if IsLongestKey(dict, input, k) {
        assert |k0| <= |k|;
      }
    }
  }

  /**
   * Longest-word query with the level finished: once the search meets a key
   * the index holds, it goes on through every queued key of that length
   * before stopping. The answer is exactly the words under all the longest
   * fitting keys.
   */
  method FindLongestWords(input: string, dict: Index) returns (result: set<string>)
    ensures result == LongestMatches(dict, input)
  {
    var start := SortKey(input);
    SortKeySpec(input);
    var queue := [start];
    var visited := {start};
    ghost var done: set<string> := {};
    result := {};
    var level := -1;
    InitState(start);
    while queue != [] && (level < 0 || |queue[0]| == level)
      invariant SearchState(start, queue, visited, done)
      invariant LevelOrdered(queue)
      invariant result == WordsAt(dict, done)
      invariant level < 0 ==> forall k :: k in done ==> k !in dict
      invariant level >= 0 ==> Settled(dict, input, done, level) && AtMost(queue, level)
      decreases Weight(queue)
    {
      ghost var q0, v0 := queue, visited;
      var word := queue[0];
      var rest := queue[1..];
      if level < 0 && word in dict {
        LongerDone(start, q0, v0, done);
        level := |word|;
      }
      result := result + Lookup(dict, word);
      queue, visited := Expand(word, rest, visited);
      StepState(start, q0, v0, done, queue, visited);
      LevelStep(q0, queue);
      AtMostStep(q0, queue);
      ExpandShrinksWeight(word, rest, queue);
      assert q0 == [word] + rest;
      WordsAtAdd(dict, done, word);
      done := done + {word};
    }
    if queue == [] {
      DrainedExact(start, visited, done);
    } else {
      LongerDone(start, queue, visited, done);
    }
    if level >= 0 {
      LevelComplete(dict, input, done, level);
    }
  }

  // ---------------------------------------------------------------------
  // The queries over an index built from a dictionary.

  /** A stored word has the length of the key it is stored under. */
  lemma StoredWordLength(dict: Index, k: string, w: string)
    requires WellFormed(dict) && k in dict && w in dict[k]
    ensures |w| == |k|
    ensures multiset(w) == multiset(k)
  {
    SortKeySpec(w);
    assert |multiset(w)| == |multiset(k)|;
  }

  /**
   * Over a well-formed index, the all-words answer is exactly the stored
   * words whose letters all occur in the input (sub-anagrams of it).
   */
  lemma AllMatchesWellFormed(dict: Index, input: string)
    requires WellFormed(dict)
    ensures forall w :: w in AllMatches(dict, input) <==> w in Words(dict) && multiset(w) <= multiset(input)
  {
    forall w ensures w in AllMatches(dict, input) <==> w in Words(dict) && multiset(w) <= multiset(input) {
      if w in AllMatches(dict, input) {
        var k :| k in dict && w in dict[k] && Fits(k, input);
        StoredWordLength(dict, k, w);
      }
      if w in Words(dict) && multiset(w) <= multiset(input) {
        var k :| k in dict && w in dict[k];
        StoredWordLength(dict, k, w);
        SortKeySpec(w);
        assert Fits(k, input);
      }
    }
  }

  /**
   * The all-words answer over the index of a dictionary is exactly the
   * lower-cased dictionary lines whose letters all occur in the input.
   */
  lemma AllWordsOfDictionary(lines: seq<string>, input: string)
    ensures AllMatches(Build(lines), input)
         == set i | 0 <= i < |lines| && multiset(Lower(lines[i])) <= multiset(input) :: Lower(lines[i])
  {
    AllMatchesWellFormed(Build(lines), input);
    BuildWords(lines);
  }

  /** Adding a line to the dictionary never takes a word away from an all-words answer. */
  lemma AllWordsMonotone(lines: seq<string>, line: string, input: string)
    ensures AllMatches(Build(lines), input) <= AllMatches(Build(lines + [line]), input)
  {
    var more := lines + [line];
    assert more[..|more| - 1] == lines;
    var small, big := Build(lines), Build(more);
    assert big == AddWord(small, Lower(line));
    forall w | w in AllMatches(small, input) ensures w in AllMatches(big, input) {
      var k :| k in small && w in small[k] && Fits(k, input);
      assert w in Lookup(small, k);
      assert w in Lookup(big, k);
    }
  }

  /**
   * Over a well-formed index, the longest-word answer is part of the
   * all-words answer, none of the all-words answer is longer than any of its
   * words, and it is empty exactly when the all-words answer is.
   */
  lemma LongestAmongAll(dict: Index, input: string, longest: set<string>)
    requires WellFormed(dict)
    requires IsLongestResult(dict, input, longest)
    ensures longest <= AllMatches(dict, input)
    ensures forall w, w' :: w in longest && w' in AllMatches(dict, input) ==> |w'| <= |w|
    ensures longest == {} <==> AllMatches(dict, input) == {}
  {
    var all := AllMatches(dict, input);
    if k :| IsLongestKey(dict, input, k) && longest == dict[k] {
      forall w, w' | w in longest && w' in all ensures |w'| <= |w| {
        var k' :| k' in dict && w' in dict[k'] && Fits(k', input);
        StoredWordLength(dict, k, w);
        StoredWordLength(dict, k', w');
      }
      var w :| w in dict[k];
      assert w in all;
    } else {
      assert all == {};
    }
  }

  /** Any answer the longest-word query gives is part of the complete longest-word answer. */
  lemma LongestResultWithin(dict: Index, input: string, r: set<string>)
    requires IsLongestResult(dict, input, r)
    ensures r <= LongestMatches(dict, input)
  {
    if k :| IsLongestKey(dict, input, k) && r == dict[k] {
      forall w | w in r ensures w in LongestMatches(dict, input) {
      }
    }
  }

  /**
   * Over a well-formed index, the complete longest-word answer is exactly
   * the words of the all-words answer that no other word of it outgrows.
   */
  lemma LongestMatchesMaximal(dict: Index, input: string)
    requires WellFormed(dict)
    ensures forall w :: (w in LongestMatches(dict, input) <==>
                         w in AllMatches(dict, input) && forall w' :: w' in AllMatches(dict, input) ==> |w'| <= |w|)
  {
    var all := AllMatches(dict, input);
    forall w ensures w in LongestMatches(dict, input) <==> w in all && forall w' :: w' in all ==> |w'| <= |w| {
      if w in LongestMatches(dict, input) {
        var k :| k in dict && w in dict[k] && IsLongestKey(dict, input, k);
        forall w' | w' in all ensures |w'| <= |w| {
          var k' :| k' in dict && w' in dict[k'] && Fits(k', input);
          StoredWordLength(dict, k, w);
          StoredWordLength(dict, k', w');
        }
      }
      if w in all && forall w' :: w' in all ==> |w'| <= |w| {
        var k :| k in dict && w in dict[k] && Fits(k, input);
        forall k' | k' in dict && Fits(k', input) ensures |k'| <= |k| {
          var w' :| w' in dict[k'];
          StoredWordLength(dict, k, w);
          StoredWordLength(dict, k', w');
          assert w' in all;
        }
        assert IsLongestKey(dict, input, k);
      }
    }
  }

  /** The lower-cased dictionary lines whose letters fit in the input. */
  ghost function FittingLines(lines: seq<string>, input: string): set<string> {
    set i | 0 <= i < |lines| && multiset(Lower(lines[i])) <= multiset(input) :: Lower(lines[i])
  }

  /**
   * Over a built index, the words under all longest keys are exactly the
   * lower-cased dictionary lines that fit in the input and that no fitting
   * line outgrows.
   */
  lemma LongestOfDictionary(lines: seq<string>, input: string)
    ensures LongestMatches(Build(lines), input)
         == set w | w in FittingLines(lines, input)
                    && forall w' :: w' in FittingLines(lines, input) ==> |w'| <= |w|
  {
    var dict := Build(lines);
    AllWordsOfDictionary(lines, input);
    assert AllMatches(dict, input) == FittingLines(lines, input);
    LongestMatchesMaximal(dict, input);
  }
}
