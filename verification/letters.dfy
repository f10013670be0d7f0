/**
 * Letter strings, their canonical keys and the one-character deletions the
 * subset search is built from.
 *
 * A canonical key is the arrangement of a string's characters in
 * non-decreasing order. Two strings are anagrams of each other exactly when
 * their canonical keys are equal (`SortKeyAnagram`).
 */
module Letters {

  /** Characters in non-decreasing code-point order. */
  predicate Sorted(s: string) {
    forall i, j :: 0 <= i < j < |s| ==> s[i] <= s[j]
  }

  /** A sorted string stays sorted when a character no larger than all of it is put in front. */
  lemma SortedCons(c: char, s: string)
    requires Sorted(s)
    requires forall x :: x in multiset(s) ==> c <= x
    ensures Sorted([c] + s)
  {
    forall j | 0 <= j < |s| ensures c <= s[j] {
      assert s[j] in multiset(s);
    }
  }

  /** Puts `c` in front of the first character of `s` that is not smaller than it. */
  function InsertSorted(c: char, s: string): string {
    if s == [] || c <= s[0] then [c] + s else [s[0]] + InsertSorted(c, s[1..])
  }

  /** Dropping the first character of a sorted string leaves it sorted. */
  lemma SortedTail(s: string)
    requires Sorted(s) && s != []
    ensures Sorted(s[1..])
  {
  }

  /** The first character of a sorted string is no larger than the rest of it. */
  lemma SortedHeadBelow(s: string)
    requires Sorted(s) && s != []
    ensures Sorted(s[1..])
    ensures forall x :: x in multiset(s[1..]) ==> s[0] <= x
  {
    SortedTail(s);
    forall x | x in multiset(s[1..]) ensures s[0] <= x {
      var j :| 0 <= j < |s[1..]| && s[1..][j] == x;
      assert s[j + 1] == x;
    }
  }

  /** Inserting adds exactly `c` to the letters. */
  lemma {:induction false} InsertSortedLetters(c: char, s: string)
    ensures multiset(InsertSorted(c, s)) == multiset(s) + multiset{c}
  {
    if s != [] && s[0] < c {
      InsertSortedLetters(c, s[1..]);
      assert s == [s[0]] + s[1..];
    }
  }

  /** Inserting into a sorted string keeps it sorted and adds exactly `c`. */
  lemma {:induction false} InsertSortedSpec(c: char, s: string)
    requires Sorted(s)
    ensures Sorted(InsertSorted(c, s))
    ensures multiset(InsertSorted(c, s)) == multiset(s) + multiset{c}
  {
    InsertSortedLetters(c, s);
    if s == [] || c <= s[0] {
      SortedCons(c, s);
    } else {
      SortedHeadBelow(s);
      InsertSortedSpec(c, s[1..]);
      InsertSortedLetters(c, s[1..]);
      SortedCons(s[0], InsertSorted(c, s[1..]));
    }
  }

  /**
   * The canonical key of `s`: its characters in sorted order (insertion
   * sort). The sorting routine of the original program is not part of this
   * model; any routine that returns a sorted permutation returns exactly
   * this string (`SortedUnique`).
   */
  function SortKey(s: string): string {
    if s == [] then [] else InsertSorted(s[0], SortKey(s[1..]))
  }

  /** The canonical key is sorted and has exactly the letters of `s`. */
  lemma {:induction false} SortKeySpec(s: string)
    ensures Sorted(SortKey(s))
    ensures multiset(SortKey(s)) == multiset(s)
  {
    if s != [] {
      SortKeySpec(s[1..]);
      InsertSortedSpec(s[0], SortKey(s[1..]));
      assert s == [s[0]] + s[1..];
    }
  }

  /** The first character of a sorted string is no larger than any of its letters. */
  lemma SortedHeadLeast(s: string, x: char)
    requires Sorted(s) && x in multiset(s)
    ensures s != [] && s[0] <= x
  {
    var j :| 0 <= j < |s| && s[j] == x;
  }

  /** The tail of a non-empty string has its letters less the first one. */
  lemma TailLetters(s: string)
    requires s != []
    ensures multiset(s[1..]) == multiset(s) - multiset{s[0]}
    ensures multiset(s) == multiset{s[0]} + multiset(s[1..])
  {
    assert s == [s[0]] + s[1..];
  }

  /** Two sorted strings with the same letters start with the same letter. */
  lemma SortedHeadsMeet(a: string, b: string)
    requires Sorted(a) && Sorted(b) && a != []
    requires multiset(a) == multiset(b)
    ensures b != [] && a[0] == b[0]
  {
    assert a[0] in multiset(a);
    SortedHeadLeast(b, a[0]);
    assert b[0] in multiset(b);
    SortedHeadLeast(a, b[0]);
  }

  /** Two strings with the same letters and the same first letter have the same letters after it. */
  lemma SameTails(a: string, b: string)
    requires a != [] && b != [] && a[0] == b[0]
    requires multiset(a) == multiset(b)
    ensures multiset(a[1..]) == multiset(b[1..])
  {
    TailLetters(a);
    TailLetters(b);
  }

  /** Two sorted strings with the same letters are the same string. */
  lemma {:induction false} SortedUnique(a: string, b: string)
    requires Sorted(a) && Sorted(b)
    requires multiset(a) == multiset(b)
    ensures a == b
  {
    if a == [] {
      assert |b| == |multiset(b)| == 0;
    } else {
      SortedHeadsMeet(a, b);
      SameTails(a, b);
      var ta, tb := a[1..], b[1..];
      SortedTail(a);
      SortedTail(b);
      SortedUnique(ta, tb);
      assert a == [a[0]] + ta;
      assert b == [b[0]] + tb;
    }
  }

  /** Sorting a canonical key gives it back. */
  lemma SortKeyIdempotent(s: string)
    ensures SortKey(SortKey(s)) == SortKey(s)
  {
    SortKeySpec(s);
    SortKeySpec(SortKey(s));
    SortedUnique(SortKey(SortKey(s)), SortKey(s));
  }

  /** Two strings share a canonical key exactly when they have the same letters. */
  lemma SortKeyAnagram(a: string, b: string)
    ensures SortKey(a) == SortKey(b) <==> multiset(a) == multiset(b)
  {
    SortKeySpec(a);
    SortKeySpec(b);
    if multiset(a) == multiset(b) {
      SortedUnique(SortKey(a), SortKey(b));
    }
  }

  /** A sorted string is its own canonical key. */
  lemma SortedIsKey(s: string)
    requires Sorted(s)
    ensures SortKey(s) == s
  {
    SortKeySpec(s);
    SortedUnique(SortKey(s), s);
  }

  /** ASCII upper-case letters map to their lower-case form; every other character is kept. */
  function LowerChar(c: char): char {
    if 'A' <= c <= 'Z' then (c as int + 32) as char else c
  }

  /** Lower-cases a dictionary line character by character. */
  function Lower(s: string): string {
    if s == [] then [] else [LowerChar(s[0])] + Lower(s[1..])
  }

  /**
   * Lower-casing keeps the length, turns each ASCII upper-case letter into
   * its lower-case form, keeps every other character, and leaves no ASCII
   * upper-case letter behind.
   */
  lemma {:induction false} LowerSpec(s: string)
    ensures |Lower(s)| == |s|
    ensures forall i :: 0 <= i < |s| && 'A' <= s[i] <= 'Z' ==> Lower(s)[i] as int == s[i] as int + 32
    ensures forall i :: 0 <= i < |s| && !('A' <= s[i] <= 'Z') ==> Lower(s)[i] == s[i]
    ensures forall i :: 0 <= i < |s| ==> !('A' <= Lower(s)[i] <= 'Z')
  {
    if s != [] {
      LowerSpec(s[1..]);
      assert forall i :: 1 <= i < |s| ==> Lower(s)[i] == Lower(s[1..])[i - 1];
    }
  }

  /** Lower-casing twice is lower-casing once. */
  lemma {:induction false} LowerIdempotent(s: string)
    ensures Lower(Lower(s)) == Lower(s)
  {
    if s != [] {
      LowerIdempotent(s[1..]);
    }
  }

  /** `s` with the character at position `i` taken out. */
  function Delete(s: string, i: nat): (r: string)
    requires i < |s|
    ensures |r| + 1 == |s|
  {
    s[..i] + s[i + 1..]
  }

  /** A deletion loses exactly the deleted letter. */
  lemma DeleteLetters(s: string, i: nat)
    requires i < |s|
    ensures multiset(Delete(s, i)) + multiset{s[i]} == multiset(s)
  {
    assert s == s[..i] + [s[i]] + s[i + 1..];
  }

  /** A deletion keeps a sorted string sorted. */
  lemma DeleteSorted(s: string, i: nat)
    requires i < |s| && Sorted(s)
    ensures Sorted(Delete(s, i))
  {
    var d := Delete(s, i);
    forall j, k | 0 <= j < k < |d| ensures d[j] <= d[k] {
      var sj := if j < i then j else j + 1;
      var sk := if k < i then k else k + 1;
      assert d[j] == s[sj] && d[k] == s[sk];
    }
  }

  /** A deletion loses exactly the deleted letter and keeps a sorted string sorted. */
  lemma DeleteSpec(s: string, i: nat)
    requires i < |s|
    ensures multiset(Delete(s, i)) + multiset{s[i]} == multiset(s)
    ensures Sorted(s) ==> Sorted(Delete(s, i))
  {
    DeleteLetters(s, i);
    if Sorted(s) {
      DeleteSorted(s, i);
    }
  }

  /** The characters of `s` at the positions `mask` marks, in their order: `s` with the other positions deleted. */
  function Keep(s: string, mask: seq<bool>): string
    requires |mask| == |s|
  {
    if s == [] then [] else (if mask[0] then [s[0]] else []) + Keep(s[1..], mask[1..])
  }

  /** Keeping some positions keeps a sub-multiset of the letters, and a sorted string stays sorted. */
  lemma {:induction false} KeepSpec(s: string, mask: seq<bool>)
    requires |mask| == |s|
    ensures multiset(Keep(s, mask)) <= multiset(s)
    ensures Sorted(s) ==> Sorted(Keep(s, mask))
  {
    if s != [] {
      KeepSpec(s[1..], mask[1..]);
      TailLetters(s);
      var rest := Keep(s[1..], mask[1..]);
      if Sorted(s) {
        SortedHeadBelow(s);
        if mask[0] {
          SortedCons(s[0], rest);
        } else {
          assert Keep(s, mask) == rest;
        }
      }
    }
  }

  /** A sub-multiset is no larger, and of equal size only when it is the whole. */
  lemma SubMultisetCard(a: multiset<char>, b: multiset<char>)
    requires a <= b
    ensures |a| <= |b|
    ensures |a| == |b| ==> a == b
  {
    assert b == a + (b - a);
  }

  /**
   * When `t` has strictly fewer letters than `u`, some single deletion from
   * `u` still contains all of `t`.
   */
  lemma DeletionAbove(u: string, t: string) returns (i: nat)
    requires multiset(t) <= multiset(u)
    requires multiset(t) != multiset(u)
    ensures i < |u|
    ensures multiset(t) <= multiset(Delete(u, i))
  {
    var extra := multiset(u) - multiset(t);
    assert extra != multiset{};
    var c :| c in extra;
    assert c in multiset(u);
    i :| 0 <= i < |u| && u[i] == c;
    var d := Delete(u, i);
    DeleteSpec(u, i);
    forall y ensures multiset(t)[y] <= multiset(d)[y] {
      assert multiset(d)[y] + multiset{c}[y] == multiset(u)[y];
    }
  }
}
