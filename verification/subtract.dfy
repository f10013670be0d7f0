/**
 * Multiset difference of two canonical keys: the letters of the longer key
 * that remain once every letter of the shorter key has been taken out.
 */
module Subtract {
  import opened Letters

  /**
   * Walks both strings in lockstep. When the current letters agree, the
   * letter of `longer` is dropped and both walks advance; otherwise the
   * letter of `longer` is kept and only that walk advances. Once `shorter`
   * is used up, the rest of `longer` is kept as it is.
   *
   * The walk never skips a letter of `shorter`: when such a letter never
   * turns up in `longer`, nothing after it is removed either.
   */
  function LeftChars(longer: string, shorter: string): string
    decreases |longer|
  {
    if shorter == [] || longer == [] then longer
    else if longer[0] == shorter[0] then LeftChars(longer[1..], shorter[1..])
    else [longer[0]] + LeftChars(longer[1..], shorter)
  }

  /**
   * Whatever its inputs, the walk only removes letters: the result draws its
   * letters from `longer`, a sorted `longer` gives a sorted result, and an
   * empty `shorter` gives `longer` back unchanged.
   */
  lemma {:induction false} LeftCharsShape(longer: string, shorter: string)
    ensures multiset(LeftChars(longer, shorter)) <= multiset(longer)
    ensures Sorted(longer) ==> Sorted(LeftChars(longer, shorter))
    ensures shorter == [] ==> LeftChars(longer, shorter) == longer
    decreases |longer|
  {
    if shorter != [] && longer != [] {
      var l0, l1 := longer[0], longer[1..];
      assert multiset(longer) == multiset{l0} + multiset(l1) by {
        assert longer == [l0] + l1;
      }
      if l0 == shorter[0] {
        LeftCharsShape(l1, shorter[1..]);
        if Sorted(longer) {
          SortedTail(longer);
        }
      } else {
        var rest := LeftChars(l1, shorter);
        LeftCharsShape(l1, shorter);
        assert LeftChars(longer, shorter) == [l0] + rest;
        if Sorted(longer) {
          SortedHeadBelow(longer);
          SortedCons(l0, rest);
        }
      }
    }
  }

  /** The result is `longer` with some positions deleted: the walk keeps the letters it does not match, in their order. */
  lemma {:induction false} LeftCharsKeeps(longer: string, shorter: string) returns (mask: seq<bool>)
    ensures |mask| == |longer|
    ensures Keep(longer, mask) == LeftChars(longer, shorter)
    decreases |longer|
  {
    if shorter == [] || longer == [] {
      mask := seq(|longer|, _ => true);
      KeepAll(longer, mask);
    } else if longer[0] == shorter[0] {
      var m := LeftCharsKeeps(longer[1..], shorter[1..]);
      mask := [false] + m;
      assert mask[1..] == m;
    } else {
      var m := LeftCharsKeeps(longer[1..], shorter);
      mask := [true] + m;
      assert mask[1..] == m;
    }
  }

  /** Keeping every position gives the string back. */
  lemma {:induction false} KeepAll(s: string, mask: seq<bool>)
    requires |mask| == |s| && forall j :: 0 <= j < |mask| ==> mask[j]
    ensures Keep(s, mask) == s
  {
    if s != [] {
      KeepAll(s[1..], mask[1..]);
    }
  }

  /** Dropping a common first letter keeps `shorter` inside `longer`. */
  lemma CommonHead(longer: string, shorter: string)
    requires longer != [] && shorter != [] && longer[0] == shorter[0]
    requires multiset(shorter) <= multiset(longer)
    ensures multiset(shorter[1..]) <= multiset(longer[1..])
  {
    TailLetters(longer);
    TailLetters(shorter);
  }

  /** Taking out a letter that `part` lacks keeps `part` inside `whole`. */
  lemma AbsentStaysInside(part: multiset<char>, whole: multiset<char>, c: char)
    requires part <= whole && c !in part
    ensures part <= whole - multiset{c}
  {
    forall y ensures part[y] <= (whole - multiset{c})[y] {
      if y == c {
        assert part[y] == 0;
      }
    }
  }

  /**
   * For sorted strings, a first letter of `longer` that differs from the
   * first letter of `shorter` is the least letter of `longer` and does not
   * occur in `shorter` at all, so `shorter` fits inside the rest of `longer`.
   */
  lemma SkippedHead(longer: string, shorter: string)
    requires Sorted(longer) && Sorted(shorter)
    requires longer != [] && shorter != [] && longer[0] != shorter[0]
    requires multiset(shorter) <= multiset(longer)
    ensures multiset(shorter) <= multiset(longer[1..])
  {
    var l0 := longer[0];
    assert l0 !in multiset(shorter) by {
      assert shorter[0] in multiset(shorter);
      SortedHeadLeast(longer, shorter[0]);
      if l0 in multiset(shorter) {
        SortedHeadLeast(shorter, l0);
      }
    }
    TailLetters(longer);
    AbsentStaysInside(multiset(shorter), multiset(longer), l0);
  }

  /** One matched letter: the identity for the tails gives it for the whole. */
  lemma MatchedStep(longer: string, shorter: string, rest: string)
    requires longer != [] && shorter != [] && longer[0] == shorter[0]
    requires multiset(rest) + multiset(shorter[1..]) == multiset(longer[1..])
    ensures multiset(rest) + multiset(shorter) == multiset(longer)
  {
    var c := longer[0];
    assert longer == [c] + longer[1..];
    assert shorter == [c] + shorter[1..];
    var ms, ml, mr := multiset(shorter[1..]), multiset(longer[1..]), multiset(rest);
    assert multiset(shorter) == multiset{c} + ms;
    assert multiset(longer) == multiset{c} + ml;
    assert mr + (multiset{c} + ms) == multiset{c} + (mr + ms);
  }

  /** One kept letter: the identity for the tail of `longer` gives it for the whole. */
  lemma KeptStep(longer: string, shorter: string, rest: string)
    requires longer != []
    requires multiset(rest) + multiset(shorter) == multiset(longer[1..])
    ensures multiset([longer[0]] + rest) + multiset(shorter) == multiset(longer)
  {
    assert longer == [longer[0]] + longer[1..];
  }

  /**
   * For sorted keys where `shorter` fits inside `longer`, the leftover
   * letters together with `shorter` are exactly the letters of `longer`,
   * and the leftover is `|longer| - |shorter|` letters long.
   */
  lemma {:induction false} LeftCharsSubtracts(longer: string, shorter: string)
    requires Sorted(longer) && Sorted(shorter)
    requires multiset(shorter) <= multiset(longer)
    ensures multiset(LeftChars(longer, shorter)) + multiset(shorter) == multiset(longer)
    ensures |LeftChars(longer, shorter)| == |longer| - |shorter|
    decreases |longer|
  {
    if shorter == [] || longer == [] {
      SubMultisetCard(multiset(shorter), multiset(longer));
    } else {
      SortedTail(longer);
      if longer[0] == shorter[0] {
        SortedTail(shorter);
        CommonHead(longer, shorter);
        LeftCharsSubtracts(longer[1..], shorter[1..]);
        MatchedStep(longer, shorter, LeftChars(longer[1..], shorter[1..]));
      } else {
        SkippedHead(longer, shorter);
        LeftCharsSubtracts(longer[1..], shorter);
        KeptStep(longer, shorter, LeftChars(longer[1..], shorter));
      }
      var r := LeftChars(longer, shorter);
      assert |multiset(r)| + |multiset(shorter)| == |multiset(longer)|;
    }
  }

  /** Marking the first position in front of a mask for the rest. */
  lemma KeepCons(s: string, b: bool, m: seq<bool>)
    requires s != [] && |m| + 1 == |s|
    ensures Keep(s, [b] + m) == (if b then [s[0]] else []) + Keep(s[1..], m)
  {
    assert ([b] + m)[1..] == m;
  }

  /** A sorted `t` that fits inside a sorted `s` is `s` with some positions deleted. */
  lemma {:induction false} SortedFitsIsDeletion(s: string, t: string) returns (mask: seq<bool>)
    requires Sorted(s) && Sorted(t)
    requires multiset(t) <= multiset(s)
    ensures |mask| == |s|
    ensures Keep(s, mask) == t
    decreases |s|
  {
    if t == [] {
      mask := seq(|s|, _ => false);
      DropAll(s, mask);
    } else {
      assert t[0] in multiset(t);
      assert s != [];
      SortedTail(s);
      if s[0] == t[0] {
        SortedTail(t);
        CommonHead(s, t);
        var m := SortedFitsIsDeletion(s[1..], t[1..]);
        KeepCons(s, true, m);
        mask := [true] + m;
        assert t == [t[0]] + t[1..];
      } else {
        SkippedHead(s, t);
        var m := SortedFitsIsDeletion(s[1..], t);
        KeepCons(s, false, m);
        mask := [false] + m;
      }
    }
  }

  /** Keeping no position gives the empty string. */
  lemma {:induction false} DropAll(s: string, mask: seq<bool>)
    requires |mask| == |s| && forall j :: 0 <= j < |mask| ==> !mask[j]
    ensures Keep(s, mask) == []
  {
    if s != [] {
      DropAll(s[1..], mask[1..]);
    }
  }

  /**
   * For sorted strings, `t` fits inside `s` exactly when `t` is `s` with some
   * positions deleted; this is how the search's keys relate to its sorted input.
   */
  lemma SortedFitsIffDeletion(s: string, t: string)
    requires Sorted(s) && Sorted(t)
    ensures multiset(t) <= multiset(s) <==> exists mask :: |mask| == |s| && Keep(s, mask) == t
  {
    if multiset(t) <= multiset(s) {
      var mask := SortedFitsIsDeletion(s, t);
    }
    if mask :| |mask| == |s| && Keep(s, mask) == t {
      KeepSpec(s, mask);
    }
  }
}
