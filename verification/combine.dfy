/**
 * Two-word phrases: every word the input can make, followed by every word
 * the leftover letters can make.
 */
module Combine {
  import opened Letters
  import opened Dictionary
  import opened Subtract
  import opened Search

  /** A phrase of two words separated by one space. */
  function Phrase(first: string, second: string): string {
    first + " " + second
  }

  /**
   * The phrases formed from the first words in `firsts`: each is paired with
   * every word the letters of `sortedInput` minus its own can make.
   */
  ghost function PhrasesFrom(dict: Index, sortedInput: string, firsts: set<string>): set<string> {
    set first, second | first in firsts && second in AllMatches(dict, LeftChars(sortedInput, SortKey(first)))
      :: Phrase(first, second)
  }

  /** The answer the combined-words query should give. */
  ghost function CombinedMatches(dict: Index, input: string): set<string> {
    PhrasesFrom(dict, SortKey(input), AllMatches(dict, input))
  }

  lemma PhrasesFromAdd(dict: Index, sortedInput: string, firsts: set<string>, first: string)
    ensures PhrasesFrom(dict, sortedInput, firsts + {first})
         == PhrasesFrom(dict, sortedInput, firsts)
          + set second | second in AllMatches(dict, LeftChars(sortedInput, SortKey(first))) :: Phrase(first, second)
  {
  }

  /**
   * Combined-words query: finds every word of the input, takes its letters
   * out of the sorted input, finds every word of what is left, and joins
   * each such pair into a phrase.
   */
  method FindCombinedWords(input: string, dict: Index) returns (result: set<string>)
    ensures result == CombinedMatches(dict, input)
  {
    var initial := FindAllWords(input, dict);
    var sortedInput := SortKey(input);
    result := {};
    var remaining := initial;
    while remaining != {}
      invariant remaining <= initial
      invariant result == PhrasesFrom(dict, sortedInput, initial - remaining)
      decreases remaining
    {
      var first :| first in remaining;
      var left := LeftChars(sortedInput, SortKey(first));
      var seconds := FindAllWords(left, dict);
      PhrasesFromAdd(dict, sortedInput, initial - remaining, first);
      result := result + set second | second in seconds :: Phrase(first, second);
      assert initial - (remaining - {first}) == (initial - remaining) + {first};
      remaining := remaining - {first};
    }
    assert initial - remaining == initial;
  }

  /** With `left` the rest of `whole` after `part`, `extra` fits in `left` exactly when `part` and `extra` fit in `whole`. */
  lemma FitsInRest(part: multiset<char>, left: multiset<char>, whole: multiset<char>, extra: multiset<char>)
    requires left + part == whole
    ensures extra <= left <==> part + extra <= whole
  {
    if part + extra <= whole {
      forall y ensures extra[y] <= left[y] {
        assert (part + extra)[y] <= whole[y];
      }
    }
  }

  /**
   * For a first word that fits the input, a second word fits the leftover
   * letters exactly when the two words together fit the input.
   */
  lemma LeftoverFits(input: string, first: string, second: string)
    requires multiset(first) <= multiset(input)
    ensures var left := LeftChars(SortKey(input), SortKey(first));
      multiset(second) <= multiset(left) <==> multiset(first) + multiset(second) <= multiset(input)
  {
    SortKeySpec(input);
    SortKeySpec(first);
    var left := LeftChars(SortKey(input), SortKey(first));
    LeftCharsSubtracts(SortKey(input), SortKey(first));
    FitsInRest(multiset(first), multiset(left), multiset(input), multiset(second));
  }

  /**
   * Over a well-formed index, the combined-words answer is exactly the
   * phrases of two stored words whose letters, taken together, all occur in
   * the input. In particular no phrase uses a letter the input lacks, and
   * both orders of a pair appear.
   */
  lemma CombinedExact(dict: Index, input: string)
    requires WellFormed(dict)
    ensures CombinedMatches(dict, input)
         == set first, second | first in Words(dict) && second in Words(dict)
                                && multiset(first) + multiset(second) <= multiset(input)
              :: Phrase(first, second)
  {
    var rhs := set first, second | first in Words(dict) && second in Words(dict)
                                   && multiset(first) + multiset(second) <= multiset(input)
                 :: Phrase(first, second);
    AllMatchesWellFormed(dict, input);
    forall p | p in CombinedMatches(dict, input) ensures p in rhs {
      var first, second :| first in AllMatches(dict, input)
                        && second in AllMatches(dict, LeftChars(SortKey(input), SortKey(first)))
                        && p == Phrase(first, second);
      AllMatchesWellFormed(dict, LeftChars(SortKey(input), SortKey(first)));
      LeftoverFits(input, first, second);
    }
    forall p | p in rhs ensures p in CombinedMatches(dict, input) {
      var first, second :| first in Words(dict) && second in Words(dict)
                        && multiset(first) + multiset(second) <= multiset(input)
                        && p == Phrase(first, second);
      assert multiset(first) <= multiset(input);
      LeftoverFits(input, first, second);
      AllMatchesWellFormed(dict, LeftChars(SortKey(input), SortKey(first)));
    }
  }

  /** The lower-cased dictionary lines. */
  ghost function LowerLines(lines: seq<string>): set<string> {
    set i | 0 <= i < |lines| :: Lower(lines[i])
  }

  /**
   * Over a built index, the two-word answer is exactly the phrases of two
   * lower-cased dictionary lines whose combined letters fit in the input.
   */
  lemma CombinedOfDictionary(lines: seq<string>, input: string)
    ensures CombinedMatches(Build(lines), input)
         == set first, second | first in LowerLines(lines) && second in LowerLines(lines)
                                && multiset(first) + multiset(second) <= multiset(input)
              :: Phrase(first, second)
  {
    var dict := Build(lines);
    CombinedExact(dict, input);
    BuildWords(lines);
    assert Words(dict) == LowerLines(lines);
  }
}
