# Anagram solver: index and subset search

This project is a Dafny model of the core of `AnagramSolver.java`, a command-line solver for sub-anagrams. Given a string of letters and a dictionary, it can report three things:

- the longest dictionary words that can be spelt from the letters;
- every dictionary word that can be spelt from the letters;
- every two-word phrase whose words together can be spelt from them.

A letter may be used at most as many times as it occurs in the input.

The model has five modules:

- `Letters`: canonical keys, that is, a string's characters in sorted order (`SortKey`). It also holds lower-casing and the one-character deletions the search is built from. The original program sorts with a quicksort routine that is not part of this model. The model stands in an insertion sort and proves that any routine returning a sorted permutation returns the same string (`SortedUnique`), so the choice of routine does not matter.
- `Dictionary`: the index, a map from canonical key to the set of lower-cased dictionary words with that key. It is built by folding the dictionary's lines one at a time (`AddWord`, `Build`).
- `Subtract`: the leftover letters of a sorted key after a shorter sorted key is taken out (`LeftChars`).
- `Search`: the breadth-first deletion search.
  - State: a first-in-first-out queue of keys, a visited set, and a ghost set of dequeued keys.
  - All-words query (`FindAllWords`): drains the queue.
  - Longest-word query (`FindLongestWord`): stops at the first dequeued key the index holds.
  - Termination: the queue's weight, the sum over its keys of (length + 1)!, drops at every step.
- `Combine`: the two-word query (`FindCombinedWords`).

The queries are stated against reference definitions written directly in terms of letter multisets:

- `AllMatches`: every word stored under a sorted key whose letters fit in the input.
- `IsLongestKey`: a fitting key of the index that no other fitting key outgrows.
- `LongestMatches`: every word under such a longest key.
- `CombinedMatches`: the two-word phrases.

Over an index that `Build` produced, lemmas restate the all-words answer, the set of all longest words (`LongestMatches`) and the two-word answer in terms of the dictionary lines alone (`AllWordsOfDictionary`, `LongestOfDictionary`, `CombinedOfDictionary`).

## Model

| member | source | states |
|---|---|---|
| Letters.SortKeySpec | AnagramSolver.java:53 | The canonical key of a word is sorted and has exactly the word's letters, with multiplicity. |
| Letters.SortedUnique | AnagramSolver.java:53 | Two sorted strings with the same letters are equal, so every correct sorting routine yields the same key. |
| Letters.SortKeyAnagram | AnagramSolver.java:31-36 | Two words share an index key exactly when they are anagrams, i.e. have the same letter multiset. |
| Letters.SortKeyIdempotent | AnagramSolver.java:159 | Sorting an already sorted key gives the same key back, as happens when the two-word query passes a sorted leftover (line 210) to the all-words search. |
| Letters.LowerSpec | AnagramSolver.java:50 | Lower-casing a dictionary line keeps its length, maps each ASCII capital to its lower-case letter, keeps every other character, and leaves no capital behind. |
| Letters.LowerIdempotent | AnagramSolver.java:50 | Lower-casing an already lower-cased line changes nothing. |
| Letters.DeleteSpec | AnagramSolver.java:134 | Cutting out the character at position i loses exactly that letter, and a sorted key stays sorted. |
| Letters.DeletionAbove | AnagramSolver.java:133-138 | If a key fits strictly inside another key's letters, some single deletion from the larger key still contains it. Hence the deletion search can reach every smaller subset. |
| Dictionary.AddWord | AnagramSolver.java:52-63 | Filing a word adds its key if new, puts the word into that key's set, and leaves every other key's set unchanged. |
| Dictionary.AddWordWellFormed | AnagramSolver.java:54-63 | Filing a word keeps every stored word under its own canonical key, with no empty sets. |
| Dictionary.Build | AnagramSolver.java:40-65 | The index built from all lines is well formed. |
| Dictionary.BuildExact | AnagramSolver.java:47-65 | The set under any key of the built index is exactly the lower-cased lines whose canonical key is that key. |
| Dictionary.BuildWords | AnagramSolver.java:47-65 | The words of the built index are exactly the lower-cased dictionary lines. |
| Subtract.LeftCharsShape | AnagramSolver.java:229-261 | For any inputs, the leftover takes only letters of the longer string, is sorted when the longer string is, and is the longer string itself when nothing is subtracted. |
| Subtract.LeftCharsKeeps | AnagramSolver.java:242-260 | The leftover is the longer string with some positions deleted: the walk keeps the unmatched letters in their order. |
| Subtract.LeftCharsSubtracts | AnagramSolver.java:219-228 | For sorted strings where the shorter fits inside the longer, leftover plus shorter is exactly the longer multiset, and the leftover has length difference many letters. |
| Subtract.SortedFitsIffDeletion | AnagramSolver.java:119-120 | For sorted strings, one fits inside the other's letters exactly when it is the other with some positions deleted. Hence the search's invariant that every key is sorted and fits in the sorted input says that every key is that input with positions deleted. |
| Search.FreshChildrenOrder | AnagramSolver.java:133-137 | Expanding "ab" with nothing visited appends "b" (position 0 deleted) before "a". |
| Search.Expand | AnagramSolver.java:133-138 | The inner loop appends the one-character deletions not visited before, each once, in increasing order of the deleted position (`FreshChildren`). It marks every deletion visited, keeps the old queue as a prefix, and every new entry is one letter shorter. |
| Search.StepState | AnagramSolver.java:124-138 | One dequeue-and-expand step preserves the search invariant. Visited keys are the done keys plus the queued ones, the queue has no duplicates, every visited key is sorted and fits in the input, and every child of a done key is visited. |
| Search.LevelStep | AnagramSolver.java:119-138 | The step keeps the queue breadth-first: lengths never increase along the queue and differ by at most one. |
| Search.ExpandShrinksWeight | AnagramSolver.java:124-138 | The step strictly lowers the queue's factorial weight, so the search loop terminates. |
| Search.ReachedBelow | AnagramSolver.java:122-123 | When all visited keys longer than b are done, every sorted subset of a done key that is longer than b is done as well. |
| Search.DrainedExact | AnagramSolver.java:165-180 | Once the queue is empty, the done keys are exactly the sorted strings whose letters fit in the input. |
| Search.LongerDone | AnagramSolver.java:124-130 | While the queue is breadth-first, every fitting key longer than the front of the queue has already been dequeued. |
| Search.FindAllWords | AnagramSolver.java:154-182 | The all-words answer is exactly the set of words stored under a sorted key that fits in the input. |
| Search.FoundIsLongest | AnagramSolver.java:127-129 | The first dequeued key the index holds is a fitting key that no fitting key of the index outgrows. |
| Search.NoneFits | AnagramSolver.java:124-140 | A search that drains without meeting an index key proves that no index key fits, so the empty answer is correct. |
| Search.FindLongestWord | AnagramSolver.java:111-141 | The longest-word answer is the word set of one longest fitting key, or empty when no key of the index fits. Over a well-formed index it is empty only in that case (`LongestAmongAll`). |
| Search.AllMatchesWellFormed | AnagramSolver.java:144-153 | Over a well-formed index, a word is in the all-words answer exactly when it is stored and its letters fit in the input. |
| Search.AllWordsOfDictionary | AnagramSolver.java:151-152 | Over a built index, the all-words answer is exactly the set of lower-cased dictionary lines whose letters fit in the input. |
| Search.AllWordsMonotone | AnagramSolver.java:47-65 | Adding a line to the dictionary never removes a word from an all-words answer. |
| Search.LongestAmongAll | AnagramSolver.java:162-164 | Over a well-formed index, the longest-word answer is part of the all-words answer and no all-words word is longer. The longest answer is empty exactly when the all-words answer is. |
| Search.TieLost | AnagramSolver.java:107-109 | Over a well-formed index with two different longest fitting keys, no answer of the longest-word query holds all the longest words. |
| Search.LongestMissesTie | AnagramSolver.java:107-109 | For the index {at, ax} and the input "tax", no answer the longest-word query can give equals the set of all longest words. |
| Search.LongestResultWithin | AnagramSolver.java:107-109 | Any answer of the longest-word query is part of the set of all longest words. |
| Search.FindLongestWords | AnagramSolver.java:107-109 | The corrected query finishes the level of its first match and answers exactly the words under every longest fitting key. |
| Search.LongestMatchesMaximal | AnagramSolver.java:107-109 | Over a well-formed index, the words under all longest keys are exactly the all-words words that no all-words word outgrows. |
| Search.LongestOfDictionary | AnagramSolver.java:107-109 | Over a built index, the words under all longest keys are exactly the lower-cased dictionary lines that fit in the input and that no fitting line outgrows. |
| Combine.FindCombinedWords | AnagramSolver.java:196-216 | The two-word answer is exactly the set of phrases "first second". Here first is an all-words word of the input and second is an all-words word of the input's leftover after first. |
| Combine.LeftoverFits | AnagramSolver.java:202-210 | For a first word that fits, a second word fits the leftover letters exactly when both words together fit the input. |
| Combine.CombinedExact | AnagramSolver.java:186-195 | Over a well-formed index, the two-word answer is exactly the phrases of two stored words whose combined letters fit in the input. In particular no phrase uses a letter the input lacks, and both orders of a pair appear. |
| Combine.CombinedOfDictionary | AnagramSolver.java:186-195 | Over a built index, the two-word answer is exactly the phrases of two lower-cased dictionary lines whose combined letters fit in the input. |

## Left out

- Reading the dictionary file (AnagramSolver.java:43-48) is not modelled. The index is built from a sequence of lines. The I/O failure path that prints a message and returns null (lines 68-71) is not modelled either.
- `takeInput` (lines 80-97) and `main` (lines 268-306) are console interaction and are left out. With them go the 16-character input length (`CHAR_LENGTH`) and the command dispatch. The queries accept inputs of any length.
- The quicksort routine used for canonical keys is not part of this model. `SortKey` stands in for it, and `SortedUnique` shows that any sorting routine gives the same key.
- Lower-casing is modelled for the ASCII letters A-Z only. Java's locale- and Unicode-aware `toLowerCase` is not modelled.
- Hash-table and hash-set iteration order is not modelled. The two-word query picks its next first word arbitrarily, and since results are sets the order does not matter.
- Sharing is not modelled. In the source, the longest-word query returns the index's own set object, and reading a dictionary line into an existing key mutates that shared set. The model uses immutable values.
- Search.FindLongestWord: states that the answer is the word set of some longest fitting key. It does not say which one. When several longest keys tie, the FIFO order of the deletions decides. `Expand` states that order, but the longest-word contract does not follow it through to say which tied key wins.
- Strings are modelled as sequences of Unicode code points. Java's `length`, `substring`, `charAt` and the sort work on UTF-16 code units, so text outside the Basic Multilingual Plane is not modelled. Such text is stored as surrogate pairs, and two strings with different code points can share one multiset of code units.
- Running time and memory are not modelled. The search is only proved to terminate.
- Subtract.LeftCharsShape: for arguments that are not sorted, or where the shorter string does not fit inside the longer one, the model computes what the loop at lines 242-253 computes. It states only that the result is the longer string with some positions deleted (`LeftCharsKeeps`) and draws its letters from it. The walk then stalls at the first unmatched letter.
- Nothing is left out for blank dictionary lines. A blank line files the empty word under the key "", and both searches dequeue "" last. So any input, including an empty one, can return the empty word when the dictionary has a blank line. The model follows the code here, and an empty input does not always give an empty answer.

## Findings

| source | as written | input that shows it | evidently intended | confidence | as-written member | corrected member |
|---|---|---|---|---|---|---|
| AnagramSolver.java:107-109, 127-129 | The longest-word query returns the word set of the first index key it dequeues and stops. Longest words stored under other keys of the same length are never returned. | Index {at: {at}, ax: {ax}}, input "tax": both "at" and "ax" are longest, but the answer holds only one of them. | The doc comment promises that when several longest words have the same length, all of them are in the answer. | high (not executed) | Search.FindLongestWord, Search.LongestMissesTie | Search.FindLongestWords |
