/**
 * The dictionary index: canonical key -> the set of (lower-cased) dictionary
 * words that sort to that key. It is built once from the dictionary's lines
 * and only read afterwards.
 */
module Dictionary {
  import opened Letters

  type Index = map<string, set<string>>

  /** The words stored under `key`, or none when the key is absent. */
  function Lookup(dict: Index, key: string): set<string> {
    if key in dict then dict[key] else {}
  }

  /** Every word of the index, whatever its key. */
  function Words(dict: Index): set<string> {
    set k, w | k in dict && w in dict[k] :: w
  }

  /** Every stored word sorts to the key it is stored under, and no key holds an empty set. */
  ghost predicate WellFormed(dict: Index) {
    forall k :: k in dict ==> dict[k] != {} && forall w :: w in dict[k] ==> SortKey(w) == k
  }

  /**
   * Files one (already lower-cased) word: it goes into the set at its
   * canonical key, which is created when the key is new. No other key changes.
   */
  function AddWord(dict: Index, word: string): (r: Index)
    ensures r.Keys == dict.Keys + {SortKey(word)}
    ensures Lookup(r, SortKey(word)) == Lookup(dict, SortKey(word)) + {word}
    ensures forall k :: k != SortKey(word) ==> Lookup(r, k) == Lookup(dict, k)
  {
    var key := SortKey(word);
    if key in dict then dict[key := dict[key] + {word}] else dict[key := {word}]
  }

  /** Filing a word keeps every word under its own key. */
  lemma AddWordWellFormed(dict: Index, word: string)
    requires WellFormed(dict)
    ensures WellFormed(AddWord(dict, word))
  {
    var r := AddWord(dict, word);
    forall k | k in r ensures r[k] != {} && forall w :: w in r[k] ==> SortKey(w) == k {
      assert r[k] == Lookup(r, k);
      if k != SortKey(word) {
        assert Lookup(r, k) == Lookup(dict, k);
      }
    }
  }

  /** The index of a whole dictionary: its lines lower-cased and filed one after another. */
  function Build(lines: seq<string>): (r: Index)
    ensures WellFormed(r)
  {
    if lines == [] then map[]
    else
      var prev := Build(lines[..|lines| - 1]);
      AddWordWellFormed(prev, Lower(lines[|lines| - 1]));
      AddWord(prev, Lower(lines[|lines| - 1]))
  }

  /** The lower-cased lines whose canonical key is `key`. */
  function Filed(lines: seq<string>, key: string): set<string> {
    set i | 0 <= i < |lines| && SortKey(Lower(lines[i])) == key :: Lower(lines[i])
  }

  /** Taking one more line adds that line's word when, and only when, it sorts to `key`. */
  lemma FiledSnoc(lines: seq<string>, key: string)
    requires lines != []
    ensures var n := |lines| - 1;
      Filed(lines, key)
        == Filed(lines[..n], key) + (if SortKey(Lower(lines[n])) == key then {Lower(lines[n])} else {})
  {
    var n := |lines| - 1;
    var front := lines[..n];
    var extra: set<string> := if SortKey(Lower(lines[n])) == key then {Lower(lines[n])} else {};
    forall w | w in Filed(lines, key) ensures w in Filed(front, key) + extra {
      var i :| 0 <= i < |lines| && SortKey(Lower(lines[i])) == key && w == Lower(lines[i]);
      if i < n {
        assert front[i] == lines[i];
      }
    }
    forall w | w in Filed(front, key) ensures w in Filed(lines, key) {
      var i :| 0 <= i < |front| && SortKey(Lower(front[i])) == key && w == Lower(front[i]);
      assert lines[i] == front[i];
    }
  }

  /**
   * The words under `key` in a built index are exactly the lower-cased lines
   * whose canonical key is `key`; in particular every line can be found again
   * under the key of its lower-cased form.
   */
  lemma {:induction false} BuildExact(lines: seq<string>, key: string)
    ensures Lookup(Build(lines), key) == Filed(lines, key)
  {
    if lines != [] {
      var n := |lines| - 1;
      BuildExact(lines[..n], key);
      FiledSnoc(lines, key);
    }
  }

  /** Every word of a built index is a lower-cased dictionary line. */
  lemma BuildWordsFromLines(lines: seq<string>, w: string)
    requires w in Words(Build(lines))
    ensures exists i :: 0 <= i < |lines| && w == Lower(lines[i])
  {
    var dict := Build(lines);
    var k :| k in dict && w in dict[k];
    BuildExact(lines, k);
    assert w in Filed(lines, k);
  }

  /** Every lower-cased dictionary line is a word of the built index. */
  lemma BuildWordsOfLine(lines: seq<string>, i: nat)
    requires i < |lines|
    ensures Lower(lines[i]) in Words(Build(lines))
  {
    var dict := Build(lines);
    var k := SortKey(Lower(lines[i]));
    BuildExact(lines, k);
    assert Lower(lines[i]) in Filed(lines, k);
    assert Lower(lines[i]) in dict[k];
  }

  /** The words of a built index are exactly the lower-cased dictionary lines. */
  lemma BuildWords(lines: seq<string>)
    ensures Words(Build(lines)) == set i | 0 <= i < |lines| :: Lower(lines[i])
  {
    forall w | w in Words(Build(lines)) ensures w in set i | 0 <= i < |lines| :: Lower(lines[i]) {
      BuildWordsFromLines(lines, w);
    }
    forall i | 0 <= i < |lines| ensures Lower(lines[i]) in Words(Build(lines)) {
      BuildWordsOfLine(lines, i);
    }
  }
}
