/** The vocabulary list screen: the discovered words of a level, the category
    chips and the search/category filter, all computed from the loaded lists. */
module VocabularyScreen {
  import opened Common
  import opened VocabularyManager

  const ALL := "all"

  /** `loadVocabulary`: the level's words whose id has been discovered. */
  function DiscoveredWords(words: seq<Word>, discoveredIds: seq<string>): (r: seq<Word>)
    ensures IsSubseq(r, words)
    ensures forall w :: w in r ==> w.id in discoveredIds
    ensures forall w: Word :: w.id in discoveredIds ==> multiset(r)[w] == multiset(words)[w]
  {
    Filter(words, (w: Word) => w.id in discoveredIds)
  }

  /** The non-empty categories of the listed words, in first-seen order. */
  function CategoryNames(discovered: seq<Word>): seq<string>
  {
    seq(|discovered|, i requires 0 <= i < |discovered| => discovered[i].category)
  }

  /** The chips: 'all', then each non-empty category once. */
  function Categories(discovered: seq<Word>): (r: seq<string>)
    ensures |r| >= 1 && r[0] == ALL
    ensures Distinct(r[1..])
    ensures forall c :: c in r[1..] <==> c != "" && exists w :: w in discovered && w.category == c
  {
    var names := CategoryNames(discovered);
    var kept := Filter(names, (c: string) => c != "");
    var unique := Dedup(kept);
    assert forall c :: c in names <==> exists w :: w in discovered && w.category == c by {
      forall c ensures c in names <==> exists w :: w in discovered && w.category == c {
        if c in names {
          var i :| 0 <= i < |names| && names[i] == c;
          assert discovered[i] in discovered;
        }
        if exists w :: w in discovered && w.category == c {
          var w :| w in discovered && w.category == c;
          var i :| 0 <= i < |discovered| && discovered[i] == w;
          assert names[i] == c;
        }
      }
    }
    [ALL] + unique
  }

  /** The chip list repeats an entry exactly when some word's category is
      itself 'all'. */
  lemma CategoriesDistinctIff(discovered: seq<Word>)
    ensures Distinct(Categories(discovered)) <==> forall w :: w in discovered ==> w.category != ALL
  {
    var r := Categories(discovered);
    if forall w :: w in discovered ==> w.category != ALL {
      assert ALL !in r[1..];
      forall i, j | 0 <= i < j < |r| ensures r[i] != r[j] {
        if i == 0 {
          assert r[j] == r[1..][j - 1];
        } else {
          assert r[i] == r[1..][i - 1] && r[j] == r[1..][j - 1];
        }
      }
    } else {
      var w :| w in discovered && w.category == ALL;
      assert ALL in r[1..];
      var j :| 0 <= j < |r[1..]| && r[1..][j] == ALL;
      assert r[0] == r[j + 1];
    }
  }

  /** The search test: the lower-cased term occurs in the lower-cased word or
      definition. */
  predicate MatchesSearch(w: Word, searchTerm: string)
  {
    IsSubstring(Lower(searchTerm), Lower(w.word)) || IsSubstring(Lower(searchTerm), Lower(w.definition))
  }

  predicate MatchesCategory(w: Word, filterCategory: string)
  {
    filterCategory == ALL || w.category == filterCategory
  }

  /** `filteredWords`. */
  function FilteredWords(discovered: seq<Word>, searchTerm: string, filterCategory: string): (r: seq<Word>)
    ensures IsSubseq(r, discovered)
    ensures forall w :: w in r ==> MatchesSearch(w, searchTerm)
    ensures filterCategory != ALL ==> forall w :: w in r ==> w.category == filterCategory
    ensures forall w :: w in discovered && MatchesSearch(w, searchTerm) && MatchesCategory(w, filterCategory) ==> w in r
  {
    Filter(discovered, (w: Word) => MatchesSearch(w, searchTerm) && MatchesCategory(w, filterCategory))
  }

  /** With an empty search and the 'all' chip, nothing is filtered out. */
  lemma NoFilterKeepsAll(discovered: seq<Word>)
    ensures FilteredWords(discovered, "", ALL) == discovered
  {
    forall i | 0 <= i < |discovered| ensures MatchesSearch(discovered[i], "") {
      assert Lower("") == "";
      EmptyIsSubstring(Lower(discovered[i].word));
    }
    FilterAll(discovered, (w: Word) => MatchesSearch(w, "") && MatchesCategory(w, ALL));
  }

  /** Search ignores case: the term matches whatever its letters' case. */
  lemma SearchIgnoresCase(w: Word, searchTerm: string)
    ensures MatchesSearch(w, searchTerm) <==> MatchesSearch(w, Upper(searchTerm))
  {
    assert Lower(Upper(searchTerm)) == Lower(searchTerm) by {
      forall i | 0 <= i < |searchTerm| ensures LowerChar(UpperChar(searchTerm[i])) == LowerChar(searchTerm[i]) {
      }
    }
  }

  /** `progress`: the rounded share of the level's words discovered, 0 for an
      empty level. */
  function LevelProgress(discovered: seq<Word>, allWords: seq<Word>): (percent: nat)
    ensures allWords == [] ==> percent == 0
    ensures allWords != [] ==> IsRoundedPercent(percent, |discovered|, |allWords|)
    ensures |discovered| <= |allWords| ==> percent <= 100
  {
    if |allWords| > 0 then
      RoundPercentBounds(|discovered|, |allWords|);
      RoundPercent(|discovered|, |allWords|)
    else 0
  }
}
