/** The SpellCorrector: a word-frequency model (word counts and their total,
    fixed at construction), the probability and known-word queries over it,
    and the staged search find_correction_candidates, which tries the word
    itself, then its known level-one edits, then its known level-two edits,
    and otherwise gives the word back. */
module Corrector {

  import opened Edits

  /** The model as the source holds it once loaded: word_freq_map and
      total_word_count.  Neither field is changed after construction. */
  datatype SpellCorrector = SpellCorrector(wordFreqMap: map<Word, nat>, totalWordCount: nat)

  /** The one error the queries below can raise: dividing by a zero total. */
  datatype Error = ZeroDivisionError

  datatype Result<T> = Success(value: T) | Failure(error: Error)

  // ---------------------------------------------------------------------------
  // Construction: the total of all counts
  // ---------------------------------------------------------------------------

  /** Sum of the counts of a map, taking its keys in any order. */
  ghost function SumCounts(m: map<Word, nat>): (s: nat)
    ensures forall j :: j in m ==> m[j] <= s
    decreases m.Keys
  {
    if m == map[] then 0
    else
      var k :| k in m;
      assert forall j :: j in m && j != k ==> j in m - {k} && (m - {k})[j] == m[j];
      m[k] + SumCounts(m - {k})
  }

  /** The sum does not depend on the order: any key can be taken out first. */
  lemma {:induction false} SumCountsRemove(m: map<Word, nat>, k: Word)
    requires k in m
    ensures SumCounts(m) == m[k] + SumCounts(m - {k})
    decreases m.Keys
  {
    var j :| j in m && SumCounts(m) == m[j] + SumCounts(m - {j});
    if j != k {
      var mj, mk := m - {j}, m - {k};
      SumCountsRemove(mj, k);
      SumCountsRemove(mk, j);
      assert mj - {k} == mk - {j};
    }
  }

  /** The total is zero exactly when every count is zero. */
  lemma {:induction false} SumZeroIff(m: map<Word, nat>)
    ensures SumCounts(m) == 0 <==> forall k :: k in m ==> m[k] == 0
    decreases m.Keys
  {
    if m != map[] {
      var k :| k in m;
      SumCountsRemove(m, k);
      SumZeroIff(m - {k});
      if SumCounts(m) == 0 {
        forall j | j in m ensures m[j] == 0 {
          if j != k { assert j in m - {k}; }
        }
      }
    }
  }

  /** SpellCorrector.__init__ after loading: total_word_count is the sum of
      the counts. */
  ghost predicate Valid(c: SpellCorrector) {
    c.totalWordCount == SumCounts(c.wordFreqMap)
  }

  /** SpellCorrector.__init__ given the already loaded map. */
  ghost function NewSpellCorrector(wordFreqMap: map<Word, nat>): (c: SpellCorrector)
    ensures Valid(c) && c.wordFreqMap == wordFreqMap
    ensures forall w :: w in wordFreqMap ==> wordFreqMap[w] <= c.totalWordCount
    ensures c.totalWordCount == 0 <==> forall w :: w in wordFreqMap ==> wordFreqMap[w] == 0
  {
    SumZeroIff(wordFreqMap);
    SpellCorrector(wordFreqMap, SumCounts(wordFreqMap))
  }

  // ---------------------------------------------------------------------------
  // Queries
  // ---------------------------------------------------------------------------

  /** word_freq_map.get(word, 0) */
  function Count(c: SpellCorrector, word: Word): (n: nat)
    ensures n > 0 ==> word in c.wordFreqMap
  {
    if word in c.wordFreqMap then c.wordFreqMap[word] else 0
  }

  /** get_word_probability: count over total, zero for an unknown word.  The
      division by zero of an empty or all-zero model is excluded here and
      reported as an Error by RankCandidates. */
  function GetWordProbability(c: SpellCorrector, word: Word): (p: real)
    requires c.totalWordCount > 0
    ensures 0.0 <= p
    ensures word !in c.wordFreqMap ==> p == 0.0
    ensures Count(c, word) <= c.totalWordCount ==> p <= 1.0
  {
    Count(c, word) as real / c.totalWordCount as real
  }

  /** In a model built by NewSpellCorrector every probability is at most one. */
  lemma ProbabilityAtMostOne(c: SpellCorrector, word: Word)
    requires Valid(c) && c.totalWordCount > 0
    ensures GetWordProbability(c, word) <= 1.0
  {
  }

  /** Ordering words by probability is ordering them by count. */
  lemma ProbabilityOrderIsCountOrder(c: SpellCorrector, a: Word, b: Word)
    requires c.totalWordCount > 0
    ensures GetWordProbability(c, a) >= GetWordProbability(c, b) <==> Count(c, a) >= Count(c, b)
  {
    QuotientOrder(Count(c, a) as real, Count(c, b) as real, c.totalWordCount as real);
  }

  /** Dividing by a positive number keeps the order. */
  lemma QuotientOrder(x: real, y: real, t: real)
    requires t > 0.0
    ensures x / t >= y / t <==> x >= y
  {
    var qx, qy := x / t, y / t;
    assert qx * t == x && qy * t == y;
    assert (qx - qy) * t == x - y;
    ProductSign(qx - qy, t);
  }

  /** Multiplying by a positive number keeps the sign. */
  lemma ProductSign(z: real, t: real)
    requires t > 0.0
    ensures z * t >= 0.0 <==> z >= 0.0
  {
    if z < 0.0 {
      assert (-z) * t > 0.0;
    }
  }

  /** filter_known_words: the words of the set that the model knows. */
  function FilterKnownWords(c: SpellCorrector, words: set<Word>): (r: set<Word>)
    ensures r <= words && r <= c.wordFreqMap.Keys
    ensures forall w :: w in words && w in c.wordFreqMap ==> w in r
  {
    set w | w in words && w in c.wordFreqMap
  }

  /** Filtering twice is filtering once. */
  lemma FilterKnownIdempotent(c: SpellCorrector, words: set<Word>)
    ensures FilterKnownWords(c, FilterKnownWords(c, words)) == FilterKnownWords(c, words)
  {
  }

  /** A bigger set has at least the known words of a smaller one. */
  lemma FilterKnownMonotone(c: SpellCorrector, small: set<Word>, big: set<Word>)
    requires small <= big
    ensures FilterKnownWords(c, small) <= FilterKnownWords(c, big)
  {
  }

  // ---------------------------------------------------------------------------
  // Ranking: sorted(list(candidates), key=get_word_probability, reverse=True)
  // ---------------------------------------------------------------------------

  predicate Distinct(r: seq<Word>) {
    forall i, j :: 0 <= i < j < |r| ==> r[i] != r[j]
  }

  /** r lists the set s, each word once, from most to least probable.  Equal
      probabilities may come in any order: the source sorts a list made from a
      set, whose order Python does not fix. */
  ghost predicate IsRanking(c: SpellCorrector, s: set<Word>, r: seq<Word>)
    requires c.totalWordCount > 0
  {
    && Distinct(r)
    && |r| == |s|
    && (forall w :: w in r <==> w in s)
    && forall i, j :: 0 <= i < j < |r| ==> GetWordProbability(c, r[i]) >= GetWordProbability(c, r[j])
  }

  /** A non-empty candidate set has a most probable word. */
  lemma {:induction false} MostProbableExists(c: SpellCorrector, s: set<Word>)
    requires c.totalWordCount > 0 && s != {}
    ensures exists x :: x in s && forall y :: y in s ==> GetWordProbability(c, y) <= GetWordProbability(c, x)
    decreases s
  {
    var z :| z in s;
    if s - {z} == {} {
      assert s == {z};
    } else {
      MostProbableExists(c, s - {z});
      var x :| x in s - {z} && forall y :: y in s - {z} ==> GetWordProbability(c, y) <= GetWordProbability(c, x);
      if GetWordProbability(c, z) <= GetWordProbability(c, x) {
        assert forall y :: y in s ==> GetWordProbability(c, y) <= GetWordProbability(c, x);
      } else {
        assert forall y :: y in s ==> GetWordProbability(c, y) <= GetWordProbability(c, z);
      }
    }
  }

  /** Some ranking of s: a most probable word first, then a ranking of the rest. */
  ghost function RankByProbability(c: SpellCorrector, s: set<Word>): (r: seq<Word>)
    requires c.totalWordCount > 0
    ensures IsRanking(c, s, r)
    decreases s
  {
    if s == {} then []
    else
      MostProbableExists(c, s);
      var x :| x in s && forall y :: y in s ==> GetWordProbability(c, y) <= GetWordProbability(c, x);
      var rest := RankByProbability(c, s - {x});
      assert forall w :: w in [x] + rest <==> w in s;
      [x] + rest
  }

  /** The sort as the corrector calls it on a non-empty stage: the key raises
      ZeroDivisionError when the total is zero. */
  ghost function RankCandidates(c: SpellCorrector, s: set<Word>): (r: Result<seq<Word>>)
    requires s != {}
    ensures r.Failure? <==> c.totalWordCount == 0
    ensures r.Success? ==> IsRanking(c, s, r.value) && |r.value| == |s| > 0
  {
    if c.totalWordCount == 0 then Failure(ZeroDivisionError)
    else Success(RankByProbability(c, s))
  }

  /** A ranking orders its words by count as well. */
  lemma RankingIsByCount(c: SpellCorrector, s: set<Word>, r: seq<Word>)
    requires c.totalWordCount > 0 && IsRanking(c, s, r)
    ensures forall i, j :: 0 <= i < j < |r| ==> Count(c, r[i]) >= Count(c, r[j])
  {
    forall i, j | 0 <= i < j < |r| ensures Count(c, r[i]) >= Count(c, r[j]) {
      ProbabilityOrderIsCountOrder(c, r[i], r[j]);
    }
  }

  /** The only ranking of a one-word set is that word. */
  lemma RankingOfSingleton(c: SpellCorrector, w: Word, r: seq<Word>)
    requires c.totalWordCount > 0 && IsRanking(c, {w}, r)
    ensures r == [w]
  {
    assert w in r;
  }

  // ---------------------------------------------------------------------------
  // The staged search
  // ---------------------------------------------------------------------------

  /** The known words of each stage, in search order. */
  function KnownOriginal(c: SpellCorrector, word: Word): (s: set<Word>)
    ensures s <= {word}
    ensures s == {} <==> word !in c.wordFreqMap
  {
    FilterKnownWords(c, {word})
  }

  function KnownLevelOne(c: SpellCorrector, word: Word): (s: set<Word>)
    ensures forall w :: w in s <==> w in LevelOneEdits(TeluguCharset, word) && w in c.wordFreqMap
  {
    FilterKnownWords(c, LevelOneEdits(TeluguCharset, word))
  }

  function KnownLevelTwo(c: SpellCorrector, word: Word): (s: set<Word>)
    ensures forall w :: w in s <==> w in LevelTwoEdits(TeluguCharset, word) && w in c.wordFreqMap
  {
    FilterKnownWords(c, LevelTwoEdits(TeluguCharset, word))
  }

  /** The known words of the first stage that has any, in the order exact
      word, level one, level two; empty when no stage has a known word. */
  function AnsweringStage(c: SpellCorrector, word: Word): (s: set<Word>)
    ensures s <= c.wordFreqMap.Keys
    ensures s == {} <==> KnownOriginal(c, word) == {} && KnownLevelOne(c, word) == {} && KnownLevelTwo(c, word) == {}
  {
    if KnownOriginal(c, word) != {} then KnownOriginal(c, word)
    else if KnownLevelOne(c, word) != {} then KnownLevelOne(c, word)
    else KnownLevelTwo(c, word)
  }

  /** find_correction_candidates: the first non-empty stage, ranked; the word
      itself when every stage is empty. */
  ghost function FindCorrectionCandidates(c: SpellCorrector, word: Word): (r: Result<seq<Word>>)
    ensures r.Failure? <==> c.totalWordCount == 0 && AnsweringStage(c, word) != {}
    ensures r.Success? ==> |r.value| > 0
    ensures AnsweringStage(c, word) == {} ==> r == Success([word])
    ensures c.totalWordCount > 0 && AnsweringStage(c, word) != {} ==>
              r.Success? && IsRanking(c, AnsweringStage(c, word), r.value)
  {
    var knownOriginal := KnownOriginal(c, word);
    if knownOriginal != {} then RankCandidates(c, knownOriginal)
    else
      var levelOne := KnownLevelOne(c, word);
      if levelOne != {} then RankCandidates(c, levelOne)
      else
        var levelTwo := KnownLevelTwo(c, word);
        if levelTwo != {} then RankCandidates(c, levelTwo)
        else Success([word])
  }

  /** A known word is its own only candidate. */
  lemma ExactMatch(c: SpellCorrector, word: Word)
    requires word in c.wordFreqMap && c.totalWordCount > 0
    ensures FindCorrectionCandidates(c, word) == Success([word])
  {
    assert KnownOriginal(c, word) == {word};
    RankingOfSingleton(c, word, RankByProbability(c, {word}));
  }

  /** With no known word in any stage the word comes back alone. */
  lemma Fallback(c: SpellCorrector, word: Word)
    requires word !in c.wordFreqMap
    requires forall w :: w in LevelOneEdits(TeluguCharset, word) ==> w !in c.wordFreqMap
    requires forall w :: w in LevelTwoEdits(TeluguCharset, word) ==> w !in c.wordFreqMap
    ensures FindCorrectionCandidates(c, word) == Success([word])
  {
    assert KnownOriginal(c, word) == {};
    assert KnownLevelOne(c, word) == {};
    assert KnownLevelTwo(c, word) == {};
  }

  /** An unknown word with a known level-one edit gets exactly its known
      level-one edits, each once, most probable (most frequent) first. */
  lemma LevelOneStage(c: SpellCorrector, word: Word)
    requires c.totalWordCount > 0
    requires word !in c.wordFreqMap && KnownLevelOne(c, word) != {}
    ensures var r := FindCorrectionCandidates(c, word);
            && r.Success?
            && IsRanking(c, KnownLevelOne(c, word), r.value)
            && (forall i, j :: 0 <= i < j < |r.value| ==> Count(c, r.value[i]) >= Count(c, r.value[j]))
            && (forall w :: w in r.value <==> w in LevelOneEdits(TeluguCharset, word) && w in c.wordFreqMap)
  {
    assert KnownOriginal(c, word) == {};
    var r := FindCorrectionCandidates(c, word);
    RankingIsByCount(c, KnownLevelOne(c, word), r.value);
  }

  /** Level-two candidates are returned only when no level-one edit is known:
      any answer holding a word that is neither the word itself nor a level-one
      edit comes from an empty level-one stage. */
  lemma LevelTwoOnlyAfterLevelOne(c: SpellCorrector, word: Word, w: Word)
    requires FindCorrectionCandidates(c, word).Success?
    requires w in FindCorrectionCandidates(c, word).value
    requires w != word && w !in LevelOneEdits(TeluguCharset, word)
    ensures KnownOriginal(c, word) == {} && KnownLevelOne(c, word) == {}
    ensures w in KnownLevelTwo(c, word)
  {
    AnswerWithinStage(c, word, w);
    OutsideLevelOneComesLate(c, word, w);
  }

  lemma OutsideLevelOneComesLate(c: SpellCorrector, word: Word, w: Word)
    requires w in AnsweringStage(c, word)
    requires w != word && w !in KnownLevelOne(c, word)
    ensures KnownOriginal(c, word) == {} && KnownLevelOne(c, word) == {}
    ensures w in KnownLevelTwo(c, word)
  {
    FirstNonEmptyHolding(KnownOriginal(c, word), KnownLevelOne(c, word), KnownLevelTwo(c, word), word, w);
  }

  /** A word of the first non-empty of three sets that is in neither of the
      first two comes from the third, and the first two are empty. */
  lemma FirstNonEmptyHolding(s0: set<Word>, s1: set<Word>, s2: set<Word>, v: Word, w: Word)
    requires w in (if s0 != {} then s0 else if s1 != {} then s1 else s2)
    requires s0 <= {v} && w != v && w !in s1
    ensures s0 == {} && s1 == {} && w in s2
  {
  }

  /** Any offered word other than the word itself is a known word of the
      answering stage. */
  lemma AnswerWithinStage(c: SpellCorrector, word: Word, w: Word)
    requires FindCorrectionCandidates(c, word).Success?
    requires w in FindCorrectionCandidates(c, word).value && w != word
    ensures w in AnsweringStage(c, word)
  {
    var s := AnsweringStage(c, word);
    assert s != {} && c.totalWordCount > 0;
  }

  /** Closeness beats frequency: when an unknown word has a known level-one
      edit near, a known word reachable only at level two is never offered,
      whatever its count, and the level-one word is. */
  lemma CloserStageWins(c: SpellCorrector, word: Word, near: Word, far: Word)
    requires c.totalWordCount > 0 && word !in c.wordFreqMap
    requires near in LevelOneEdits(TeluguCharset, word) && near in c.wordFreqMap
    requires far in LevelTwoEdits(TeluguCharset, word) && far !in LevelOneEdits(TeluguCharset, word)
    requires far in c.wordFreqMap
    ensures var r := FindCorrectionCandidates(c, word);
            r.Success? && near in r.value && far !in r.value
  {
    assert near in KnownLevelOne(c, word);
    LevelOneStage(c, word);
  }

  /** A model built from positive counts, as the model builder writes them,
      never divides by zero. */
  lemma PositiveCountsNeverFail(c: SpellCorrector, word: Word)
    requires Valid(c)
    requires forall w :: w in c.wordFreqMap ==> c.wordFreqMap[w] > 0
    ensures FindCorrectionCandidates(c, word).Success?
  {
    if c.wordFreqMap == map[] {
      assert KnownOriginal(c, word) == {} && KnownLevelOne(c, word) == {} && KnownLevelTwo(c, word) == {};
    } else {
      var k :| k in c.wordFreqMap;
      assert c.wordFreqMap[k] <= c.totalWordCount;
    }
  }

  /** With an all-zero model and a known word the sort key divides by zero. */
  lemma ZeroTotalFails(c: SpellCorrector, word: Word)
    requires c.totalWordCount == 0 && word in c.wordFreqMap
    ensures FindCorrectionCandidates(c, word) == Failure(ZeroDivisionError)
  {
    assert word in KnownOriginal(c, word);
  }
}
