/** Candidate generation of the spell checker: the level-one edit set of a word
    (deletions, adjacent transpositions, replacements and insertions over an
    alphabet) and the level-two set obtained by applying the level-one generator
    to every level-one edit.  The generators take the alphabet as a parameter;
    the spell checker passes TeluguCharset. */
module Edits {

  type Word = seq<char>

  /** The characters tried for replacement and insertion, in the order of the
      source constant.  It holds 69 code points, U+0C01 to U+0C60, of which only
      66 are distinct: the conjunct KSSA (KA, VIRAMA, SSA) is spelled out inside
      the string, so KA, SSA and VIRAMA each occur twice.  Written with escapes
      because most entries are combining marks. */
  const TeluguCharset: seq<char> :=
    "\U{0C05}\U{0C06}\U{0C07}\U{0C08}\U{0C09}\U{0C0A}\U{0C0B}\U{0C60}\U{0C0E}\U{0C0F}"
    + "\U{0C10}\U{0C12}\U{0C13}\U{0C14}\U{0C15}\U{0C16}\U{0C17}\U{0C18}\U{0C19}\U{0C1A}"
    + "\U{0C1B}\U{0C1C}\U{0C1D}\U{0C1E}\U{0C1F}\U{0C20}\U{0C21}\U{0C22}\U{0C23}\U{0C24}"
    + "\U{0C25}\U{0C26}\U{0C27}\U{0C28}\U{0C2A}\U{0C2B}\U{0C2C}\U{0C2D}\U{0C2E}\U{0C2F}"
    + "\U{0C30}\U{0C32}\U{0C35}\U{0C36}\U{0C37}\U{0C38}\U{0C39}\U{0C33}\U{0C15}\U{0C4D}"
    + "\U{0C37}\U{0C31}\U{0C3E}\U{0C3F}\U{0C40}\U{0C41}\U{0C42}\U{0C43}\U{0C44}\U{0C46}"
    + "\U{0C47}\U{0C48}\U{0C4A}\U{0C4B}\U{0C4C}\U{0C4D}\U{0C02}\U{0C03}\U{0C01}"

  // ---------------------------------------------------------------------------
  // The four edits at one split point (prefix w[..i], suffix w[i..])
  // ---------------------------------------------------------------------------

  /** Drop the first character of the suffix. */
  function Delete(w: Word, i: nat): (r: Word)
    requires i < |w|
    ensures |r| == |w| - 1
    ensures forall k :: 0 <= k < i ==> r[k] == w[k]
    ensures forall k :: i <= k < |r| ==> r[k] == w[k + 1]
  {
    w[..i] + w[i + 1..]
  }

  /** Swap the first two characters of the suffix. */
  function Transpose(w: Word, i: nat): (r: Word)
    requires i + 1 < |w|
    ensures |r| == |w|
    ensures r[i] == w[i + 1] && r[i + 1] == w[i]
    ensures forall k :: 0 <= k < |w| && k != i && k != i + 1 ==> r[k] == w[k]
  {
    w[..i] + [w[i + 1], w[i]] + w[i + 2..]
  }

  /** Put c in place of the first character of the suffix. */
  function Replace(w: Word, i: nat, c: char): (r: Word)
    requires i < |w|
    ensures |r| == |w| && r[i] == c
    ensures forall k :: 0 <= k < |w| && k != i ==> r[k] == w[k]
  {
    w[..i] + [c] + w[i + 1..]
  }

  /** Put c between prefix and suffix. */
  function Insert(w: Word, i: nat, c: char): (r: Word)
    requires i <= |w|
    ensures |r| == |w| + 1 && r[i] == c
    ensures forall k :: 0 <= k < i ==> r[k] == w[k]
    ensures forall k :: i < k < |r| ==> r[k] == w[k - 1]
  {
    w[..i] + [c] + w[i..]
  }

  // ---------------------------------------------------------------------------
  // The four families and the level-one set
  // ---------------------------------------------------------------------------

  function Deletes(w: Word): (r: set<Word>)
    ensures forall s :: s in r ==> |s| == |w| - 1
  {
    set i | 0 <= i < |w| :: Delete(w, i)
  }

  function Transposes(w: Word): (r: set<Word>)
    ensures forall s :: s in r ==> |s| == |w|
  {
    set i | 0 <= i < |w| - 1 :: Transpose(w, i)
  }

  function Replaces(alphabet: seq<char>, w: Word): (r: set<Word>)
    ensures forall s :: s in r ==> |s| == |w| && exists k :: 0 <= k < |s| && s[k] in alphabet
  {
    set i, c | 0 <= i < |w| && c in alphabet :: Replace(w, i, c)
  }

  function Inserts(alphabet: seq<char>, w: Word): (r: set<Word>)
    ensures forall s :: s in r ==> |s| == |w| + 1 && exists k :: 0 <= k < |s| && s[k] in alphabet
  {
    set i, c | 0 <= i <= |w| && c in alphabet :: Insert(w, i, c)
  }

  /** generate_level_one_edits: the union of the four families. */
  function LevelOneEdits(alphabet: seq<char>, w: Word): (r: set<Word>)
    ensures forall s :: s in r ==> |w| - 1 <= |s| <= |w| + 1
  {
    Deletes(w) + Transposes(w) + Replaces(alphabet, w) + Inserts(alphabet, w)
  }

  /** generate_level_two_edits: every level-one edit of every level-one edit. */
  function LevelTwoEdits(alphabet: seq<char>, w: Word): (r: set<Word>)
    ensures forall s :: s in r ==> |w| - 2 <= |s| <= |w| + 2
  {
    set e1, e2 | e1 in LevelOneEdits(alphabet, w) && e2 in LevelOneEdits(alphabet, e1) :: e2
  }

  // ---------------------------------------------------------------------------
  // An independent, position-free reference definition of "one edit"
  // ---------------------------------------------------------------------------

  /** s arises from w by one edit applied at the very front of w. */
  predicate HeadEdit(alphabet: seq<char>, w: Word, s: Word) {
    || (|w| > 0 && s == w[1..])
    || (|w| > 1 && s == [w[1], w[0]] + w[2..])
    || (|w| > 0 && |s| > 0 && s[0] in alphabet && s[1..] == w[1..])
    || (|s| > 0 && s[0] in alphabet && s[1..] == w)
  }

  /** s arises from w by keeping a common prefix and then one head edit. */
  predicate OneEdit(alphabet: seq<char>, w: Word, s: Word)
    decreases |w|
  {
    || HeadEdit(alphabet, w, s)
    || (|w| > 0 && |s| > 0 && w[0] == s[0] && OneEdit(alphabet, w[1..], s[1..]))
  }

  lemma {:induction false} DeleteIsOneEdit(alphabet: seq<char>, w: Word, i: nat)
    requires i < |w|
    ensures OneEdit(alphabet, w, Delete(w, i))
    decreases i
  {
    if i > 0 {
      assert Delete(w, i)[1..] == Delete(w[1..], i - 1);
      DeleteIsOneEdit(alphabet, w[1..], i - 1);
    }
  }

  lemma {:induction false} TransposeIsOneEdit(alphabet: seq<char>, w: Word, i: nat)
    requires i + 1 < |w|
    ensures OneEdit(alphabet, w, Transpose(w, i))
    decreases i
  {
    if i > 0 {
      assert Transpose(w, i)[1..] == Transpose(w[1..], i - 1);
      TransposeIsOneEdit(alphabet, w[1..], i - 1);
    } else {
      assert Transpose(w, 0) == [w[1], w[0]] + w[2..];
    }
  }

  lemma {:induction false} ReplaceIsOneEdit(alphabet: seq<char>, w: Word, i: nat, c: char)
    requires i < |w| && c in alphabet
    ensures OneEdit(alphabet, w, Replace(w, i, c))
    decreases i
  {
    if i > 0 {
      assert Replace(w, i, c)[1..] == Replace(w[1..], i - 1, c);
      ReplaceIsOneEdit(alphabet, w[1..], i - 1, c);
    } else {
      assert Replace(w, 0, c)[1..] == w[1..];
    }
  }

  lemma {:induction false} InsertIsOneEdit(alphabet: seq<char>, w: Word, i: nat, c: char)
    requires i <= |w| && c in alphabet
    ensures OneEdit(alphabet, w, Insert(w, i, c))
    decreases i
  {
    if i > 0 {
      assert Insert(w, i, c)[1..] == Insert(w[1..], i - 1, c);
      InsertIsOneEdit(alphabet, w[1..], i - 1, c);
    } else {
      assert Insert(w, 0, c)[1..] == w;
    }
  }

  /** Every level-one edit is one edit in the reference sense. */
  lemma LevelOneSound(alphabet: seq<char>, w: Word, s: Word)
    requires s in LevelOneEdits(alphabet, w)
    ensures OneEdit(alphabet, w, s)
  {
    if s in Deletes(w) {
      var i :| 0 <= i < |w| && s == Delete(w, i);
      DeleteIsOneEdit(alphabet, w, i);
    } else if s in Transposes(w) {
      var i :| 0 <= i < |w| - 1 && s == Transpose(w, i);
      TransposeIsOneEdit(alphabet, w, i);
    } else if s in Replaces(alphabet, w) {
      var i, c :| 0 <= i < |w| && c in alphabet && s == Replace(w, i, c);
      ReplaceIsOneEdit(alphabet, w, i, c);
    } else {
      var i, c :| 0 <= i <= |w| && c in alphabet && s == Insert(w, i, c);
      InsertIsOneEdit(alphabet, w, i, c);
    }
  }

  /** Putting the same letter in front of a word and of its edit keeps it an edit. */
  lemma ConsLevelOne(alphabet: seq<char>, x: char, t: Word, u: Word)
    requires u in LevelOneEdits(alphabet, t)
    ensures [x] + u in LevelOneEdits(alphabet, [x] + t)
  {
    if u in Deletes(t) {
      ConsDeletes(alphabet, x, t, u);
    } else if u in Transposes(t) {
      ConsTransposes(alphabet, x, t, u);
    } else if u in Replaces(alphabet, t) {
      ConsReplaces(alphabet, x, t, u);
    } else {
      ConsInserts(alphabet, x, t, u);
    }
  }

  // Each edit at split point i of t, behind a letter x, is the same edit at
  // split point i + 1 of [x] + t.

  lemma ConsDeletes(alphabet: seq<char>, x: char, t: Word, u: Word)
    requires u in Deletes(t)
    ensures [x] + u in LevelOneEdits(alphabet, [x] + t)
  {
    var i :| 0 <= i < |t| && u == Delete(t, i);
    assert [x] + u == Delete([x] + t, i + 1);
    assert [x] + u in Deletes([x] + t);
  }

  lemma ConsTransposes(alphabet: seq<char>, x: char, t: Word, u: Word)
    requires u in Transposes(t)
    ensures [x] + u in LevelOneEdits(alphabet, [x] + t)
  {
    var i :| 0 <= i < |t| - 1 && u == Transpose(t, i);
    assert [x] + u == Transpose([x] + t, i + 1);
    assert [x] + u in Transposes([x] + t);
  }

  lemma ConsReplaces(alphabet: seq<char>, x: char, t: Word, u: Word)
    requires u in Replaces(alphabet, t)
    ensures [x] + u in LevelOneEdits(alphabet, [x] + t)
  {
    var i, c :| 0 <= i < |t| && c in alphabet && u == Replace(t, i, c);
    assert [x] + u == Replace([x] + t, i + 1, c);
    assert [x] + u in Replaces(alphabet, [x] + t);
  }

  lemma ConsInserts(alphabet: seq<char>, x: char, t: Word, u: Word)
    requires u in Inserts(alphabet, t)
    ensures [x] + u in LevelOneEdits(alphabet, [x] + t)
  {
    var i, c :| 0 <= i <= |t| && c in alphabet && u == Insert(t, i, c);
    assert [x] + u == Insert([x] + t, i + 1, c);
    assert [x] + u in Inserts(alphabet, [x] + t);
  }

  /** Every one-edit string is generated by generate_level_one_edits. */
  lemma {:induction false} LevelOneComplete(alphabet: seq<char>, w: Word, s: Word)
    requires OneEdit(alphabet, w, s)
    ensures s in LevelOneEdits(alphabet, w)
    decreases |w|
  {
    if HeadEdit(alphabet, w, s) {
      if |w| > 0 && s == w[1..] {
        assert s == Delete(w, 0);
        assert s in Deletes(w);
      } else if |w| > 1 && s == [w[1], w[0]] + w[2..] {
        assert s == Transpose(w, 0);
        assert s in Transposes(w);
      } else if |w| > 0 && |s| > 0 && s[0] in alphabet && s[1..] == w[1..] {
        assert s == Replace(w, 0, s[0]);
        assert s in Replaces(alphabet, w);
      } else {
        assert s == Insert(w, 0, s[0]);
        assert s in Inserts(alphabet, w);
      }
    } else {
      LevelOneComplete(alphabet, w[1..], s[1..]);
      ConsLevelOne(alphabet, w[0], w[1..], s[1..]);
      assert w == [w[0]] + w[1..] && s == [w[0]] + s[1..];
    }
  }

  /** The level-one set is exactly the one-edit neighbourhood. */
  lemma LevelOneIsOneEdit(alphabet: seq<char>, w: Word, s: Word)
    ensures s in LevelOneEdits(alphabet, w) <==> OneEdit(alphabet, w, s)
  {
    if s in LevelOneEdits(alphabet, w) { LevelOneSound(alphabet, w, s); }
    if OneEdit(alphabet, w, s) { LevelOneComplete(alphabet, w, s); }
  }

  /** The level-two set is exactly the set of strings two reference edits away. */
  lemma LevelTwoIsTwoEdits(alphabet: seq<char>, w: Word, s: Word)
    ensures s in LevelTwoEdits(alphabet, w) <==> exists e :: OneEdit(alphabet, w, e) && OneEdit(alphabet, e, s)
  {
    if s in LevelTwoEdits(alphabet, w) {
      var e :| e in LevelOneEdits(alphabet, w) && s in LevelOneEdits(alphabet, e);
      LevelOneIsOneEdit(alphabet, w, e);
      LevelOneIsOneEdit(alphabet, e, s);
    }
    if exists e :: OneEdit(alphabet, w, e) && OneEdit(alphabet, e, s) {
      var e :| OneEdit(alphabet, w, e) && OneEdit(alphabet, e, s);
      LevelOneIsOneEdit(alphabet, w, e);
      LevelOneIsOneEdit(alphabet, e, s);
    }
  }

  // ---------------------------------------------------------------------------
  // Completeness at each split point, families told apart by length
  // ---------------------------------------------------------------------------

  /** Each split point contributes its deletion, transposition, replacements and
      insertions. */
  lemma LevelOneAtSplit(alphabet: seq<char>, w: Word, i: nat, c: char)
    requires i <= |w| && c in alphabet
    ensures i < |w| ==> Delete(w, i) in LevelOneEdits(alphabet, w)
    ensures i < |w| ==> Replace(w, i, c) in LevelOneEdits(alphabet, w)
    ensures i + 1 < |w| ==> Transpose(w, i) in LevelOneEdits(alphabet, w)
    ensures Insert(w, i, c) in LevelOneEdits(alphabet, w)
  {
    if i < |w| {
      assert Delete(w, i) in Deletes(w);
      assert Replace(w, i, c) in Replaces(alphabet, w);
    }
    if i + 1 < |w| {
      assert Transpose(w, i) in Transposes(w);
    }
    assert Insert(w, i, c) in Inserts(alphabet, w);
  }

  /** A level-one edit's length tells its family: one shorter is a deletion, one
      longer an insertion, equal length a transposition or a replacement. */
  lemma LevelOneFamilyByLength(alphabet: seq<char>, w: Word, s: Word)
    requires s in LevelOneEdits(alphabet, w)
    ensures |s| == |w| - 1 <==> s in Deletes(w)
    ensures |s| == |w| <==> s in Transposes(w) + Replaces(alphabet, w)
    ensures |s| == |w| + 1 <==> s in Inserts(alphabet, w)
  {
  }

  /** Transposition and replacement may produce the same string: swapping two
      equal letters gives the word back, and so does replacing a letter by itself. */
  lemma TranspositionMayBeReplacement(alphabet: seq<char>, c: char)
    requires c in alphabet
    ensures [c, c] in Transposes([c, c]) && [c, c] in Replaces(alphabet, [c, c])
  {
    assert Transpose([c, c], 0) == [c, c];
    assert Replace([c, c], 0, c) == [c, c];
  }

  /** The empty word has no deletion, transposition or replacement; its edits
      are the one-letter words over the alphabet. */
  lemma LevelOneOfEmpty(alphabet: seq<char>)
    ensures Deletes([]) == {} && Transposes([]) == {} && Replaces(alphabet, []) == {}
    ensures LevelOneEdits(alphabet, []) == set c | c in alphabet :: [c]
  {
    var single := set c | c in alphabet :: [c];
    forall s | s in Inserts(alphabet, []) ensures s in single {
      var i, c :| 0 <= i <= 0 && c in alphabet && s == Insert([], i, c);
      assert s == [c];
    }
    forall s | s in single ensures s in Inserts(alphabet, []) {
      var c :| c in alphabet && s == [c];
      assert s == Insert([], 0, c);
    }
  }

  // ---------------------------------------------------------------------------
  // When a word is its own level-one edit, and level one versus level two
  // ---------------------------------------------------------------------------

  predicate HasAlphabetLetter(alphabet: seq<char>, w: Word) {
    exists k :: 0 <= k < |w| && w[k] in alphabet
  }

  predicate HasDoubledLetter(w: Word) {
    exists k :: 0 <= k < |w| - 1 && w[k] == w[k + 1]
  }

  /** w is among its own level-one edits exactly when some letter of w can be
      replaced by itself or two equal neighbours can be swapped. */
  lemma SelfInLevelOne(alphabet: seq<char>, w: Word)
    ensures w in LevelOneEdits(alphabet, w) <==> HasAlphabetLetter(alphabet, w) || HasDoubledLetter(w)
  {
    if HasAlphabetLetter(alphabet, w) {
      var k :| 0 <= k < |w| && w[k] in alphabet;
      assert w == Replace(w, k, w[k]);
      assert w in Replaces(alphabet, w);
    }
    if HasDoubledLetter(w) {
      var k :| 0 <= k < |w| - 1 && w[k] == w[k + 1];
      assert w == Transpose(w, k);
      assert w in Transposes(w);
    }
    if w in Transposes(w) {
      var k :| 0 <= k < |w| - 1 && w == Transpose(w, k);
      assert w[k] == w[k + 1];
    }
    if w in Replaces(alphabet, w) {
      var k, c :| 0 <= k < |w| && c in alphabet && w == Replace(w, k, c);
      assert w[k] in alphabet;
    }
  }

  /** When w is its own level-one edit, the level-one set is inside level two. */
  lemma LevelOneInLevelTwo(alphabet: seq<char>, w: Word)
    requires w in LevelOneEdits(alphabet, w)
    ensures LevelOneEdits(alphabet, w) <= LevelTwoEdits(alphabet, w)
  {
    forall s | s in LevelOneEdits(alphabet, w) ensures s in LevelTwoEdits(alphabet, w) {
      assert w in LevelOneEdits(alphabet, w) && s in LevelOneEdits(alphabet, w);
    }
  }

  /** Deletions, replacements and insertions always reappear at level two
      (given a non-empty alphabet); only a transposition can be missing. */
  lemma NonTranspositionsInLevelTwo(alphabet: seq<char>, w: Word)
    requires |alphabet| > 0
    ensures Deletes(w) + Replaces(alphabet, w) + Inserts(alphabet, w) <= LevelTwoEdits(alphabet, w)
  {
    forall s | s in Deletes(w) ensures s in LevelTwoEdits(alphabet, w) {
      DeletionInLevelTwo(alphabet, w, s);
    }
    forall s | s in Replaces(alphabet, w) + Inserts(alphabet, w) ensures s in LevelTwoEdits(alphabet, w) {
      SelfInLevelOne(alphabet, s);
      assert s in LevelOneEdits(alphabet, w) && s in LevelOneEdits(alphabet, s);
    }
  }

  /** A deletion is reached at level two by replacing the letter first. */
  lemma DeletionInLevelTwo(alphabet: seq<char>, w: Word, s: Word)
    requires |alphabet| > 0 && s in Deletes(w)
    ensures s in LevelTwoEdits(alphabet, w)
  {
    var i :| 0 <= i < |w| && s == Delete(w, i);
    var e := Replace(w, i, alphabet[0]);
    LevelOneAtSplit(alphabet, w, i, alphabet[0]);
    assert Delete(e, i) == s;
    LevelOneAtSplit(alphabet, e, i, alphabet[0]);
  }

  /** A word with no letter of the alphabet is only reached by a deletion or a
      transposition. */
  lemma NoAlphabetLetterEdit(alphabet: seq<char>, e: Word, s: Word)
    requires s in LevelOneEdits(alphabet, e) && !HasAlphabetLetter(alphabet, s)
    ensures s in Deletes(e) || s in Transposes(e)
  {
  }

  /** Two distinct letters outside the alphabet: swapping them is a level-one
      edit that no level-one edit of a level-one edit gives back. */
  lemma TranspositionMissingFromLevelTwo(alphabet: seq<char>, x: char, y: char)
    requires x != y && x !in alphabet && y !in alphabet
    ensures [y, x] in LevelOneEdits(alphabet, [x, y])
    ensures [y, x] !in LevelTwoEdits(alphabet, [x, y])
  {
    var w, s := [x, y], [y, x];
    assert Transpose(w, 0) == s;
    assert s in Transposes(w);
    forall e | e in LevelOneEdits(alphabet, w) ensures s !in LevelOneEdits(alphabet, e) {
      if s in LevelOneEdits(alphabet, e) {
        NoAlphabetLetterEdit(alphabet, e, s);
        NotDeletionOfInsertion(alphabet, x, y, e);
        NotTranspositionOfEdit(alphabet, x, y, e);
      }
    }
  }

  lemma NotDeletionOfInsertion(alphabet: seq<char>, x: char, y: char, e: Word)
    requires x != y && x !in alphabet && y !in alphabet
    requires e in LevelOneEdits(alphabet, [x, y])
    ensures [y, x] !in Deletes(e)
  {
    LevelOneFamilyByLength(alphabet, [x, y], e);
    if |e| == 3 {
      var i, c :| 0 <= i <= 2 && c in alphabet && e == Insert([x, y], i, c);
      InsertionKeepsOrder(x, y, i, c);
    }
  }

  /** Inserting a third letter c into xy and then dropping any one letter never
      yields yx. */
  lemma InsertionKeepsOrder(x: char, y: char, i: nat, c: char)
    requires x != y && c != x && c != y && i <= 2
    ensures forall j :: 0 <= j < 3 ==> Delete(Insert([x, y], i, c), j) != [y, x]
  {
    var e := Insert([x, y], i, c);
    assert e == if i == 0 then [c, x, y] else if i == 1 then [x, c, y] else [x, y, c];
    forall j | 0 <= j < 3 ensures Delete(e, j) != [y, x] {
      assert Delete(e, j)[0] == if j == 0 then e[1] else e[0];
      assert Delete(e, j)[1] == if j <= 1 then e[2] else e[1];
    }
  }

  lemma NotTranspositionOfEdit(alphabet: seq<char>, x: char, y: char, e: Word)
    requires x != y && x !in alphabet && y !in alphabet
    requires e in LevelOneEdits(alphabet, [x, y])
    ensures [y, x] !in Transposes(e)
  {
  }

  // ---------------------------------------------------------------------------
  // The Telugu character set
  // ---------------------------------------------------------------------------

  /** All of the character set lies in U+0C01..U+0C60, inside the Telugu block;
      the Telugu digits U+0C66..U+0C6F are not in it. */
  lemma CharsetRange(c: char)
    requires c in TeluguCharset
    ensures '\U{0C01}' <= c <= '\U{0C60}'
  {
  }

  /** KA, SSA and VIRAMA occur twice in the character set. */
  lemma CharsetHasDuplicates()
    ensures |TeluguCharset| == 69
    ensures TeluguCharset[14] == TeluguCharset[48] == '\U{0C15}'
    ensures TeluguCharset[44] == TeluguCharset[50] == '\U{0C37}'
    ensures TeluguCharset[49] == TeluguCharset[65] == '\U{0C4D}'
  {
  }

  /** The Telugu-digit token "12": its transposition "21" is a level-one edit
      under the source's character set but not a level-two edit. */
  lemma TeluguDigitsTransposition()
    ensures "\U{0C68}\U{0C67}" in LevelOneEdits(TeluguCharset, "\U{0C67}\U{0C68}")
    ensures "\U{0C68}\U{0C67}" !in LevelTwoEdits(TeluguCharset, "\U{0C67}\U{0C68}")
  {
    if '\U{0C67}' in TeluguCharset { CharsetRange('\U{0C67}'); }
    if '\U{0C68}' in TeluguCharset { CharsetRange('\U{0C68}'); }
    TranspositionMissingFromLevelTwo(TeluguCharset, '\U{0C67}', '\U{0C68}');
  }
}
