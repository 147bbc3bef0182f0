/**
 * The co-occurrence construction: the vocabulary is turned into a map from
 * each word to its index, the corpus is split into words, and every corpus
 * word that is in the vocabulary is fed, as its id, to a context window.
 */
module Cooccurrence {

  import opened Wrappers
  import opened Text
  import opened Vocabulary
  import opened Window

  /** A pair of word ids, each an index into the vocabulary. */
  datatype WordPair = WordPair(main: int, context: int)

  // ---------------------------------------------------------------------
  // Word ids
  // ---------------------------------------------------------------------

  /**
   * The map the `range` loop over the vocabulary builds: each word is mapped
   * to an index at which it occurs, and when a word occurs twice the later
   * index overwrites the earlier one.
   */
  function Word2Id(vocab: seq<Word>): (r: map<string, int>)
    ensures forall w | w in r :: 0 <= r[w] < |vocab|
  {
    if vocab == [] then map[] else Word2Id(vocab[..|vocab| - 1])[vocab[|vocab| - 1].word := |vocab| - 1]
  }

  /**
   * Every word of the vocabulary has an id; the id of a word is an index at
   * which the word occurs, and no later index holds it.
   */
  lemma {:induction false} Word2IdLastIndex(vocab: seq<Word>)
    ensures forall i | 0 <= i < |vocab| :: vocab[i].word in Word2Id(vocab)
    ensures forall w | w in Word2Id(vocab) ::
      0 <= Word2Id(vocab)[w] < |vocab| && vocab[Word2Id(vocab)[w]].word == w
    ensures forall w, j | w in Word2Id(vocab) && Word2Id(vocab)[w] < j < |vocab| :: vocab[j].word != w
    decreases |vocab|
  {
    if vocab != [] {
      var n := |vocab| - 1;
      var prefix := vocab[..n];
      Word2IdLastIndex(prefix);
      var m, r := Word2Id(prefix), Word2Id(vocab);
      assert r == m[vocab[n].word := n];
      forall i | 0 <= i < n
        ensures vocab[i].word in r
      {
        assert prefix[i] == vocab[i];
      }
      forall w | w in r && w != vocab[n].word
        ensures 0 <= r[w] < |vocab| && vocab[r[w]].word == w
        ensures forall j | r[w] < j < |vocab| :: vocab[j].word != w
      {
        assert r[w] == m[w] && prefix[m[w]] == vocab[m[w]];
        forall j | m[w] < j < n
          ensures vocab[j].word != w
        {
          assert prefix[j] == vocab[j];
        }
      }
    }
  }

  /** Words that occur once each get their own index as id. */
  lemma Word2IdInverse(vocab: seq<Word>, i: int)
    requires forall p, q | 0 <= p < q < |vocab| :: vocab[p].word != vocab[q].word
    requires 0 <= i < |vocab|
    ensures vocab[i].word in Word2Id(vocab)
    ensures Word2Id(vocab)[vocab[i].word] == i
  {
    Word2IdLastIndex(vocab);
  }

  /** So on the sorted vocabulary of a frequency map, ids and indices agree. */
  lemma CountedWord2Id(words: map<string, uint32>, v: seq<Word>, i: int)
    requires IsVocabularyOf(v, words)
    requires 0 <= i < |v|
    ensures v[i].word in Word2Id(v) && Word2Id(v)[v[i].word] == i
  {
    VocabularyEntries(v, words);
    Word2IdInverse(v, i);
  }

  /**
   * The ids fed to the window for a sequence of corpus words: the id of each
   * word the map knows, in order; other words are skipped.
   */
  function InVocabIds(word2id: map<string, int>, tokens: seq<string>): (r: seq<int>)
    ensures |r| <= |tokens|
  {
    if tokens == [] then []
    else
      var last := tokens[|tokens| - 1];
      InVocabIds(word2id, tokens[..|tokens| - 1]) + (if last in word2id then [word2id[last]] else [])
  }

  /** Every id fed is an id of the map. */
  lemma {:induction false} InVocabIdsValues(word2id: map<string, int>, tokens: seq<string>)
    ensures forall k | 0 <= k < |InVocabIds(word2id, tokens)| :: InVocabIds(word2id, tokens)[k] in word2id.Values
    decreases |tokens|
  {
    if tokens != [] {
      InVocabIdsValues(word2id, tokens[..|tokens| - 1]);
    }
  }

  /** When every word is known, one id is fed per word. */
  lemma {:induction false} InVocabIdsAll(word2id: map<string, int>, tokens: seq<string>)
    requires forall k | 0 <= k < |tokens| :: tokens[k] in word2id
    ensures InVocabIds(word2id, tokens) == seq(|tokens|, k requires 0 <= k < |tokens| => word2id[tokens[k]])
    decreases |tokens|
  {
    if tokens != [] {
      var n := |tokens| - 1;
      InVocabIdsAll(word2id, tokens[..n]);
    }
  }

  /** Unknown words change nothing: a corpus of unknown words feeds no id. */
  lemma {:induction false} InVocabIdsNone(word2id: map<string, int>, tokens: seq<string>)
    requires forall k | 0 <= k < |tokens| :: tokens[k] !in word2id
    ensures InVocabIds(word2id, tokens) == []
    decreases |tokens|
  {
    if tokens != [] {
      InVocabIdsNone(word2id, tokens[..|tokens| - 1]);
    }
  }

  /** The `range` loop of `Construct` that fills the id map. */
  method BuildWord2Id(vocab: seq<Word>) returns (word2id: map<string, int>)
    ensures word2id == Word2Id(vocab)
  {
    word2id := map[];
    var i := 0;
    while i < |vocab|
      invariant 0 <= i <= |vocab|
      invariant word2id == Word2Id(vocab[..i])
    {
      assert vocab[..i + 1][..i] == vocab[..i];
      word2id := word2id[vocab[i].word := i];
      i := i + 1;
    }
    assert vocab[..i] == vocab;
  }

  // ---------------------------------------------------------------------
  // The matrix and its construction
  // ---------------------------------------------------------------------

  /**
   * Why `Construct` stops early: the corpus file cannot be opened, or the
   * window has width zero and a second known word arrives, where Go's
   * `Slide` slices an empty buffer and panics.
   */
  datatype ConstructError = OpenFailed | EmptyWindowPanic

  class CooccurenceMatrix {
    var matrix: map<WordPair, real>

    /** `NewCooccurenceMatrix`: no pair has a weight yet. */
    constructor ()
      ensures matrix == map[]
    {
      matrix := map[];
    }

    /**
     * `CooccurenceMatrix.Construct`. `corpus` is the text of the corpus file,
     * or `None` when it cannot be opened. The matrix is not touched: the
     * method builds the id map and slides the window over the known words,
     * and the results below are what it has built when it returns.
     */
    method Construct(corpus: Option<string>, vocab: seq<Word>, windowSize: nat)
      returns (err: Option<ConstructError>, word2id: map<string, int>, window: ContextWindow?)
      ensures matrix == old(matrix)
      ensures word2id == Word2Id(vocab)
      ensures err == Some(OpenFailed) <==> corpus.None?
      ensures err == Some(EmptyWindowPanic) <==>
        corpus.Some? && windowSize == 0 && |InVocabIds(word2id, Fields(corpus.value))| >= 2
      ensures err.None? ==> window != null && window.wsize == windowSize
      ensures err.None? ==> window.Fed == InVocabIds(word2id, Fields(corpus.value)) && window.Shows()
      ensures err.None? ==>
        var ids := window.Fed;
        var shown := if |ids| < 2 * windowSize + 1 then |ids| else 2 * windowSize + 1;
        Occupied(window.left[..] + [window.word] + window.right[..]) == ids[|ids| - shown..]
    {
      word2id := BuildWord2Id(vocab);
      Word2IdLastIndex(vocab);
      if corpus.None? {
        return Some(OpenFailed), word2id, null;
      }
      var tokens := Fields(corpus.value);
      window := new ContextWindow(windowSize);
      var panicked := Feed(window, word2id, tokens);
      if panicked {
        return Some(EmptyWindowPanic), word2id, window;
      }
      if windowSize == 0 {
        CenterEmpty(window.Fed, windowSize);
      }
      ShowsMostRecent(window.Fed, windowSize);
      err := None;
    }
  }

  /**
   * The scanning loop of `Construct`: every word the map knows is fed to the
   * window, in order. It stops at the second known word when the window has
   * width zero, where Go panics.
   */
  method Feed(window: ContextWindow, word2id: map<string, int>, tokens: seq<string>) returns (panicked: bool)
    requires window.Shows() && window.Fed == []
    requires forall w | w in word2id :: word2id[w] >= 0
    modifies window, window.left, window.right
    ensures panicked <==> window.wsize == 0 && |InVocabIds(word2id, tokens)| >= 2
    ensures !panicked ==> window.Fed == InVocabIds(word2id, tokens) && window.Shows()
  {
    var k := 0;
    while k < |tokens|
      invariant 0 <= k <= |tokens|
      invariant window.Shows()
      invariant window.Fed == InVocabIds(word2id, tokens[..k])
      invariant window.wsize == 0 ==> |window.Fed| <= 1
    {
      assert tokens[..k + 1][..k] == tokens[..k];
      var word := tokens[k];
      if word in word2id {
        var id := word2id[word];
        if window.word != Empty && window.wsize == 0 {
          CenterEmpty(window.Fed, window.wsize);
          MoreIds(word2id, tokens, k);
          return true;
        }
        window.Slide(id);
      }
      k := k + 1;
    }
    assert tokens[..k] == tokens;
    return false;
  }

  /** A known word at position `k` feeds one id after those of `tokens[..k]`. */
  lemma {:induction false} MoreIds(word2id: map<string, int>, tokens: seq<string>, k: nat)
    requires k < |tokens| && tokens[k] in word2id
    ensures |InVocabIds(word2id, tokens)| >= |InVocabIds(word2id, tokens[..k])| + 1
    decreases |tokens|
  {
    var n := |tokens| - 1;
    assert tokens[..n][..k] == tokens[..k];
    if k < n {
      MoreIds(word2id, tokens[..n], k);
    } else {
      assert tokens[..n] == tokens[..k];
    }
  }
}
