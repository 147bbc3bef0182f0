/**
 * Words, their order, the frequency count of a corpus and its sorted
 * vocabulary. The Go repository declares the `Word` type, the comparator,
 * the counting loop and the sort three times (base.go, models.go and
 * vocab.go, under the names `Vocabulary` and `WordsByFreq`); the copies are
 * identical and this module models them once.
 */
module Vocabulary {

  import opened Wrappers
  import opened Text

  /** One vocabulary entry: a token and how many times it occurs. */
  datatype Word = Word(word: string, freq: uint32)

  /**
   * The sort comparator `Less`: descending frequency, and between equal
   * frequencies ascending token text.
   */
  predicate Less(a: Word, b: Word)
    ensures a.freq > b.freq ==> Less(a, b)
    ensures Less(a, b) ==> a.freq >= b.freq
  {
    if a.freq == b.freq then LexLess(a.word, b.word) else a.freq > b.freq
  }

  lemma LessIrreflexive(a: Word)
    ensures !Less(a, a)
  {
    LexLessIrreflexive(a.word);
  }

  lemma LessTransitive(a: Word, b: Word, c: Word)
    requires Less(a, b) && Less(b, c)
    ensures Less(a, c)
  {
    if a.freq == b.freq == c.freq {
      LexLessTransitive(a.word, b.word, c.word);
    }
  }

  /** Any two different words are ordered one way or the other. */
  lemma LessTotal(a: Word, b: Word)
    requires a != b
    ensures Less(a, b) || Less(b, a)
  {
    if a.freq == b.freq {
      LexLessTotal(a.word, b.word);
    }
  }

  /** What `sort.Sort` guarantees: no element is `Less` than one before it. */
  ghost predicate IsSorted(v: seq<Word>)
  {
    forall p, q | 0 <= p < q < |v| :: !Less(v[q], v[p])
  }

  /** The first element of a sorted sequence is not above any element that occurs in it. */
  lemma SortedHead(a: seq<Word>, x: Word)
    requires IsSorted(a) && x in a
    ensures !Less(x, a[0])
  {
    var k :| 0 <= k < |a| && a[k] == x;
    if k == 0 {
      LessIrreflexive(x);
    }
  }

  lemma SortedTail(a: seq<Word>)
    requires IsSorted(a) && a != []
    ensures IsSorted(a[1..])
  {
    forall p, q | 0 <= p < q < |a| - 1
      ensures !Less(a[1..][q], a[1..][p])
    {
      assert a[1..][q] == a[q + 1] && a[1..][p] == a[p + 1];
    }
  }

  /**
   * Two sorted sequences holding the same words are the same sequence: the
   * order `Less` fixes the result of sorting whatever order the input had.
   */
  lemma {:induction false} SortedUnique(a: seq<Word>, b: seq<Word>)
    requires IsSorted(a) && IsSorted(b) && multiset(a) == multiset(b)
    ensures a == b
    decreases |a|
  {
    if a != [] {
      SortedSameHead(a, b);
      DropHead(a);
      DropHead(b);
      SortedTail(a);
      SortedTail(b);
      SortedUnique(a[1..], b[1..]);
      assert a == [a[0]] + a[1..] && b == [b[0]] + b[1..];
    } else {
      assert |b| == |multiset(b)| == 0;
    }
  }

  /** Sorted sequences holding the same words start with the same word. */
  lemma SortedSameHead(a: seq<Word>, b: seq<Word>)
    requires IsSorted(a) && IsSorted(b) && multiset(a) == multiset(b) && a != []
    ensures b != [] && a[0] == b[0]
  {
    assert a[0] in multiset(b);
    assert b != [] && b[0] in multiset(a);
    SortedHead(b, a[0]);
    SortedHead(a, b[0]);
    if a[0] != b[0] {
      LessTotal(a[0], b[0]);
    }
  }

  lemma DropHead(a: seq<Word>)
    requires a != []
    ensures multiset(a[1..]) == multiset(a) - multiset{a[0]}
  {
    assert a == [a[0]] + a[1..];
  }

  /** The position of a least element, under `Less`, of `a[from..]`. */
  method IndexOfLeast(a: array<Word>, from: nat) returns (m: nat)
    requires from < a.Length
    ensures from <= m < a.Length
    ensures forall q | from <= q < a.Length :: !Less(a[q], a[m])
  {
    m := from;
    LessIrreflexive(a[from]);
    var j := from + 1;
    while j < a.Length
      invariant from <= m < a.Length && from < j <= a.Length
      invariant forall q | from <= q < j :: !Less(a[q], a[m])
    {
      if Less(a[j], a[m]) {
        LessIrreflexive(a[j]);
        forall q | from <= q < j
          ensures !Less(a[q], a[j])
        {
          if Less(a[q], a[j]) {
            LessTransitive(a[q], a[j], a[m]);
          }
        }
        m := j;
      }
      j := j + 1;
    }
  }

  method Swap(a: array<Word>, i: nat, j: nat)
    requires i < a.Length && j < a.Length
    modifies a
    ensures a[i] == old(a[j]) && a[j] == old(a[i])
    ensures forall k | 0 <= k < a.Length && k != i && k != j :: a[k] == old(a[k])
    ensures multiset(a[..]) == old(multiset(a[..]))
  {
    a[i], a[j] := a[j], a[i];
  }

  /**
   * The in-place sort of `ToVocabulary` and `Sorted`. Go uses `sort.Sort`,
   * whose algorithm is not modelled; this is a selection sort with the same
   * guarantee: the array ends sorted by `Less` and holds the same words.
   */
  method SortWords(a: array<Word>)
    modifies a
    ensures IsSorted(a[..])
    ensures multiset(a[..]) == old(multiset(a[..]))
  {
    var i := 0;
    while i < a.Length
      invariant 0 <= i <= a.Length
      invariant forall p, q | 0 <= p < q < i :: !Less(a[q], a[p])
      invariant forall p, q | 0 <= p < i <= q < a.Length :: !Less(a[q], a[p])
      invariant multiset(a[..]) == old(multiset(a[..]))
    {
      var m := IndexOfLeast(a, i);
      ghost var before := a[..];
      Swap(a, i, m);
      forall p, q | 0 <= p <= i < q < a.Length
        ensures !Less(a[q], a[p])
      {
        var r := if q == m then i else q;
        assert a[q] == before[r] && i <= r;
      }
      i := i + 1;
    }
  }

  // ---------------------------------------------------------------------
  // Counting
  // ---------------------------------------------------------------------

  /**
   * `words` is what the counting loop `words[token]++` leaves after reading
   * `tokens`: exactly the tokens seen are keys, and each counter holds the
   * number of occurrences reduced modulo 2^32 (the counters are `uint32`).
   */
  ghost predicate IsCountOf(words: map<string, uint32>, tokens: seq<string>)
  {
    && (forall t :: t in words <==> t in tokens)
    && (forall t | t in words :: words[t] == multiset(tokens)[t] % 0x1_0000_0000)
  }

  /**
   * `LoadWordFrequenciesFromFile`: `corpus` is the text of the corpus file, or
   * `None` when it cannot be opened, in which case the map stays empty. The
   * word scanner splits the text as `strings.Fields` does.
   */
  method LoadWordFrequencies(corpus: Option<string>) returns (words: map<string, uint32>, openFailed: bool)
    ensures openFailed <==> corpus.None?
    ensures corpus.None? ==> words == map[]
    ensures corpus.Some? ==> IsCountOf(words, Fields(corpus.value))
  {
    if corpus.None? {
      return map[], true;
    }
    words := CountWords(Fields(corpus.value));
    openFailed := false;
  }

  /** The counting loop `words[token]++` of `LoadWordFrequenciesFromFile`. */
  method CountWords(tokens: seq<string>) returns (words: map<string, uint32>)
    ensures IsCountOf(words, tokens)
  {
    words := map[];
    var i := 0;
    while i < |tokens|
      invariant 0 <= i <= |tokens|
      invariant forall t :: t in words <==> t in tokens[..i]
      invariant forall t | t in words :: words[t] == multiset(tokens[..i])[t] % 0x1_0000_0000
    {
      var t := tokens[i];
      var count := if t in words then words[t] else 0;
      ghost var before, seen := words, tokens[..i];
      words := words[t := (count as int + 1) % 0x1_0000_0000];
      assert tokens[..i + 1] == seen + [t];
      assert multiset(seen + [t]) == multiset(seen) + multiset{t};
      assert count == multiset(seen)[t] % 0x1_0000_0000 by {
        if t !in before {
          assert t !in seen;
        }
      }
      forall u | u in words
        ensures words[u] == multiset(seen + [t])[u] % 0x1_0000_0000
      {
        if u != t {
          assert words[u] == before[u];
          assert multiset(seen + [t])[u] == multiset(seen)[u];
        } else {
          WrapSucc(multiset(seen)[t]);
          assert multiset(seen + [t])[t] == multiset(seen)[t] + 1;
        }
      }
      i := i + 1;
    }
    assert tokens[..i] == tokens;
  }

  lemma {:induction false} OccurrencesAtMostLength(tokens: seq<string>, t: string)
    ensures multiset(tokens)[t] <= |tokens|
    decreases |tokens|
  {
    if tokens != [] {
      assert tokens == [tokens[0]] + tokens[1..];
      OccurrencesAtMostLength(tokens[1..], t);
    }
  }

  /**
   * Below 2^32 tokens no counter wraps around: every key holds its exact
   * number of occurrences, which is at least one.
   */
  lemma CountsExact(words: map<string, uint32>, tokens: seq<string>)
    requires IsCountOf(words, tokens) && |tokens| < 0x1_0000_0000
    ensures forall t | t in words :: words[t] == multiset(tokens)[t] >= 1
  {
    forall t | t in words
      ensures words[t] == multiset(tokens)[t] >= 1
    {
      OccurrencesAtMostLength(tokens, t);
    }
  }

  /** The counts do not depend on the order of the tokens. */
  lemma CountsOrderFree(words: map<string, uint32>, words': map<string, uint32>,
                        tokens: seq<string>, tokens': seq<string>)
    requires IsCountOf(words, tokens) && IsCountOf(words', tokens')
    requires multiset(tokens) == multiset(tokens')
    ensures words == words'
  {
    forall t ensures t in tokens <==> t in tokens' {
      assert t in tokens <==> t in multiset(tokens);
      assert t in tokens' <==> t in multiset(tokens');
    }
  }

  // ---------------------------------------------------------------------
  // Sorting the counts
  // ---------------------------------------------------------------------

  /** The (word, frequency) pairs of the map. */
  ghost function Entries(words: map<string, uint32>): set<Word>
  {
    set w | w in words :: Word(w, words[w])
  }

  /** `v` lists the entries of `words`, each once, sorted by `Less`. */
  ghost predicate IsVocabularyOf(v: seq<Word>, words: map<string, uint32>)
  {
    IsSorted(v) && multiset(v) == multiset(Entries(words))
  }

  /**
   * `ToVocabulary` (base.go) and `Sorted` (models.go, vocab.go): copy the
   * map's entries into a slice, in the map's iteration order, then sort it.
   * The iteration order is unspecified in Go; here each step takes an
   * arbitrary key not yet copied.
   */
  method ToVocabulary(words: map<string, uint32>) returns (v: seq<Word>)
    ensures IsVocabularyOf(v, words)
  {
    var a := CopyEntries(words);
    SortWords(a);
    v := a[..];
  }

  /** The copying loop of `ToVocabulary`: one slot per entry, in an arbitrary order. */
  method CopyEntries(words: map<string, uint32>) returns (a: array<Word>)
    ensures fresh(a) && a.Length == |words|
    ensures multiset(a[..]) == multiset(Entries(words))
  {
    a := new Word[|words|](_ => Word([], 0));
    var remaining := words.Keys;
    var i := 0;
    while remaining != {}
      invariant remaining <= words.Keys
      invariant i + |remaining| == |words|
      invariant forall k | 0 <= k < i :: a[k].word in words && a[k].freq == words[a[k].word] && a[k].word !in remaining
      invariant forall p, q | 0 <= p < q < i :: a[p].word != a[q].word
      invariant forall w | w in words && w !in remaining :: Word(w, words[w]) in a[..i]
      decreases |remaining|
    {
      var w :| w in remaining;
      ghost var before := a[..i];
      a[i] := Word(w, words[w]);
      assert a[..i + 1] == before + [Word(w, words[w])] by {
        assert a[..i] == before;
      }
      remaining := remaining - {w};
      i := i + 1;
    }
    assert a[..i] == a[..];
    DistinctEntries(a[..], words);
  }

  /** A sequence that lists every entry of `words` once and nothing else. */
  lemma DistinctEntries(s: seq<Word>, words: map<string, uint32>)
    requires forall k | 0 <= k < |s| :: s[k].word in words && s[k].freq == words[s[k].word]
    requires forall p, q | 0 <= p < q < |s| :: s[p].word != s[q].word
    requires forall w | w in words :: Word(w, words[w]) in s
    ensures multiset(s) == multiset(Entries(words))
  {
    forall e
      ensures multiset(s)[e] == multiset(Entries(words))[e]
    {
      if e in s {
        var k :| 0 <= k < |s| && s[k] == e;
        OnceAt(s, k);
        assert e in Entries(words);
      }
    }
  }

  /** In a sequence with no word twice, the element at `k` occurs once. */
  lemma {:induction false} OnceAt(s: seq<Word>, k: nat)
    requires forall p, q | 0 <= p < q < |s| :: s[p].word != s[q].word
    requires k < |s|
    ensures multiset(s)[s[k]] == 1
    decreases |s|
  {
    var n := |s| - 1;
    assert s == s[..n] + [s[n]];
    if k < n {
      OnceAt(s[..n], k);
      assert s[n] != s[k];
    } else {
      assert s[k] !in s[..n];
    }
  }

  lemma {:induction false} EntriesCount(words: map<string, uint32>)
    ensures |Entries(words)| == |words|
    decreases |words|
  {
    if words != map[] {
      var k :| k in words;
      var rest := words - {k};
      forall e
        ensures e in Entries(words) <==> e in Entries(rest) + {Word(k, words[k])}
      {
        if e in Entries(words) && e.word != k {
          assert e.word in rest;
        }
      }
      assert Entries(words) == Entries(rest) + {Word(k, words[k])};
      assert Word(k, words[k]) !in Entries(rest);
      assert |rest| == |words| - 1 by {
        assert words.Keys == rest.Keys + {k};
      }
      EntriesCount(rest);
    }
  }

  /** An element at two positions is counted at least twice. */
  lemma CountTwoPositions(v: seq<Word>, p: nat, q: nat)
    requires p < q < |v|
    ensures multiset(v)[v[p]] >= if v[q] == v[p] then 2 else 1
  {
    assert v == v[..q] + v[q..];
    assert v[p] in v[..q] && v[q] in v[q..];
    assert multiset(v) == multiset(v[..q]) + multiset(v[q..]);
  }

  /** A sequence whose multiset is a set holds no element twice. */
  lemma NoRepeats(v: seq<Word>, s: set<Word>, p: nat, q: nat)
    requires multiset(v) == multiset(s) && p < q < |v|
    ensures v[p] != v[q]
  {
    CountTwoPositions(v, p, q);
  }

  /**
   * What a vocabulary of `words` is: one entry per key, with that key's
   * frequency, of length `|words|`, strictly increasing under `Less` (so no
   * token appears twice).
   */
  lemma VocabularyEntries(v: seq<Word>, words: map<string, uint32>)
    requires IsVocabularyOf(v, words)
    ensures |v| == |words|
    ensures forall i | 0 <= i < |v| :: v[i].word in words && v[i].freq == words[v[i].word]
    ensures forall w | w in words :: Word(w, words[w]) in v
    ensures forall p, q | 0 <= p < q < |v| :: Less(v[p], v[q]) && v[p].word != v[q].word
  {
    EntriesCount(words);
    assert |v| == |multiset(v)| == |multiset(Entries(words))| == |Entries(words)|;
    forall i | 0 <= i < |v|
      ensures v[i].word in words && v[i].freq == words[v[i].word]
    {
      assert v[i] in multiset(v);
    }
    forall w | w in words
      ensures Word(w, words[w]) in v
    {
      assert Word(w, words[w]) in multiset(Entries(words));
    }
    forall p, q | 0 <= p < q < |v|
      ensures Less(v[p], v[q]) && v[p].word != v[q].word
    {
      NoRepeats(v, Entries(words), p, q);
      LessTotal(v[p], v[q]);
      LessIrreflexive(v[p]);
    }
  }

  /**
   * The vocabulary of a map is unique: whatever order the map is iterated in,
   * sorting gives the same sequence.
   */
  lemma VocabularyUnique(v: seq<Word>, v': seq<Word>, words: map<string, uint32>)
    requires IsVocabularyOf(v, words) && IsVocabularyOf(v', words)
    ensures v == v'
  {
    SortedUnique(v, v');
  }

  /**
   * Counting a corpus and sorting the counts gives one entry per distinct
   * token, whose frequency is that token's number of occurrences, sorted by
   * `Less`.
   */
  lemma CountedVocabulary(tokens: seq<string>, words: map<string, uint32>, v: seq<Word>)
    requires IsCountOf(words, tokens) && |tokens| < 0x1_0000_0000
    requires IsVocabularyOf(v, words)
    ensures |v| == |words|
    ensures forall i | 0 <= i < |v| :: v[i].word in tokens && v[i].freq == multiset(tokens)[v[i].word] >= 1
    ensures forall t | t in tokens :: exists i :: 0 <= i < |v| && v[i].word == t
    ensures forall p, q | 0 <= p < q < |v| :: Less(v[p], v[q])
  {
    CountsExact(words, tokens);
    VocabularyEntries(v, words);
    forall t | t in tokens
      ensures exists i :: 0 <= i < |v| && v[i].word == t
    {
      assert Word(t, words[t]) in v;
    }
  }
}
