/**
 * The vocabulary file: `Write` prints one `"<word> <freq>\n"` line per entry
 * until the first entry below the threshold, and `LoadVocabulary` reads such
 * lines back, in file order and without sorting again.
 */
module VocabularyFile {

  import opened Wrappers
  import opened Text
  import opened Vocabulary

  // ---------------------------------------------------------------------
  // Trimming
  // ---------------------------------------------------------------------

  /**
   * The entries `Write` keeps: the longest prefix of `v` whose frequencies
   * are all at least `minFreq`.
   */
  function Trim(v: seq<Word>, minFreq: uint32): (r: seq<Word>)
    ensures |r| <= |v| && r == v[..|r|]
    ensures forall i | 0 <= i < |r| :: r[i].freq >= minFreq
    ensures |r| < |v| ==> v[|r|].freq < minFreq
  {
    if v == [] || v[0].freq < minFreq then []
    else
      var r := [v[0]] + Trim(v[1..], minFreq);
      assert r == v[..|r|] by {
        assert v == [v[0]] + v[1..];
      }
      r
  }

  /** The entries of `v` with frequency at least `minFreq`, in order. */
  function AtLeast(v: seq<Word>, minFreq: uint32): seq<Word>
  {
    if v == [] then []
    else (if v[0].freq >= minFreq then [v[0]] else []) + AtLeast(v[1..], minFreq)
  }

  lemma {:induction false} AtLeastNone(v: seq<Word>, minFreq: uint32)
    requires forall i | 0 <= i < |v| :: v[i].freq < minFreq
    ensures AtLeast(v, minFreq) == []
    decreases |v|
  {
    if v != [] {
      AtLeastNone(v[1..], minFreq);
    }
  }

  /**
   * On a sorted vocabulary the cut at the first small frequency loses
   * nothing: everything after it is smaller still, so the prefix is exactly
   * the entries with frequency at least `minFreq`.
   */
  lemma {:induction false} TrimSortedIsAtLeast(v: seq<Word>, minFreq: uint32)
    requires IsSorted(v)
    ensures Trim(v, minFreq) == AtLeast(v, minFreq)
    decreases |v|
  {
    if v != [] {
      if v[0].freq < minFreq {
        forall i | 1 <= i < |v|
          ensures v[i].freq < minFreq
        {
          assert !Less(v[i], v[0]);
        }
        AtLeastNone(v[1..], minFreq);
      } else {
        SortedTail(v);
        TrimSortedIsAtLeast(v[1..], minFreq);
      }
    }
  }

  /** A threshold of zero keeps every entry. */
  lemma TrimZero(v: seq<Word>)
    ensures Trim(v, 0) == v
  {
  }

  /** Trimming twice with the same threshold is trimming once. */
  lemma TrimIdempotent(v: seq<Word>, minFreq: uint32)
    ensures Trim(Trim(v, minFreq), minFreq) == Trim(v, minFreq)
  {
  }

  // ---------------------------------------------------------------------
  // Writing
  // ---------------------------------------------------------------------

  /** The text of one entry without its newline: `word + " " + freq`. */
  function Record(w: Word): (r: string)
    ensures |r| > |w.word| && r[..|w.word|] == w.word && r[|w.word|] == ' '
    ensures AllDigits(r[|w.word| + 1..]) && Value(r[|w.word| + 1..]) == w.freq
  {
    w.word + " " + FormatUint(w.freq)
  }

  /** The string one `WriteString` call emits for an entry. */
  function Line(w: Word): (r: string)
    ensures Printable(w) ==> ScanLines(r) == [Record(w)]
  {
    var r := Record(w) + "\n";
    if Printable(w) then
      RecordOneLine(w);
      ScanLinesCons(Record(w), "");
      assert Record(w) + "\n" + "" == r;
      r
    else r
  }

  function Lines(v: seq<Word>): (r: seq<string>)
    ensures |r| == |v|
    ensures forall i | 0 <= i < |v| :: r[i] == Line(v[i])
  {
    seq(|v|, i requires 0 <= i < |v| => Line(v[i]))
  }

  /** The file contents a sequence of writes produces. */
  function Concat(chunks: seq<string>): string
  {
    if chunks == [] then [] else chunks[0] + Concat(chunks[1..])
  }

  /**
   * `Vocabulary.Write`: writes the entries of `v` in order and stops at the
   * first one whose frequency is below `minFreq`. The result is the sequence
   * of strings written, one per `WriteString` call.
   */
  method Write(v: seq<Word>, minFreq: uint32) returns (out: seq<string>)
    ensures out == Lines(Trim(v, minFreq))
  {
    out := [];
    var i := 0;
    while i < |v|
      invariant 0 <= i <= |v|
      invariant forall k | 0 <= k < i :: v[k].freq >= minFreq
      invariant out == Lines(v[..i])
    {
      if v[i].freq < minFreq {
        break;
      }
      LinesSnoc(v[..i], v[i]);
      assert v[..i + 1] == v[..i] + [v[i]];
      out := out + [Line(v[i])];
      i := i + 1;
    }
    TrimAt(v, minFreq, i);
  }

  lemma LinesSnoc(v: seq<Word>, w: Word)
    ensures Lines(v + [w]) == Lines(v) + [Line(w)]
  {
    assert forall k | 0 <= k < |v| :: (v + [w])[k] == v[k];
  }

  /** The cut is at the first entry below the threshold. */
  lemma TrimAt(v: seq<Word>, minFreq: uint32, i: nat)
    requires i <= |v|
    requires forall k | 0 <= k < i :: v[k].freq >= minFreq
    requires i < |v| ==> v[i].freq < minFreq
    ensures Trim(v, minFreq) == v[..i]
  {
  }

  /**
   * `WordFrequencies.Write` (models.go, vocab.go): sort the counts, then write
   * them with the prefix cut. What it writes is one line per entry of frequency
   * at least `minFreq`, in the order of the (unique) sorted vocabulary.
   */
  method WriteFrequencies(words: map<string, uint32>, minFreq: uint32) returns (out: seq<string>)
    ensures exists v :: IsVocabularyOf(v, words) && out == Lines(AtLeast(v, minFreq))
    ensures forall v | IsVocabularyOf(v, words) :: out == Lines(AtLeast(v, minFreq))
  {
    var sorted := ToVocabulary(words);
    out := Write(sorted, minFreq);
    TrimSortedIsAtLeast(sorted, minFreq);
    forall v | IsVocabularyOf(v, words)
      ensures out == Lines(AtLeast(v, minFreq))
    {
      VocabularyUnique(v, sorted, words);
    }
  }

  // ---------------------------------------------------------------------
  // Loading
  // ---------------------------------------------------------------------

  /**
   * Why a line is not accepted: the frequency field does not parse, or the
   * line has fewer than two fields. In Go the second case is not an error
   * value: `fields[1]` is out of range and the program panics.
   */
  datatype LineError = BadFrequency(err: NumError) | IndexOutOfRange

  datatype LineResult = LineOk(entry: Word) | LineErr(error: LineError)

  /**
   * One line of `LoadVocabulary`: the first field is the word, the second
   * field parsed as a 32-bit decimal is the frequency, further fields are
   * ignored.
   */
  function ParseLine(line: string): (r: LineResult)
    ensures r.LineOk? ==> r.entry.word != [] && SpaceFree(r.entry.word)
    ensures r == LineErr(IndexOutOfRange) <==> |Fields(line)| < 2
  {
    var fields := Fields(line);
    if |fields| < 2 then LineErr(IndexOutOfRange)
    else match ParseUint(fields[1])
      case Parsed(n) => LineOk(Word(fields[0], n))
      case NumFailure(e) => LineErr(BadFrequency(e))
  }

  /** Why `LoadVocabulary` stops: the file cannot be opened, or a line is not accepted. */
  datatype LoadError = OpenFailed | BadLine(lineError: LineError)

  /**
   * `LoadVocabulary`: `file` is the text of the vocabulary file, or `None`
   * when it cannot be opened. One entry is appended per scanned line, in
   * order and without sorting; the first line that fails ends the load,
   * returning the entries read before it together with the error.
   */
  method LoadVocabulary(file: Option<string>) returns (v: seq<Word>, err: Option<LoadError>)
    ensures file.None? ==> v == [] && err == Some(OpenFailed)
    ensures file.Some? ==> err != Some(OpenFailed)
    ensures file.Some? ==> |v| <= |ScanLines(file.value)|
    ensures file.Some? ==> forall i | 0 <= i < |v| :: ParseLine(ScanLines(file.value)[i]) == LineOk(v[i])
    ensures file.Some? ==> (err.None? <==> |v| == |ScanLines(file.value)|)
    ensures file.Some? && err.Some? ==> ParseLine(ScanLines(file.value)[|v|]) == LineErr(err.value.lineError)
  {
    v := [];
    if file.None? {
      return v, Some(OpenFailed);
    }
    var lines := ScanLines(file.value);
    var i := 0;
    while i < |lines|
      invariant 0 <= i <= |lines| && |v| == i
      invariant forall k | 0 <= k < i :: ParseLine(lines[k]) == LineOk(v[k])
    {
      match ParseLine(lines[i])
      case LineErr(e) =>
        return v, Some(BadLine(e));
      case LineOk(w) =>
        v := v + [w];
      i := i + 1;
    }
    err := None;
  }

  /** An entry `Write` can print and `LoadVocabulary` can read back. */
  predicate Printable(w: Word)
  {
    w.word != [] && SpaceFree(w.word)
  }

  lemma ParseRecord(w: Word)
    requires Printable(w)
    ensures ParseLine(Record(w)) == LineOk(w)
  {
    var d := FormatUint(w.freq);
    assert SpaceFree(d) by {
      forall i | 0 <= i < |d|
        ensures !IsSpace(d[i])
      {
        assert IsDigit(d[i]);
      }
    }
    FieldsOfPair(w.word, d);
    ParseFormatUint(w.freq);
  }

  /** The file `Write(v, 0)` creates splits into one record per entry. */
  lemma {:induction false} ScanWritten(v: seq<Word>)
    requires forall i | 0 <= i < |v| :: Printable(v[i])
    ensures ScanLines(Concat(Lines(v))) == seq(|v|, i requires 0 <= i < |v| => Record(v[i]))
    decreases |v|
  {
    if v != [] {
      RecordOneLine(v[0]);
      ConcatLinesCons(v);
      ScanLinesCons(Record(v[0]), Concat(Lines(v[1..])));
      ScanWritten(v[1..]);
      RecordsCons(v);
    }
  }

  /** The file of a non-empty vocabulary is its first record, a newline and the rest. */
  lemma ConcatLinesCons(v: seq<Word>)
    requires v != []
    ensures Concat(Lines(v)) == Record(v[0]) + "\n" + Concat(Lines(v[1..]))
  {
    assert Lines(v)[1..] == Lines(v[1..]);
  }

  /** The records of a non-empty vocabulary are its first record and the rest. */
  lemma RecordsCons(v: seq<Word>)
    requires v != []
    ensures seq(|v|, i requires 0 <= i < |v| => Record(v[i])) ==
      [Record(v[0])] + seq(|v| - 1, i requires 0 <= i < |v| - 1 => Record(v[1..][i]))
  {
  }

  /** A record has no newline and does not end in a carriage return. */
  lemma RecordOneLine(w: Word)
    requires Printable(w)
    ensures forall k | 0 <= k < |Record(w)| :: Record(w)[k] != '\n'
    ensures DropCR(Record(w)) == Record(w)
  {
    var rec := Record(w);
    var d := FormatUint(w.freq);
    forall k | 0 <= k < |rec|
      ensures rec[k] != '\n'
    {
      if k < |w.word| {
        assert rec[k] == w.word[k] && !IsSpace(w.word[k]);
      } else if k > |w.word| {
        assert rec[k] == d[k - |w.word| - 1] && IsDigit(rec[k]);
      }
    }
    assert rec[|rec| - 1] == d[|d| - 1] && IsDigit(rec[|rec| - 1]);
  }

  /**
   * Loading the file that `Write(v, 0)` creates gives `v` back, provided every
   * word is non-empty and contains no white space.
   */
  method WriteThenLoad(v: seq<Word>) returns (loaded: seq<Word>, err: Option<LoadError>)
    requires forall i | 0 <= i < |v| :: Printable(v[i])
    ensures err.None? && loaded == v
  {
    var out := Write(v, 0);
    TrimZero(v);
    var file := Concat(out);
    ScanWritten(v);
    forall i | 0 <= i < |v|
      ensures ParseLine(ScanLines(file)[i]) == LineOk(v[i])
    {
      ParseRecord(v[i]);
    }
    loaded, err := LoadVocabulary(Some(file));
  }
}
