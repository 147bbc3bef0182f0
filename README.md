# GloVe preprocessing: vocabulary and context window, in Dafny

This project models the preprocessing core of the Go library `glove`. It covers:

- how a corpus is counted into a word → frequency map;
- how the map becomes a vocabulary sorted by descending frequency, with ties broken by ascending word;
- how the vocabulary is written to, and read back from, a `word freq` text file;
- how the co-occurrence construction maps words to vocabulary ids and slides a context window `[left] word [right]` over the in-vocabulary words of a corpus.

The Go repository has three nearly identical copies of the `Word` type, the comparator, the counting loop and the sort: in `base.go`, `models.go` and `vocab.go`. One Dafny definition models all three, and the table below cites each copy for the properties proved about it. The writers differ: `Vocabulary.Write` in `base.go` writes the entries in the order it is given, while `WordFrequencies.Write` in `models.go` and `vocab.go` first sorts the map. One definition, `VocabularyFile.Write`, models the shared loop with its cut at the first small frequency; the sorting writer is the separate member `VocabularyFile.WriteFrequencies`, which sorts and then calls it.

Modules:

- `Wrappers`: `Option`.
- `Text`: the parts of Go's standard library the code relies on:
  - string `<`;
  - `strings.Fields` (`bufio.ScanWords` splits at the same white space);
  - `bufio.ScanLines`;
  - `strconv.FormatUint(n, 10)`;
  - `strconv.ParseUint(s, 10, 32)`, with its syntax and range errors;
  - the `uint32` type.
- `Vocabulary`:
  - `Word` and the comparator `Less`;
  - the in-place sort, the counting loop, and the copy of the map into a slice.
- `VocabularyFile`:
  - `Write`, with its prefix cut;
  - `WordFrequencies.Write`;
  - `LoadVocabulary`, with line parsing and its error paths;
  - the write-then-load round trip.
- `Window`:
  - the `ContextWindow` class: two fixed arrays and a center, with `NewContextWindow` as its constructor and `Slide`;
  - view functions that say what the window shows after a given sequence of ids.
- `Cooccurrence`:
  - the word → id map;
  - the filtering of out-of-vocabulary tokens;
  - `CooccurenceMatrix` and `Construct`.

Behaviour followed from the code:

- **`Construct` never writes to the matrix.** It builds `word2id`, opens the corpus and slides the window over the known words. The model therefore states that the matrix is unchanged. It adds no distance weighting, draining of the window at end of stream, or pair accumulation, because none of them exists in the code. The method's locals `word2id` and the window are returned as results so that the contract can describe them.
- **Go panics are modelled as error values.** A vocabulary line with fewer than two fields indexes `fields[1]` out of range. `Slide` on a zero-width window that already has a center slices an empty buffer. The model turns these into the error values `IndexOutOfRange` and `EmptyWindowPanic`. `Slide` itself instead requires that it is not in that state.
- **The frequency counters are `uint32`.** They wrap around modulo 2^32. `CountsExact` shows that below 2^32 tokens every count is exact.
- **Map iteration order is unspecified in Go.** The copying loop takes an arbitrary remaining key at each step. `sort.Sort` is replaced by a selection sort with the same contract: the result is a sorted permutation. `SortedUnique` shows that this result is unique, whatever the order and the algorithm.
- **Files and I/O.** The contents of a file are an `Option<string>`, with `None` when the file cannot be opened. A written file is the sequence of strings passed to `WriteString`.

## Model

| member | source | states |
|---|---|---|
| Text.LexLess | base.go:26 | Go's string `<`, compared character by character; when `a` is a prefix of `b`, `a < b` holds exactly when `a != b` |
| Text.LexLessIrreflexive | base.go:26 | Go's string `<` never holds between a string and itself |
| Text.LexLessTransitive | models.go:25 | string `<` is transitive |
| Text.LexLessTotal | vocab.go:24 | of two different strings one is `<` the other |
| Text.IsSpace | base.go:105 | Go's `unicode.IsSpace`, the separator of `strings.Fields` and `bufio.ScanWords`: U+0009 to U+000D, U+0020, U+0085, U+00A0, U+1680, U+2000 to U+200A, U+2028, U+2029, U+202F, U+205F and U+3000; blank, tab, newline and carriage return are spaces, digits are not |
| Text.Fields | base.go:48 | every field `strings.Fields` returns is non-empty and contains no white space |
| Text.FieldsFrom | base.go:48 | the scanning loop of `strings.Fields`, carrying the field being read: every field it yields is non-empty and space-free |
| Text.FieldsOfPair | models.go:93 | the fields of `a + " " + b`, for non-empty space-free `a` and `b`, are exactly `[a, b]` |
| Text.DropCR | base.go:44 | bufio's `dropCR`: the line is unchanged, or loses exactly one final `\r`, and it is unchanged exactly when it does not end in `\r` |
| Text.ScanLinesCons | base.go:44-47 | the line scanner yields a newline-free text followed by `"\n"` as one line (trailing `\r` dropped), then scans the rest |
| Text.ScanLines | base.go:44 | the lines `bufio.ScanLines` yields: none exactly for empty text, and no line contains a newline |
| Text.FormatUint | vocab.go:90 | the decimal spelling is non-empty, all digits, denotes `n`, and has no leading zero unless it is `"0"` |
| Text.ParseUint | base.go:49-52 | parsing succeeds only on a non-empty all-digit string and yields its value; every such string whose value fits in 32 bits parses |
| Text.ScanDigits | base.go:49 | the digit loop of `ParseUint`: it succeeds only when every character is a digit, with the value of the digits, and succeeds whenever that value fits in 32 bits |
| Text.ParseFormatUint | base.go:77 | parsing the printed frequency gives the frequency back |
| Vocabulary.Less | base.go:24-30 | higher frequency comes first: a word with a larger frequency is `Less`, and a `Less` word never has a smaller frequency |
| Vocabulary.LessIrreflexive | base.go:24-30 | no word is `Less` than itself |
| Vocabulary.LessTransitive | models.go:23-29 | `Less` is transitive |
| Vocabulary.LessTotal | vocab.go:22-28 | of two different words one is `Less` than the other |
| Vocabulary.Swap | base.go:23 | exchanges the two slots, keeps the rest and the multiset of entries |
| Vocabulary.IndexOfLeast | vocab.go:71 | returns the position of an element of `a[from..]` that no other element there is `Less` than |
| Vocabulary.SortWords | models.go:72 | afterwards the array is sorted by `Less` and is a permutation of what it held |
| Vocabulary.SortedUnique | base.go:127 | two sorted sequences with the same multiset are equal, so the sorted vocabulary does not depend on the input order |
| Vocabulary.LoadWordFrequencies | base.go:92-111 | an unopenable corpus gives an error and an empty map; otherwise the map counts the corpus words |
| Vocabulary.CountWords | models.go:52-54 | the keys are exactly the tokens, and each value is the token's number of occurrences modulo 2^32 |
| Vocabulary.CountsExact | vocab.go:51-53 | with fewer than 2^32 tokens every value is the exact number of occurrences, at least 1 |
| Vocabulary.CountsOrderFree | base.go:107-109 | the counts of two token sequences with the same multiset are the same map |
| Vocabulary.CopyEntries | models.go:61-70 | the filled slice has `len(words)` slots holding exactly the map's (word, freq) entries |
| Vocabulary.ToVocabulary | base.go:115-129 | the result is sorted by `Less` and is a permutation of the map's entries |
| Vocabulary.VocabularyEntries | vocab.go:59-72 | a vocabulary of a map has one entry per key, with that key's frequency, of length `len(words)`, strictly increasing under `Less`, no word twice |
| Vocabulary.VocabularyUnique | models.go:60-73 | any two sorted vocabularies of the same map are equal |
| Vocabulary.CountedVocabulary | base.go:107-128 | counting then sorting gives one entry per distinct token, whose frequency is its occurrence count (at least 1), sorted by `Less` |
| VocabularyFile.Trim | base.go:72-76 | the entries written are the longest prefix of `v` whose frequencies are all at least `minFreq` |
| VocabularyFile.TrimSortedIsAtLeast | vocab.go:83-89 | on a sorted vocabulary the cut at the first small frequency equals filtering by `freq >= minFreq` |
| VocabularyFile.TrimZero | base.go:73 | with `minFreq = 0` every entry is written |
| VocabularyFile.TrimIdempotent | base.go:72-76 | cutting an already cut vocabulary again changes nothing |
| VocabularyFile.Record | base.go:77 | the text written for an entry: its word, one blank, then only digits whose value is the frequency |
| VocabularyFile.Line | models.go:93 | the string one `WriteString` call emits: for an entry with a non-empty space-free word, the line scanner reads it back as exactly one line, the entry's record |
| VocabularyFile.Write | base.go:72-81 | writes one `word + " " + decimal(freq) + "\n"` per entry of the trimmed prefix, in order |
| VocabularyFile.WriteFrequencies | models.go:77-99 | writes one line per entry with `freq >= minFreq`, in the order of the (unique) sorted vocabulary of the map |
| VocabularyFile.ParseLine | base.go:47-56 | a line with fewer than two fields fails with the out-of-range error and only then; an accepted line's word is non-empty and space-free |
| VocabularyFile.LoadVocabulary | base.go:33-62 | an unopenable file gives an error and no entries; otherwise one entry per scanned line, in file order, stopping at the first line that fails with that line's error |
| VocabularyFile.RecordOneLine | vocab.go:90 | a written record holds no newline and does not end in a carriage return |
| VocabularyFile.ParseRecord | models.go:93 | parsing the record of a printable entry gives the entry back |
| VocabularyFile.ScanWritten | base.go:77 | the lines scanned from what `Write(v, 0)` writes are the records of `v`, in order |
| VocabularyFile.WriteThenLoad | base.go:46-58 | loading what `Write(v, 0)` wrote gives `v` back without error, provided every word is non-empty and space-free |
| Window.FirstEmpty | base.go:218-219 | the index of the first empty right slot, or the width when none is empty |
| Window.ViewsByCase | base.go:207-211 | after no ids all slots are empty; after up to `W + 1` ids the center is the first id and the right buffer holds the next ones; after more the center is `W` ids behind the newest, the right buffer holds the `W` newest, the left buffer the `W` before the center or empty slots |
| Window.EmptyViews | base.go:199-202 | before any id is fed every left and right slot is `-1` |
| Window.CenterEmpty | base.go:213 | the center is empty exactly when no id has been fed |
| Window.RightFilling | base.go:218-224 | once there is a center the first empty right slot is the one the next id takes, until `W` ids follow the center |
| Window.ViewsInit | base.go:213-216 | the first id becomes the center and the buffers stay empty |
| Window.ViewsFill | base.go:219-222 | while at most `W` ids have been fed, the next id fills the first empty right slot and nothing else changes |
| Window.ViewsShift | base.go:227-235 | after that, the left buffer drops its oldest id and takes the center, the first right id becomes the center, and the new id goes last into the right buffer |
| Window.ViewsTogether | base.go:209-210 | left buffer, center and right buffer are `2W + 1` consecutive positions around the center |
| Window.ShowsMostRecent | base.go:207-211 | the ids the window shows, in order, are the last `min(n, 2W + 1)` ids fed |
| Window.TraceExample | base.go:212-236 | a width-2 window fed `1, 2, 3, 4` shows `[-1 1] 2 [3 4]` |
| Window.ContextWindow.constructor | base.go:192-205 | `NewContextWindow(size)`: buffers of `size` slots, center and every slot `-1` |
| Window.ContextWindow.ShiftIn | base.go:227-235 | drops the first slot, moves the rest one place left and puts the new value last |
| Window.ContextWindow.Slide | base.go:212-236 | the three cases of `Slide` on the arrays, and a window that showed the views of the ids fed shows them with the new id appended |
| Cooccurrence.Word2Id | base.go:151-154 | the map the `range` loop builds, later indices overwriting earlier ones; every id is an index of the vocabulary |
| Cooccurrence.Word2IdLastIndex | base.go:151-154 | every vocabulary word has an id; the id is an index holding the word and no later index holds it |
| Cooccurrence.Word2IdInverse | base.go:152-153 | when no word occurs twice, the id of the word at index `i` is `i` |
| Cooccurrence.CountedWord2Id | base.go:131-132 | on the sorted vocabulary of any frequency map, the id of each entry is its index |
| Cooccurrence.BuildWord2Id | base.go:151-154 | the loop builds exactly `Word2Id(vocab)` |
| Cooccurrence.InVocabIds | base.go:169-176 | at most one id is fed per corpus word |
| Cooccurrence.InVocabIdsValues | base.go:172 | every id fed is a value of the id map |
| Cooccurrence.InVocabIdsAll | base.go:172-174 | when every corpus word is known, the ids fed are those of the words, in corpus order |
| Cooccurrence.InVocabIdsNone | base.go:172-175 | unknown words feed nothing |
| Cooccurrence.Feed | base.go:163-176 | the window is fed exactly the ids of the known words, in order, and stops only at the zero-width panic |
| Cooccurrence.CooccurenceMatrix.constructor | base.go:142-148 | the new matrix is empty |
| Cooccurrence.CooccurenceMatrix.Construct | base.go:150-179 | the matrix is unchanged; the id map is the one built from `vocab`; the open error is reported exactly when the corpus cannot be opened; otherwise the window has been fed the ids of the known corpus words and shows the most recent `2W + 1` of them |

## Left out

- File creation, writing and closing (`os.Create`, `WriteString` errors, `defer Close`): a write is modelled as producing its string, and write errors are not modelled.
- `bufio.Scanner` limits and read errors: the 64 KiB token limit and `scanner.Err()`, which the code never checks. A file is its whole text.
- Invalid UTF-8 in Go strings: Dafny strings hold Unicode scalar values. On those, Go's byte-wise `<` agrees with comparing code points.
- `fmt.Println("SORTED", ...)` in models.go and `ContextWindow.String`: output formatting only.
- The command-line programs under `vocabulary/`, `cooccurence/` and `glove/`: flag parsing and process exit.
- The algorithm inside Go's `sort.Sort`: replaced by a selection sort with the same contract. The sorted result is unique, so the algorithm does not matter.
- `float64` weights: the matrix holds `real` values, and `Construct` writes none.
- Vocabulary.CountWords: the count is stated modulo 2^32, as the `uint32` counters wrap. Exact counts are only proved below 2^32 tokens, in `CountsExact`.
- Window.ContextWindow.Slide: requires a center-less window or a width of at least 1. A zero-width window with a center makes Go panic; `Construct` reports that case as `EmptyWindowPanic`.
- Cooccurrence.CooccurenceMatrix.Construct: `windowSize` is a `nat`. A negative size makes Go's `make` panic, and that is not modelled.
- Window.ContextWindow.Slide: the append-based shift on Go slices is modelled as shifting in place within fixed arrays. The two give the same contents, and Go slice capacity is not modelled.
