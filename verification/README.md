# tinyzip Huffman core in Dafny

tinyzip compresses a text file with a Huffman code. `build_freq_table` reads
the file and counts each character. `huffmanCode` turns the counts into a
code: it keeps a heap of `[weight, [symbol, codeword], ...]` entries and
repeatedly merges the two lightest entries. The first of the two gets '0'
put in front of its codewords and the second gets '1'. When one entry is
left, its pairs are returned sorted by codeword length. `build_code_table`
turns the pairs into a dictionary from symbol to bit array. `zip` encodes
the text with that dictionary. `format_name_to_zip` and `format_name_to_txt`
derive file names.

The model has one module per part:

- `Codewords` holds the `[symbol, codeword]` pair and what a good code is:
  binary codewords, distinct symbols, and no codeword a prefix of another.
- `Forest` describes the heap as a *set* of entries. It defines:
  - `MinOf`, the entry `heappop` returns;
  - `Step`, one iteration of the loop;
  - `Build`, the entry left at the end;
  - `Seed`, the initial heap.

  `heappop` compares entries by weight, then by their first pair. No symbol
  sits in two entries, so this order is total and the set alone decides
  every pop.
- `Huffman` holds the imperative `HuffmanCode` method. Its heap is a
  sequence. It is proved equal to `HuffmanCodeSpec`, which is defined on
  `Forest`, and the properties of the code are proved about that function.
- `PairSort` models the final `sorted(..., key=lambda p: (len(p[-1]), p))`.
- `FreqTable` models `build_freq_table`.
- `CodeTable` models `build_code_table`, the encoding `ba.encode(huffman,
  text)`, and a decoding function used to state that a prefix-free table
  loses nothing.
- `FileNames` models the two name helpers.
- `Compress` chains the parts together as the driver does. It also states
  the findings below.

The model follows the code as written, including three places where the
code's behaviour defeats its evident purpose:

- a single symbol gets the empty codeword, not "0";
- an empty input raises IndexError instead of giving an empty code;
- `format_name_to_txt` appends ".zip".

Each is a row under "## Findings".

## Model

| member | source | states |
|---|---|---|
| Huffman.HuffmanCode | tinyzip.py:8-20 | Returns `HuffmanCodeSpec(aDict)`, so the result is the same for every order `aDict.items()` visits the keys in. The `while` loop runs exactly `len(aDict) - 1` times. |
| Huffman.HuffmanCodeSpec | tinyzip.py:8-20 | The value `huffmanCode` returns: the empty-heap IndexError exactly for an empty dictionary, otherwise the sorted pairs of the last entry standing. |
| Huffman.HuffmanCodeIsPrefixCode | tinyzip.py:8-20 | Raises the empty-heap IndexError exactly when the dictionary is empty. Otherwise it returns one pair per key, every key exactly once. The codewords are binary and none is a prefix of another. The list is sorted by (codeword length, symbol). With two or more keys no codeword is empty. |
| Huffman.RootWeight | tinyzip.py:19 | The weight of the last entry standing is the sum of all frequencies. |
| Huffman.HuffmanCodeSingle | tinyzip.py:10-12 | A dictionary with one key gives `[[key, ""]]`: the loop never runs and the codeword stays empty. |
| Huffman.HuffmanCodeTwo | tinyzip.py:13-20 | With two keys, the lighter one (the smaller symbol on a tie) is popped first and gets "0", the other gets "1". The result lists them by symbol. |
| Huffman.MergeLightest | tinyzip.py:13-19 | One iteration leaves a good heap with one entry fewer. Its entries are `Step` of the old ones, and the final entry is the same. |
| Huffman.SeedHeap | tinyzip.py:10 | The initial heap holds one leaf `[freq, [c, ""]]` per key and has as many entries as the dictionary has keys. |
| Huffman.PopMin | tinyzip.py:13-14 | `heappop` returns the least entry (`MinOf`) and leaves every other entry, each following it in the order. |
| Huffman.PrependBit | tinyzip.py:15-18 | Every codeword of the group gets the bit put in front, and the symbols are kept. |
| Forest.Precedes | tinyzip.py:13-14 | The order `heappop` uses on entries `[weight, [c, code], ...]`. A lighter entry always comes first and a heavier one never; on equal weight the first symbol decides. |
| Forest.PrecedesOrder | tinyzip.py:13-14 | That order is strict and transitive, and total on entries whose first symbols differ, so codewords are never compared. |
| Forest.MinOf | tinyzip.py:13 | The entry returned is in the heap and precedes every other entry. |
| Forest.Step | tinyzip.py:12-19 | One iteration pops `lo` and `hi` and pushes their merge. Every other entry stays in the heap, and nothing else enters it. |
| Forest.StepOrder | tinyzip.py:13-14 | The first entry popped precedes the second, and both precede every entry left. |
| Forest.StepFacts | tinyzip.py:12-19 | One merge keeps the forest good and removes one entry. It keeps the set of symbols and the total weight, and two entries merge into one. |
| Forest.Merge | tinyzip.py:15-19 | The pushed entry weighs `lo[0] + hi[0]` and holds the pairs of `lo`, then those of `hi`, in their order. Each pair keeps its symbol; `lo`'s codewords get a leading '0' and `hi`'s a leading '1'. |
| Forest.MergeOk | tinyzip.py:15-19 | The merged entry is good: binary, prefix-free and non-empty codewords. Its symbols are the union of the two inputs' symbols, and its pair count is their sum. |
| Forest.Build | tinyzip.py:12-20 | The entry the final `heappop` returns is good: binary, prefix-free codewords, non-empty when it holds more than one pair. With one entry in the heap it is that entry. |
| Forest.BuildProps | tinyzip.py:12-20 | The last entry is good and carries every symbol of the forest. It weighs the total weight, and its codewords are non-empty whenever a merge happened. |
| Forest.BuildSingle | tinyzip.py:12 | A one-entry heap skips the loop: that entry is the result. |
| Forest.Seed | tinyzip.py:10 | Every dictionary item `c: freq` puts the leaf `[freq, [c, ""]]` in the initial heap. |
| Forest.SeedFacts | tinyzip.py:10 | The seed is a forest with one entry per key. Its symbols are the keys and its weight is the sum of the frequencies. |
| PairSort.KeyLe | tinyzip.py:20 | The sort key `(len(p[-1]), p)`: a shorter codeword sorts first and a longer one never does. On equal length the symbol decides. |
| PairSort.SortByCodeLength | tinyzip.py:20 | The result is a permutation of the pairs, sorted by (codeword length, symbol). |
| PairSort.SortKeepsPrefixCode | tinyzip.py:20 | Sorting keeps a prefix code a prefix code. |
| PairSort.SortSameElements | tinyzip.py:20 | The sorted list holds exactly the pairs it was given. |
| Codewords.PrefixCodeCard | tinyzip.py:8-20 | In a prefix code every symbol occurs once: as many distinct symbols as pairs. |
| FreqTable.BuildFreqTable | tinyzip.py:52-65 | Returns `text` with every line of the file appended, and the character counts of the file's text. |
| FreqTable.Counts | tinyzip.py:57-64 | The dictionary the loops fill one character at a time: a new character enters with 1 and a known one goes up by one, so every count is at least 1. |
| FreqTable.CountsMeaning | tinyzip.py:58-64 | The keys are exactly the characters read. Each count is the character's number of occurrences, between 1 and the text length. |
| FreqTable.TotalCounts | tinyzip.py:58-64 | The counts add up to the number of characters read. |
| CodeTable.BuildCodeTable | tinyzip.py:67-78 | Returns `CodeTableOf(huffman_tree)`: each pair in turn sets its symbol's entry. |
| CodeTable.CodeTableOf | tinyzip.py:73-77 | The dictionary the loop fills pair by pair. It never has more entries than the tree has pairs, and has one once the tree has a pair. |
| CodeTable.CodeTableKeys | tinyzip.py:74-76 | The table's keys are exactly the symbols of the tree. |
| CodeTable.CodeTableLastWins | tinyzip.py:74-76 | A symbol maps to the bits of its last pair: a later duplicate overwrites an earlier one. |
| CodeTable.CodeTableOfPrefixCode | tinyzip.py:67-78 | For a prefix code every pair's symbol maps to its own codeword's bits. The table is prefix-free, and non-empty codewords stay non-empty. |
| CodeTable.ToBits | tinyzip.py:76 | `bitarray(code)` keeps the length, and `to01()` gives the codeword back. |
| CodeTable.ToBitsPrefix | tinyzip.py:76 | Converting to bits keeps "is a prefix of", in both directions. |
| CodeTable.Encode | tinyzip.py:31 | Under the concatenation model of `encode`: the result is the bits of every character's codeword, one after the other, exactly when every character has a codeword. Otherwise it is the undefined-symbol error. |
| CodeTable.DecodeEncode | tinyzip.py:31 | With a prefix-free table of non-empty codewords, reading the codewords back from the encoded bits gives the text. |
| CodeTable.EncodeInjective | tinyzip.py:31 | Under the same conditions two different texts never encode to the same bits. |
| FileNames.Contains | tinyzip.py:41 | `str.__contains__`: a string that contains `sub` is at least as long as `sub`, and a string starting with `sub` contains it. |
| FileNames.DropLast4 | tinyzip.py:42 | `fileName[0:-4]`, also at line 47: with four or more characters it keeps all but the last four; with fewer it gives "". |
| FileNames.FormatNameToZip | tinyzip.py:40-44 | A name without ".txt" is unchanged. A name containing ".txt" keeps its length and all but its last four characters, and ends in ".zip". |
| FileNames.FormatNameToZipTxt | tinyzip.py:40-44 | A name ending in ".txt" has that extension replaced by ".zip". |
| FileNames.FormatNameToZipIdempotent | tinyzip.py:40-44 | Formatting a name twice gives the same as once. |
| FileNames.FormatNameToTxt | tinyzip.py:46-49 | As written: the result ends in ".zip" and keeps all but the last four characters of the name. |
| FileNames.FormatNameToTxtKeepsZip | tinyzip.py:46-49 | As written, a name ending in ".zip" comes back unchanged. |
| FileNames.FormatNameToTxtFixed | tinyzip.py:46-49 | Corrected: the result ends in ".txt" and keeps all but the last four characters. |
| FileNames.FileNamesRoundTrip | tinyzip.py:40-49 | The corrected helper undoes `format_name_to_zip` on a ".txt" name, and the reverse holds on a ".zip" name. |
| Compress.CompleteCodeIsPrefixCode | tinyzip.py:8-20 | The corrected code gives every dictionary one binary, non-empty, prefix-free codeword per key. |
| Compress.ZipRoundTrip | tinyzip.py:112-118 | Counting, coding with the corrected code, building the table and encoding loses nothing: decoding gives back every text, including the empty one. |
| Compress.EmptyTextRaises | tinyzip.py:10-20 | As written, the empty text has no counts and `huffmanCode` raises IndexError. |
| Compress.SingleSymbolLosesText | tinyzip.py:10-20 | As written, "aaaa" gets the code `[['a', ""]]`. Under the concatenation model of `encode`, "aaaa" and "a" both give no bits. |

## Left out

- File I/O is not modelled. This covers opening and reading the input file, writing `ba.to01()` to the ".zip" file, reading it back in `unzip`, and `file.close()`. An open file is modelled by the sequence of lines it yields.
- `display_encode_info` only prints, so it is not modelled. The prints in `huffman_driver`, and the driver itself with its hard-coded file names, are not modelled either.
- `unzip` is not modelled: `decodetree`, `decode`, `iterdecode`, the output file and its unused `zipSize` argument. Decoding is stated only as `CodeTable.Decode`, the function that reads codewords back, to show the encoding can be undone.
- The array layout that `heapq` keeps (`heapify`, sift-up and sift-down) is not modelled. A pop is modelled by what it returns: the least entry. `heapify` only reorders the list, so it has no counterpart.
- Python's library sort is modelled by an insertion sort. The keys are distinct, so every correct sort gives the same list.
- bitarray internals are not modelled: bit packing, `nbytes`, and the exact text of its error messages.
- CodeTable.Encode: the checks bitarray's `encode` makes on the code dictionary are not modelled. Recent bitarray releases reject an empty dictionary and an empty codeword with ValueError, and `decodetree` (line 89) rejects an empty codeword too. `Encode` only concatenates codewords, so on a single-symbol text it gives no bits where such a release would raise.
- CodeTable.BuildCodeTable: requires binary codewords, because `bitarray(code)` raises ValueError on other characters and that error path is bitarray internals. The codes `huffmanCode` produces are always binary.
- Huffman.HuffmanCodeIsPrefixCode: does not state optimality. It does not prove that a more frequent symbol never gets a longer codeword, nor that the weighted code length is minimal. These are properties of Huffman's construction that the code does not check or rely on.
- The ".zip" name derived in `unzip` (line 100) is never used, since the output goes to 'King(1).txt'. The finding about `format_name_to_txt` is therefore about the helper alone.

## Findings

| source | as written | input that shows it | evidently intended | confidence | as-written member | corrected member |
|---|---|---|---|---|---|---|
| tinyzip.py:10-20 | an empty dictionary leaves the heap empty, and the final `heappop` raises IndexError | an empty input file (text "") | an empty code, so that an empty text encodes to no bits and decodes back | medium, not executed | Compress.EmptyTextRaises | Compress.ZipRoundTrip |
| tinyzip.py:10-20 | a single distinct symbol never enters the loop and keeps the empty codeword "" | text "aaaa": its only codeword is "", so under the concatenation model of `encode` "aaaa" and "a" both give no bits | the codeword "0" for the only symbol | high, not executed | Compress.SingleSymbolLosesText | Compress.ZipRoundTrip |
| tinyzip.py:46-49 | `format_name_to_txt` appends ".zip" | "King.zip" gives "King.zip" | "King.zip" gives "King.txt" | high, not executed | FileNames.FormatNameToTxtKeepsZip | FileNames.FileNamesRoundTrip |
