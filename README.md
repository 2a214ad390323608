# Multi-hot encoder for ML3 survey answers, in Dafny

This project models the core of the ML3-RBM repository:

- the `Encoder` class of `encoding.py`;
- the `generate_ngrams` utility of `ngrams.py`.

An `Encoder` works in three steps:

- It builds a per-column vocabulary from training rows of categorical answers. `"NA"` is the sentinel for "no answer".
- It encodes rows into two matrices of equal shape. The value matrix is multi-hot: each column owns a block and gets a single 1 in it when its answer is known (present, not `"NA"`, and in the column's mapping); otherwise the block stays zero. The existence matrix marks which blocks carry a known answer.
- It decodes a matrix back into answers by taking the arg-max within each block.

`generate_ngrams` splits a line into lower-case word tokens. It returns every window of `count` consecutive tokens, joined by single spaces.

Files:

- `layout.dfy` (module `Layout`) covers the index arithmetic of the layout: block widths, the offsets where blocks start (prefix sums), cutting out a block, and laying blocks end to end.
- `encoding.dfy` (module `Encoding`) holds the class `Encoder`, whose fields are the ones `encoding.py` assigns. It also holds the two phases of `generate_mapping`, the functions that specify encode and decode row by row, and the lemmas about them.
- `ngrams.dfy` (module `Ngrams`) holds `generate_ngrams` as pure functions, with lemmas on tokens and windows.

How the model treats the source:

- **Answer order.** `generate_mapping` numbers a column's answers while iterating a Python `set`, so the order is unspecified. `AssignIndices` models this by picking each next answer with `:|` from the answers still left. Every promise it makes holds for any numbering.
- **Agreement of the two vocabulary views.** The predicate `Consistent` says `index_to_ans` and `ans_to_index` agree in both directions, block by block. `Valid` is `Consistent` plus "no mapping has `"NA"` as a key". The constructor and `GenerateMapping` ensure `Valid`. The fields are public, so nothing else keeps it.
- **Encode and decode loops.** `Encode` fills two zeroed `array2<int>` matrices in place, as the numpy code does. Its row loop body is `EncodeRowInto` and its column step is `WriteColumn`. `Encode` reads `this.indexToAns` where encoding.py:93 reads the module-global `ENCODER`. Likewise, `CountAnswers` runs `CountRow` once per training row, and `Decode` runs `DecodeOneRow` once per matrix row.
- **What encode and decode need.** `Encode` requires only `Shaped`: one mapping per width, a total width equal to `len(index_to_ans)`, and local indices inside their block. `Decode` requires only the total width. Both follow from `Valid`.
- **Decode and column slicing.** `Decode` and `KthPrunedFeature` only read a matrix, so they take it as a sequence of rows.

What the code does and does not check:

- Local indices follow Python `set` iteration order, which is unspecified. The model allows any order.
- `generate_mapping` checks neither the cutoff nor the row lengths.
  - Any integer is accepted as the cutoff. A cutoff of 0 or less keeps every answer that was seen.
  - A training row may be shorter than the second row. Its missing columns are not counted.
  - A training row may be longer than the second row if every extra entry is `"NA"`. Such entries are skipped before a column is looked up. Any other extra entry raises IndexError, so the model requires the extra entries to be `"NA"`.
- The column count is taken from the second training row, so at least two rows are required.
- `encode` indexes `ans_widths[j]` for every entry of a row. A row longer than the column count therefore raises IndexError, even for `"NA"` entries, and the model requires encoded rows to be at most that long. Shorter rows encode their missing columns as zero blocks.
- `encode` returns `m` rows (the training row count), not one per input row. Rows past the input stay zero, and the model requires the input to have at most `m` rows. With more rows, encoding.py silently drops an extra row that has no known answer, because the test at encoding.py:99 fails before any write. An extra row with a known answer raises IndexError at encoding.py:100.

## Model

| member | source | states |
|---|---|---|
| `Encoding.Encoder.constructor` | encoding.py:16-21 | a new encoder stores the cutoff, has `m == 0` and an empty vocabulary, and is valid |
| `Encoding.Encoder.GenerateMapping` | encoding.py:54-90 | for training rows whose entries past the second row's length are all "NA" (any other such entry raises IndexError at encoding.py:71): afterwards `m` is the number of training rows, there is one width and one mapping per column of the second row, the vocabulary is consistent and never holds "NA", and `v` is a key of column `i` iff `v` is not "NA", occurs in column `i` and occurs there at least `cutoff` times; the three returned values are the new fields |
| `Encoding.CountAnswers` | encoding.py:65-75 | per column, the set of answers seen equals the keys of the count map; `v` is a key iff `v` is not "NA" and occurs in that column; its count is the number of rows holding `v` there |
| `Encoding.CountRow` | encoding.py:68-75 | one row's pass: every entry that is not "NA" joins its column's answer set and its count goes up by one, so the counts become those of the rows so far plus this row |
| `Encoding.AssignIndices` | encoding.py:77-85 | in any visiting order, the result is consistent with one width per column, and an answer gets a local index iff it was seen and its count is at least the cutoff |
| `Encoding.AppendKeepsConsistent` | encoding.py:83-85 | appending an answer to `index_to_ans`, giving it local index `ans_widths[i]` and incrementing `ans_widths[i]` keeps `index_to_ans` and `ans_to_index` in agreement while later columns are still empty |
| `Encoding.LocalIndicesExact` | encoding.py:84-85 | the local indices of column `i` are exactly `0 .. ans_widths[i]-1`, no two answers share one, and the column has `ans_widths[i]` answers |
| `Encoding.SentinelNotInIndexToAns` | encoding.py:69-85 | "NA" never appears in `index_to_ans` |
| `Encoding.Encoder.Encode` | encoding.py:92-103 | both matrices have shape `(m, sum(ans_widths))`; input row `r` is `ExistenceRow` / `ValueRow` of that row; rows past the input stay zero |
| `Encoding.Encoder.EncodeRowInto` | encoding.py:96-102 | writes row `i` of both matrices as `ExistenceRow` / `ValueRow` of the row, and leaves every other row as it was; its loop keeps the running `mapped_index` equal to the prefix sum of the widths before column `j` |
| `Encoding.Encoder.WriteColumn` | encoding.py:98-101 | for column `j` at offset `mapped_index`, the block of row `i` becomes column `j`'s block of `ExistenceRow` / `ValueRow`, and every other cell is kept |
| `Encoding.EncodeColumn` | encoding.py:98-102 | a known answer (present, not "NA", in the mapping) makes column `j`'s existence block all ones and its value block one-hot at the answer's local index; any other answer leaves both blocks all zero |
| `Encoding.RowTailZero` | encoding.py:98 | the blocks of the columns a short row lacks are zero in both matrices |
| `Encoding.ArgMax` | encoding.py:116 | the result indexes the block, no entry exceeds it, and every entry before it is strictly smaller (the first maximum, as `np.argmax`) |
| `Encoding.DecodeAnswer` | encoding.py:109-118 | the answer decode reconstructs for column `k`: "NA" when the column's width is 0, otherwise an entry of column `k`'s own block of `index_to_ans`, the one at the block's arg-max |
| `Encoding.DecodeRow` | encoding.py:106-119 | one reconstructed answer per column, each from that column's block of `index_to_ans` when the column has a width |
| `Encoding.Encoder.DecodeOneRow` | encoding.py:107-119 | the row of answers decode reconstructs from one matrix row equals `DecodeRow` |
| `Encoding.Encoder.Decode` | encoding.py:105-120 | one reconstructed row per matrix row, each equal to `DecodeRow`: "NA" for a zero-width column, otherwise `index_to_ans[start + argmax(block)]` |
| `Encoding.DecodeEncoded` | encoding.py:109-118 | decoding an encoded row gives, per column, "NA" if its width is 0, the original answer if it was known, and otherwise the answer at local index 0 |
| `Encoding.RoundTrip` | encoding.py:92-120 | for a row whose every answer is retained, decode of its encoded value row gives back the row |
| `Encoding.DecodeSentinelIff` | encoding.py:112-113 | in a valid vocabulary, decode yields "NA" for column `k` iff column `k` has width 0, whatever the matrix row |
| `Encoding.Encoder.KthPrunedFeature` | encoding.py:122-125 | one slice per matrix row; for a row at least as wide as the layout it is exactly the columns `[sum(ans_widths[:k]), sum(ans_widths[:k+1]))` |
| `Encoding.KthOfEncoded` | encoding.py:122-125 | slicing column `k` out of an encoded value matrix gives column `k`'s encoded block for every row |
| `Layout.Offset` | encoding.py:110 | `np.sum(ans_widths[:k])`, the position where block `k` starts |
| `Layout.BlockOf` | encoding.py:111-115 | `row[start:end]` for column `k`, a slice exactly `ans_widths[k]` long |
| `Layout.OffsetStep` | encoding.py:110-111 | block `k+1` starts where block `k` ends, so encode's running `mapped_index` and decode's `np.sum(ans_widths[:k])` are the same offsets |
| `Layout.BlockWithin` | encoding.py:110-111 | every block lies inside the total width `sum(ans_widths)` |
| `Layout.Locate` | encoding.py:93 | every position of the layout lies in some block `j` at some place `p < ans_widths[j]` |
| `Layout.LocateUnique` | encoding.py:97-102 | a position lies in at most one block at one place, so the blocks encode lays down never overlap |
| `Layout.ConcatBlock` | encoding.py:100-101 | cutting block `j` out of blocks of the given widths laid end to end gives back block `j` |
| `Ngrams.GenerateNgrams` | ngrams.py:4-16 | `generate_ngrams(line, count)`: the tokens are zipped with their shifts and every tuple is joined by single spaces; its count and contents are stated by `NgramCount`, `NgramAt` and `NgramWords` |
| `Ngrams.LowerLine` | ngrams.py:8 | `line.lower()` keeps the length, leaves no upper-case letter and changes no other character |
| `Ngrams.SubNonWord` | ngrams.py:9 | `re.sub(r'\W+', ' ', line)` never yields two adjacent spaces, and a line starting with a word character keeps it in front |
| `Ngrams.Split` | ngrams.py:11 | `line.split(" ")` yields at least one piece, empty pieces included |
| `Ngrams.NonEmpty` | ngrams.py:11 | the `token != ""` filter, keeping the order of the pieces |
| `Ngrams.Tokens` | ngrams.py:8-11 | the tokens of a line: lower-cased, non-word runs replaced by a space, split on spaces, empty pieces dropped |
| `Ngrams.Shifts` | ngrams.py:15 | `[tokens[i:] for i in range(count)]`, with no list for `count <= 0` |
| `Ngrams.Zip` | ngrams.py:15 | `zip(*lists)`: tuple `k` holds entry `k` of every list, as many tuples as the shortest list is long, none for no lists |
| `Ngrams.Join` | ngrams.py:16 | `" ".join(words)` |
| `Ngrams.SubNonWordChars` | ngrams.py:9 | after `re.sub(r'\W+', ' ', ...)` every character is a space or a word character of the input |
| `Ngrams.SplitChars` | ngrams.py:11 | the pieces of `split(" ")` hold no space and only characters of the input |
| `Ngrams.NonEmptyParts` | ngrams.py:11 | the filter keeps only non-empty pieces, and only pieces that were there |
| `Ngrams.TokensWellFormed` | ngrams.py:8-11 | every token is non-empty and made of lower-case word characters, so it holds no space |
| `Ngrams.MinLength` | ngrams.py:15 | the result is at most the length of every list and equal to the length of one of them, so `zip` truncates to the shortest list |
| `Ngrams.NgramCount` | ngrams.py:15-16 | there are `len(tokens) - count + 1` n-grams when `1 <= count <= len(tokens)`, and none otherwise (`count <= 0` gives `zip()` of nothing) |
| `Ngrams.NgramAt` | ngrams.py:15-16 | the `k`-th n-gram is `tokens[k:k+count]` joined by single spaces, so n-grams come in token order |
| `Ngrams.Unigrams` | ngrams.py:11-16 | with `count = 1` the n-grams are exactly the tokens |
| `Ngrams.SplitJoin` | ngrams.py:16 | splitting `" ".join(words)` on spaces gives back the words, for one or more words without spaces |
| `Ngrams.NgramWords` | ngrams.py:15-16 | splitting the `k`-th n-gram on spaces gives back its window of tokens |
| `Ngrams.NgramsLowercase` | ngrams.py:8 | no n-gram contains an upper-case letter |

## Left out

- `load_csv` (encoding.py:23-29) is file I/O through the `csv` module. The model takes the training rows as a sequence, with the header already dropped.
- `load` and `save` (encoding.py:31-52) persist the encoder with `pickle`, which is I/O through a foreign library.
- The `__main__` drivers of both files are scripts: build and save an encoder, print one example.
- numpy details are not modelled: the float dtype of the matrices, the `True`-to-1.0 assignment, the `np.int32` type of `ans_widths` (whose wrap-around would need more than 2^31 distinct answers in one column), and the `np.array` wrapper around decode's result.
- Encoding.Encoder.Decode: matrix entries are integers, whereas the source accepts any numbers, such as float outputs of a model. Rows narrower than the layout are excluded, whereas numpy would slice them short.
- Encoding.Encoder.KthPrunedFeature: `k` must be a column index `0 <= k < len(ans_widths)`; Python's negative indices are not modelled.
- Encoding.Encoder.Encode: reads `this.indexToAns` where the source reads the module-global `ENCODER`, which the model does not have. When `ENCODER` is a different encoder, the source's output width is not this encoder's. `ENCODER` is assigned only under `__main__` (encoding.py:129), so when encoding.py is imported, `encode` raises NameError at encoding.py:93.
- Unicode is not modelled in `ngrams.py`. `str.lower` lowers only `A`..`Z`, and `\W` treats only ASCII letters, digits and `_` as word characters.
