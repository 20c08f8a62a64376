# jfp14-unreachable: a verified model of the rewrite-rule codec

The repository implements a small text codec built around one engine, the
`Program` of `src/program.rs`. It holds a table of rewrite rules
`(pattern, replacement)` and works in one of two modes:

- **Compress mode.** The table is sorted by replacement length. `eval`
  repeatedly strips the first pattern (in table order) that prefixes the
  rest of the input, and emits that rule's replacement.
- **Decompress mode.** The table is sorted longest pattern first. At
  construction every replacement is *normalised*: each maximal run of
  `0`/`1` characters in it is evaluated again and normalised recursively.
  `eval` emits normalised replacements.

`src/compression.rs` builds codes for the compress mode:

- `count_occ` weighs the characters and some prefixes of a word.
- `hash_to_huffman_tree` merges the two lightest heap entries until one tree
  is left.
- `eval_huffman_tree` reads a binary code for every leaf off the tree.
- `compress` works in two passes. It first records which rules of a given
  table a greedy scan uses. It then rebuilds a Huffman code over those
  patterns (`simplify_huff`) and encodes the input with it.
- `display` writes the table as `code=pattern` lines, an empty line and the
  bitstring.
- `compress_word` chains all of the above.

`decompress` in `src/bin/exo1.rs` reads such a file back and evaluates it in
decompress mode.

The Dafny modules:

| file | module | models |
|---|---|---|
| `text.dfy` | `Text` | rules, optional results, strings of bits |
| `rules.dfy` | `Rules` | `src/program.rs`: the stable sort, the specification functions `Scan`, `Rewrite`, `Normalize` and `Build`, and the class `Program`, whose methods are proved against them |
| `huffman.dfy` | `Huffman` | `count_occ`, the heap and tree construction, the code table of a tree |
| `decompress.dfy` | `Decompression` | Rust's `str::lines`, `split_once`, the file parser and `decompress` |
| `compression.dfy` | `Compression` | `simplify_huff`, `compress`, `display` and `compress_word`, and the round trip through `decompress` |

Modelling conventions:

- Wherever the original panics (`unwrap` on nothing) or never returns, the
  result is `None`.
- A `fuel` parameter bounds only how deeply normalisation may call `eval`
  and `eval` may call normalisation. Every lemma about a successful result
  also holds for any larger fuel (`RewriteFuel`, `NormalizeFuel`).
- An `eval` scan that cannot make progress is `None`. That is either no
  pattern matches, or the first pattern that matches is empty. The original
  spins forever in both cases.
- `HashMap`, `HashSet` and `BinaryHeap` order is arbitrary in the original.
  The methods that enumerate them pick any order (`:|`) and are specified for
  every order.
- `PopMin` takes any entry of least priority. This is the reversed
  `PriorityElement` ordering, which makes Rust's max-heap a min-heap.

The code and the repository's own expectations disagree in one place, and
the model follows the code. The test at `src/compression.rs:288-296` expects
`count_occ` to return plain character counts. The code does something else:

- It re-runs the per-character loop once per prefix round, and the bump
  saturates at 30.
- It then stores `occ * len - 10` under the prefix key of that round. When a
  prefix has one character, this overwrites that character's count.
- The empty prefix is always a key, with weight -10.

`CountOccExample` shows the result on `"abcd"`: `"" -> -10`, `"a" -> -8`,
`"b"`, `"c"` and `"d"` -> 2.

The empty key can make `compress_word` hang. It receives a code of its own,
and the empty pattern matches everywhere. On `"abcd"` the codes of `""` and
`"a"` have the same length. When the map order places `""` first, the first
scan of `compress` takes the empty pattern at position 0 and never advances.
The model returns `None` there: `Compresses` makes a stuck first scan fail.

The tests at `src/compression.rs:298-320` depend on the `count_occ` test
above, so the model does not reproduce them. Instead, `CodeTableExample`
checks `eval_huffman_tree` on the tree those tests describe.

## Model

| member | source | states |
|---|---|---|
| Rules.Program.constructor | src/program.rs:14-17 | the new program holds the given table and mode |
| Rules.Program.Sort | src/program.rs:27-32 | the table becomes the stable sort of the old table by the mode's key |
| Rules.StableSortCorrect | src/program.rs:27-32 | the sorted table is ordered by the key, is a permutation of the input, and rules with equal keys keep their relative order |
| Rules.SortOrderByMode | src/program.rs:29-30 | Compress mode: replacement lengths never decrease. Decompress mode: pattern lengths never increase |
| Rules.DecompressSortExample | src/program.rs:103-116 | the repository's example: `00=cad` is placed before `0=abra` |
| Rules.CollectBits | src/program.rs:50-53 | collects the maximal run of `0`/`1` starting at `i`, and stops at the end or at the first non-bit |
| Rules.Program.NormalizeRhs | src/program.rs:34-65 | the result equals `Normalize` of the current table on `rhs`: literal characters are copied, and each bit run is evaluated, then normalised again |
| Rules.Program.NormalizeRun | src/program.rs:47-57 | one bit run starting at `start`: the run is collected, evaluated and normalised again. The outcome, followed by the normalisation of the rest, is the normalisation from `start`. A failed evaluation makes the whole normalisation fail |
| Rules.NormalizeNoBits | src/program.rs:34-65 | a normalised replacement contains no `0` or `1` |
| Rules.NormalizeIdentity | src/program.rs:45-62 | a replacement without `0`/`1` is its own normalisation |
| Rules.NormalizeIdempotent | src/program.rs:34-65 | normalising a normalised replacement changes nothing |
| Rules.NormalizeFuel | src/program.rs:34-65 | a normalisation that succeeds gives the same result with any larger nesting bound |
| Rules.Program.NormalizeInstrs | src/program.rs:67-72 | succeeds exactly when `NormalizeFrom` does. The table then equals it: entries are rewritten in order, each against the table as already updated |
| Rules.NormalizeFromShape | src/program.rs:67-72 | normalising the table keeps its length, all patterns and the entries before the start position. Every later replacement ends up free of bits |
| Rules.NormalizeFromFixed | src/program.rs:67-72 | a table whose replacements have no bits is left as it is |
| Rules.NormalizeTableIdempotent | src/program.rs:67-72 | normalising a normalised table changes nothing |
| Rules.InsertSorted | src/program.rs:29-30 | one insertion step of the stable sort: `x` goes after every rule whose key is not above its own |
| Rules.New | src/program.rs:13-25 | a fresh program with the given mode. `ok` holds exactly when `Build` succeeds, and the table then equals `Build`'s result |
| Rules.BuildFacts | src/program.rs:13-25 | Compress mode builds exactly the sorted table. Decompress mode keeps the sorted patterns in order and makes every replacement bit-free. It leaves the sorted table as it is when no replacement has bits |
| Rules.Program.Eval | src/program.rs:74-95 | the result equals `Rewrite` on the current table: greedy first-match rewriting, with normalised replacements in Decompress mode |
| Rules.Program.Apply | src/program.rs:80-87 | the text appended for a matched rule is its replacement in Compress mode and the normalised replacement in Decompress mode |
| Rules.FindRule | src/program.rs:78-79 | the index of the first rule whose pattern is a prefix of the text, or the table size when there is none |
| Rules.EvalAdvance | src/program.rs:77-91 | after one iteration the answer so far, followed by the rewriting of the remainder, is still the rewriting of the whole input; a missing output makes it fail |
| Rules.RewriteStep | src/program.rs:77-91 | one iteration: the first matching rule's output, followed by the rewriting of what is left after its pattern |
| Rules.RewriteIsScan | src/program.rs:74-95 | `eval` succeeds exactly when the greedy scan succeeds and every applied output exists. The result is the concatenation of those outputs |
| Rules.ScanConsumes | src/program.rs:77-91 | the applied rules' patterns concatenate back to the input; none is empty, and each is the first match at its step |
| Rules.CompressOutputs | src/program.rs:81 | in Compress mode the output is the concatenation of the applied replacements |
| Rules.DecompressOutputsPlain | src/program.rs:82-86 | in Decompress mode, when replacements have no bits, the output is the concatenation of the applied replacements |
| Rules.RewriteStuck | src/program.rs:77-92 | a remainder that no non-empty first match consumes makes `eval` fail |
| Rules.RewriteFuel | src/program.rs:74-95 | a successful evaluation gives the same result with any larger nesting bound |
| Rules.ScanUnique | src/program.rs:77-91 | over a prefix-free table, scanning a concatenation of non-empty patterns recovers exactly those rules |
| Huffman.Bump | src/compression.rs:73-77 | a counter below 30 goes up by one. A counter at or above 30 is reset to 30, so the result never exceeds 30 |
| Huffman.CharPassFacts | src/compression.rs:70-83 | the per-character pass adds a key for every character of the word, caps those keys at 30, and leaves all other keys alone |
| Huffman.RoundsKeys | src/compression.rs:65-86 | after `k` rounds the keys are the word's characters plus its first `k` prefixes |
| Huffman.CountOccFacts | src/compression.rs:62-89 | the keys are the characters of the word and its prefixes of length up to `len/4`. The empty prefix weighs -10. Single-character keys other than the last prefix weigh at most 30 |
| Huffman.CountOccExample | src/compression.rs:62-89 | on `"abcd"` the result is `"" -> -10`, `a -> -8`, and `b`, `c`, `d -> 2` |
| Huffman.CountOcc | src/compression.rs:62-89 | the map built by the loops equals `CountOccMap`, and the empty prefix weighs -10 |
| Huffman.PopMin | src/compression.rs:32-36 | removes one entry whose priority is least. The remaining entries are the rest of the heap as a multiset, and keep their leaves |
| Huffman.FillHeap | src/compression.rs:97-99 | one leaf per key, each weighted by its value in the map |
| Huffman.MergeStep | src/compression.rs:101-116 | pops an entry `fst` of least priority, then an entry `snd` of least priority among the rest. The new heap is the old one minus those two, plus the node with `fst` on the left and the summed priority. The leaves are kept, and each entry's priority stays its tree's weight, with the lighter child on the left |
| Huffman.BuildTree | src/compression.rs:91-119 | fails exactly on an empty map. A single key gives a leaf. Otherwise the tree's leaves are exactly the keys, with the lighter child on the left at every node |
| Huffman.PathsCodes | src/compression.rs:121-136 | each leaf's code extends the prefix by bits only, and extends it strictly under an internal node |
| Huffman.PathsPrefixFree | src/compression.rs:121-136 | no leaf's code is a prefix of another leaf's code |
| Huffman.Walk | src/compression.rs:121-136 | the traversal appends the (leaf, code) pairs of the subtree in left-to-right order |
| Huffman.EvalHuffmanTree | src/compression.rs:138-152 | the returned map equals `CodeTable` of the tree; a lone leaf gets code `0` |
| Huffman.CodeTableFacts | src/compression.rs:138-152 | the keys are exactly the leaves; every code is a non-empty string of bits; the code is prefix-free |
| Huffman.CodeTableExample | src/compression.rs:310-320 | the tree from the repository's test gets `c -> 0`, `b -> 100`, `d -> 101` and `a -> 11` |
| Compression.MapEntries | src/compression.rs:190-194 | lists the map's pairs once each, in some order |
| Compression.SetEntries | src/compression.rs:212-215 | lists the set's pairs once each, in some order |
| Compression.MaxCodeLen | src/compression.rs:157 | the length of the longest code in the table |
| Compression.ReweightFacts | src/compression.rs:157-161 | the keys are exactly the patterns. Each weight is `max_len` minus the length of one of that pattern's codes, and with one rule per pattern it is that rule's code |
| Compression.ReweightTable | src/compression.rs:159-161 | the loop builds exactly `Reweight`: each pattern weighs `max_len` minus its code length, the last rule for a pattern winning |
| Compression.SimplifyHuff | src/compression.rs:154-173 | fails exactly on an empty table. The new table is ordered and prefix-free with non-empty bit codes. It lists each pair of the code table of a Huffman tree once, and nothing else. The tree's leaves are the same patterns, reweighted by code length |
| Compression.ReweightUnique | src/compression.rs:157-161 | when no two rules share a pattern, each pattern weighs `max_len` minus the length of its own code |
| Compression.SameMap | src/compression.rs:212-215 | two tables with the same rules, one code per pattern, insert into the same map whatever their order |
| Compression.SameWeights | src/compression.rs:157-161 | two such tables get the same weights, so listing the hit set in another order does not change the tree's weights |
| Compression.FirstTable | src/compression.rs:190-196 | the first table holds exactly the map's pairs, sorted by code length |
| Compression.SortedTable | src/compression.rs:212-217 | `Program::new` in Compress mode keeps the same rules, sorts them by code length and keeps their number |
| Compression.SecondTable | src/compression.rs:212-219 | fails exactly when no rule was used. Otherwise the table is a usable code and satisfies `HuffmanCode` over the used rules: its weights are `max_len` minus each code's length, the tree is a lighter-left Huffman tree over those weights, and the table lists each (pattern, code) pair of the tree's code table once |
| Compression.HuffmanCodeOver | src/compression.rs:154-173 | the facts `simplify_huff` gives about its result, stated over the used rules, make up `HuffmanCode` |
| Compression.UsedUnique | src/compression.rs:190-206 | the rules the first scan applies come from a map, so no two of them share a pattern |
| Compression.SecondPassFacts | src/compression.rs:198-219 | the second table's patterns are exactly the non-empty patterns the first scan used, each a key of the map |
| Compression.CollectHits | src/compression.rs:198-215 | succeeds exactly when the greedy scan does; the hit set is exactly the set of rules it applied |
| Compression.Encode | src/compression.rs:221-231 | succeeds exactly when the greedy scan with the new code does; the output is the concatenation of the applied codes |
| Compression.CompressIsScan | src/compression.rs:223-231 | the second pass computes exactly what `eval` in Compress mode computes |
| Compression.CompressString | src/compression.rs:189-234 | `Compresses`: the first table is the given map, sorted by code length. An empty input or a stuck first scan fails. Otherwise the second table is a usable code over exactly the patterns the first scan used. It lists once each pair of the code table of a lighter-left Huffman tree, whose weights are `max_len` minus each used rule's code length (`HuffmanCode`). Compression then succeeds exactly when the greedy scan with that code gets through the input, and returns that code and the bitstring of that scan |
| Compression.EncodedFacts | src/compression.rs:221-233 | the applied patterns spell the input, and the output is bits only; it is non-empty for a non-empty input |
| Compression.ParseSerialized | src/compression.rs:235-245 | parsing the displayed text gives the table with sides swapped, and the bitstring |
| Compression.DecodeTable | src/program.rs:13-25 | reading the swapped code table back in Decompress mode only sorts it, since normalisation changes nothing. The result is a prefix-free table that contains every (code, pattern) pair |
| Compression.DecodeBits | src/bin/exo1.rs:23-25 | evaluating the encoded bitstring with the sorted, swapped code table gives back the input, for every nesting bound |
| Compression.RoundTrip | src/compression.rs:235-245 | decompressing the displayed text of a successful compression of a non-empty input gives back the input. This needs patterns free of `0`, `1` and line breaks, holds for every nesting bound, and is in src/bin/exo1.rs:5-26 |
| Compression.Display | src/compression.rs:235-245 | the compression behind the text satisfies `Compresses`. The text exists exactly when that compression succeeds, and is its serialisation. When no pattern of the map has bits or line breaks, decompressing it gives back the input |
| Compression.CountKeysPlain | src/compression.rs:62-89 | a word without bits or line breaks yields weight keys with neither |
| Compression.CompressWord | src/compression.rs:247-251 | the code table passed to `display` is the code table of a tree whose leaves are exactly the keys of `count_occ`'s map, with the lighter child on the left. The result is `display` on that table and satisfies `Compresses`, so an empty word fails. For a word without bits or line breaks, decompressing the output gives back the word |
| Decompression.LinesCons | src/bin/exo1.rs:8 | a line without line breaks, followed by `\n`, is the first line of the text |
| Decompression.SplitOnce | src/bin/exo1.rs:17 | fails exactly when there is no `=`. Otherwise the line is the left part, `=` and the right part, and the left part has no `=` |
| Decompression.SplitOnceJoin | src/bin/exo1.rs:17 | splitting `a=b` with `=` absent from `a` gives back `(a, b)` |
| Decompression.ParseFromShape | src/bin/exo1.rs:8-21 | a successful parse reads one rule per line up to the first empty line, in file order, then takes the next line as the bitstring |
| Decompression.ParseNoSeparator | src/bin/exo1.rs:12-21 | a file without an empty line fails |
| Decompression.ParseFile | src/bin/exo1.rs:8-21 | the loop over the lines equals `Parse` |
| Decompression.DecompressFile | src/bin/exo1.rs:5-26 | the result equals `DecompressText`: parse, build a Decompress program, evaluate the bitstring |
| Decompression.SelfReferenceDiverges | src/bin/exo1.rs:5-26 | the file `0=0`, an empty line, `0` never decompresses: the rule's replacement is its own code |

## Left out

- Reading files, command-line arguments and printing (`main` of
  `src/bin/exo1.rs`, `src/bin/exo3.rs`, `src/main.rs`) are left out. The
  operations take and return the file contents as strings.
- `_read_words` and `_q4` (src/compression.rs:253-281) read a word list from
  disk and use nothing from it. They are not part of this model.
- `i32` and `usize` arithmetic is unbounded in the model, so the model
  does not capture `i32` overflow in `count_occ` and `hash_to_huffman_tree`.
  The overflow does happen on long words. Every prefix key `s[..i]` with
  `1 <= i <= len/4` weighs at least `2i - 10`, since `s.split(s[..i])`
  yields at least two pieces (src/compression.rs:67,85). The root priority
  pushed at src/compression.rs:115 is the sum of all weights, roughly
  `len²/16` or more. That exceeds `i32::MAX` from about 186,000 characters.
  Beyond that the addition panics in a debug build. In a release build it
  wraps, and the wrapped sums can reorder the heap.
- Strings are sequences of characters. The original slices and counts by
  UTF-8 bytes (`s[..i]`, `len()`, `as_bytes`), so only ASCII text is modelled
  faithfully.
- `Node` is modelled as a leaf or an internal node with two children, the
  only shapes the original builds. `Node::new` with no children appears only
  as the intermediate value that `hash_to_huffman_tree` fills in.
- Rewrite, Normalize, Program.Eval, Program.NormalizeRhs: termination of the
  nesting between normalisation and evaluation is bounded by `fuel`. A
  result that needs more nesting than the bound is `None`, and the model
  does not decide whether the original would finish.
- Program.Eval: a scan that cannot make progress is `None`, where the
  original loops forever without output.
- Huffman.BuildTree: optimality of the Huffman code, or any bound on the
  encoded length, is not proved. The contract states the leaves and the
  lighter-left shape only.
- Compression.RoundTrip, Compression.Display, Compression.CompressWord: the
  round trip is proved only for patterns without `0`, `1`, `\n` or a final
  `\r`. Bits in a pattern are decoded again by the decompressor, as
  `SelfReferenceDiverges` shows. Line breaks change the lines of the
  displayed text.
- The repository's tests of `count_occ` and `hash_to_huffman_tree`
  (src/compression.rs:287-308) expect values the code does not compute, as
  described above, and are not reproduced.
