# dedup — a Dafny model

`dedup` is a small command-line tool. It takes one or more directory roots and reports groups of files with identical content. It works in three phases:

1. **Size grouping.** It walks every root recursively. Each regular file not seen before in the run whose size can be read goes into a size multimap, keyed by the file's exact byte size. A file whose size query fails is reported on standard error and skipped.
2. **Hashing.** For every size shared by at least two entries, it streams each member through BLAKE2b-512 in 64 KiB chunks. Each successfully hashed path goes into a digest multimap.
3. **Reporting.** For every digest that has at least two paths, it prints the digest in lower-case hex, followed by the paths.

`main` runs phases 1 and 2 once per root, then prints. The run fails if no root is given or if a digest context cannot be allocated. A walk that throws on a missing root ends the process through an uncaught exception.

The model is written in Dafny, with one module per part of the program:

| module | file | models |
|---|---|---|
| `Wrappers` | wrappers.dfy | `Option` / `Result` |
| `Hex` | hex.dfy | `str_to_hex`, plus a decoder for it |
| `Hashing` | hashing.dfy | `compute_file_hash` and its chunked read loop |
| `SizeMap` | sizemap.dfy | `populate_size_map` and the set of processed paths |
| `HashMap` | hashmap.dfy | `populate_hash_map` |
| `Report` | report.dfy | `print_duplicates` |
| `Driver` | driver.dfy | `main` |

Modelling choices:

- **Multimaps** (`std::unordered_multimap`) are sequences of pairs in iteration order.
  - Only the multiset of pairs is meaningful.
  - `print_duplicates` is modelled over an arbitrary iteration order. Its "each digest printed once" property is proved for every *grouped* order, in which equal keys are adjacent, as the C++ standard guarantees for unordered associative containers.
  - `Report.GroupByKey` supplies one such order to the driver.
- **The digest engine** (`EVP_*`) is an abstract `Engine`. Initialisation and chunk absorption may fail. Finalisation is a deterministic, partial function of all bytes absorbed.
- **Files.**
  - A file is either unopenable, or it delivers its content and then ends cleanly or with an I/O error.
  - The directory walk of a root is the sequence of entries it yields, or `None` when it throws.
  - Each entry records whether `is_regular_file()` holds and what `file_size` returns.
- **Context allocation** (`EVP_MD_CTX_new`) is a parameter `allocOk`, indexed by the number of the hashing pass.
- **Digests** are 64-byte sequences. Because of this, the empty string that `print_duplicates` starts from never equals a key.
- **Hashing in the driver.** The driver hashes a path through the closed form `Hashing.FileHash`: the engine's finalisation applied to the whole content, unless initialisation, opening, absorption or reading fails. The streaming loop `Hashing.ComputeFileHash` ensures `r == FileHash(engine, file)`, so every driver property holds for the loop as well.

Where the code departs from the tool's intended behaviour, the model follows the code:

- **Engine initialisation.** A failure of `EVP_DigestInit_ex` (`dedup.cpp:27-29`) only makes one file's hash fail; it is not fatal. The only fatal condition in hashing is a failed context allocation (`dedup.cpp:94-101`).
- **Missing root.** A missing root ends the run through an uncaught `filesystem_error`, not with `EXIT_FAILURE`. The model gives it a separate status, `Terminated`.
- **Hashing each path once.** The tool is meant to hash each path at most once, and only after its size bucket is complete. The code re-hashes the cumulative size multimap after every root; see "## Findings".
- **Symlinks.** `is_regular_file()` follows symbolic links, so a link to a regular file is a candidate. The model takes the flag as the walk reports it.

## Model

| member | source | states |
|---|---|---|
| `Hex.ToHex` | dedup.cpp:123-134 | every byte becomes exactly two characters, all lower-case hex digits |
| `Hex.ToHexDigits` | dedup.cpp:128-131 | byte `i` is rendered at positions `2i` and `2i+1`, high nibble first, zero-padded |
| `Hex.HexRoundTrip` | dedup.cpp:123-134 | decoding the rendering of any byte string gives the bytes back |
| `Hex.HexDecodeRoundTrip` | dedup.cpp:123-134 | every string the decoder accepts is the rendering of what it decodes to |
| `Hex.ToHexInjective` | dedup.cpp:123-134 | different digests never print the same hex line |
| `Hex.DigitValue` | dedup.cpp:129-130 | a character has a value exactly when it is a lower-case hex digit, and the value renders back to that character |
| `Hashing.Chunks` | dedup.cpp:31-46 | every chunk a 64 KiB buffered reader delivers is non-empty and at most 65536 bytes |
| `Hashing.FlattenChunks` | dedup.cpp:34-46 | the chunks, read back to back, are the whole content |
| `Hashing.FileHash` | dedup.cpp:19-53 | a file has a digest exactly when init succeeds, the file opens, every chunk is absorbed (vacuous for an empty file), no I/O error occurs and finalisation succeeds; the digest is the finalisation of the concatenated 64 KiB chunks |
| `Hashing.ComputeFileHash` | dedup.cpp:19-53 | the streaming loop yields no digest when init fails, the file cannot be opened, a chunk is rejected or the stream goes bad; otherwise it yields the digest of the entire content, fed exactly as the 64 KiB chunking of the content |
| `SizeMap.Visit` | dedup.cpp:61-86 | an already processed path is skipped; a new one is marked processed, and it enters the multimap, at its end under its size, exactly when it is a regular file with a readable size; the collector invariant is kept |
| `SizeMap.PopulateSizeMap` | dedup.cpp:55-88 | all walked paths end up processed; the multimap only grows at its end, by admissible regular files not processed before; no path enters twice |
| `SizeMap.FirstOccurrenceAdded` | dedup.cpp:59-81 | the first occurrence of a new regular file with a readable size is in the multimap under exactly that size |
| `HashMap.BucketSize` | dedup.cpp:104-106 | the size of `equal_range(n)` is zero exactly when no entry has size `n` |
| `HashMap.BucketShared` | dedup.cpp:104-106 | the size of `equal_range(n)` is more than one exactly when two different entries have size `n` |
| `HashMap.Contribution` | dedup.cpp:104-115 | one iteration of the loop emplaces a pair exactly when the entry's bucket has more than one member and its hash succeeds, and then only that path with its digest |
| `HashMap.HashMembers` | dedup.cpp:103-117 | every digest entry is a bucket member of a bucket larger than one with its own successful digest, and every such member with a successful hash is there |
| `HashMap.PopulateHashMap` | dedup.cpp:90-121 | fails exactly when the context cannot be allocated; otherwise appends, at the end, exactly the candidates with their successful digests |
| `HashMap.HashOrderIndependent` | dedup.cpp:103-117 | any iteration order of the size multimap yields the same digest entries as a multiset |
| `HashMap.HashFailureIsolated` | dedup.cpp:107-115 | a failure to hash one path drops only that path; all other members are processed as before |
| `HashMap.UniqueSizeNeverHashed` | dedup.cpp:104-106 | a file alone in its size bucket never reaches the digest multimap |
| `HashMap.HashMembersDistinct` | dedup.cpp:103-117 | one pass over a multimap that holds each path once produces each path at most once |
| `HashMap.DistinctSizesHashNothing` | dedup.cpp:103-110 | when all sizes differ, nothing is hashed |
| `HashMap.BucketSizeTwo` | dedup.cpp:104-106 | two entries with the same size make a bucket of more than one |
| `Report.EqualRange` | dedup.cpp:148 | `equal_range(d)` lists exactly the paths filed under `d` |
| `Report.EqualRangeCount` | dedup.cpp:148-150 | `equal_range(d)` lists each path as many times as it is filed under `d` |
| `Report.BlockFor` | dedup.cpp:151-155 | a printed block's digest line decodes back to its digest, and it lists exactly the paths filed under that digest |
| `Report.PrintFrom` | dedup.cpp:139-157 | from any position the loop prints only blocks for run starts whose digest has more than one path |
| `Report.PrintFromComplete` | dedup.cpp:141-156 | every run start whose digest has at least two paths is printed |
| `Report.PrintFromDistinct` | dedup.cpp:139-147 | in a grouped order the `curr_key` check prints each digest at most once |
| `Report.PrintDuplicates` | dedup.cpp:136-158 | each block is a digest with at least two paths and all of them; every such digest is printed; a single-path digest never is; in a grouped order no digest is printed twice |
| `Report.GroupByKey` | dedup.cpp:141 | the iteration order used is grouped, has the same entries, and keeps every digest's paths in order |
| `Report.NothingDoubledNoOutput` | dedup.cpp:141-157 | when no digest has two paths, nothing is printed |
| `Report.PrintedPathsDistinct` | dedup.cpp:148-155 | when every path is filed once, no block lists a path twice |
| `Report.PairPrinted` | dedup.cpp:148-155 | two different paths filed under the same digest appear together in that digest's block |
| `Report.SingleDigestPrint` | dedup.cpp:148-155 | entries that all share one digest print as one block listing every path in order |
| `Driver.ProcessRoot` | dedup.cpp:172-178 | one loop iteration fails exactly on a thrown walk (`Terminated`) or a failed allocation (`ExitFailure`); otherwise the size multimap grows at its end, entries stay confirmed, and the pass covers all candidates |
| `Driver.ProcessRoots` | dedup.cpp:172-178 | the loop keeps the collector invariant and confirmed digest entries, and its last pass covers the final size multimap |
| `Driver.ProcessRootsStatus` | dedup.cpp:172-178 | the loop succeeds exactly when every walk and every allocation succeeds; otherwise it ends with the status of the first fatal root |
| `Driver.FailsAtUnique` | dedup.cpp:172-178 | the first fatal root and its status are unique |
| `Driver.HashStepKeepsConfirmed` | dedup.cpp:107-110 | one pass keeps every digest entry confirmed and covers the size multimap it was given |
| `Driver.Main` | dedup.cpp:160-181 | no root gives failure with no output; a non-success run prints nothing; success exactly when every root proceeds, and otherwise the status of the first fatal root; each printed block has at least two path lines, all hashing to the digest it shows, and no digest line is printed twice. The path lines need not name different files: see `Driver.RehashFalsePositive` |
| `Driver.DuplicatesReported` | dedup.cpp:172-180 | two different files in one size bucket with equal digests are printed together under that digest, and every block that lists either of them shows that digest |
| `Driver.ShownDigest` | dedup.cpp:107-110 | a path that hashes to `d` is printed only in the block showing `d` |
| `Driver.DistinctSizesNoOutput` | dedup.cpp:172-180 | files of pairwise different sizes are never reported |
| `Driver.DistinctSizesNothingHashed` | dedup.cpp:172-178 | when the final size multimap has no shared size, no pass hashes anything |
| `Driver.ProcessRootsExtends` | dedup.cpp:172-174 | from root to root the size multimap only grows at its end |
| `Driver.SizeMapPathsUnique` | dedup.cpp:61-65 | each path enters the size multimap at most once, across all roots |
| `Driver.SingleRootNoRepeats` | dedup.cpp:172-180 | with a single root no printed block lists a path twice |
| `Driver.CollectAll` | dedup.cpp:172-174 | walking all roots succeeds exactly when every walk does, and keeps the collector invariant |
| `Driver.MainCorrected` | dedup.cpp:160-181 | with hashing moved after the loop: no root gives failure with no output; success exactly when every walk and the single allocation succeed; `Terminated` exactly when some walk throws, and otherwise `ExitFailure` exactly when the allocation fails; each block lists at least two different paths, all hashing to the digest it shows, and no digest line is printed twice, for any number of roots. Because all roots are walked before the allocation, the failure reported first can differ from `main`'s |
| `Driver.RehashRepeatsPaths` | dedup.cpp:172-178 | for two roots, the program as written prints a duplicate pair twice; the corrected driver prints it once |
| `Driver.RehashFalsePositive` | dedup.cpp:172-178 | for two roots, the program as written prints a file with no duplicate as a group of two lines naming that file; the corrected driver prints nothing |
| `Driver.StatusDiverges` | dedup.cpp:172-178 | an empty first root, a second root whose walk throws, and no context to allocate: `main` ends with `EXIT_FAILURE`, the corrected driver terminates |

## Left out

- Filesystem traversal: `recursive_directory_iterator` and `file_size` are not modelled. Each root's walk is given as its sequence of entries, or `None` when the walk throws.
- A walk that throws part-way through a root is modelled as throwing at the start. The process terminates either way, and nothing it did before is observable.
- The OpenSSL internals are not modelled: BLAKE2b-512 itself, context reset and context release (`EVP_MD_CTX_reset`, `EVP_MD_CTX_free`).
- Hashing.Engine: one `initOk` and one `updateOk` flag hold for the whole run. A per-file or per-chunk failure pattern is not modelled, because the driver's properties do not depend on it.
- Hashing.ComputeFileHash: an I/O fault is modelled as arriving after the whole content was delivered. A fault part-way through gives the same result, no digest.
- Diagnostics on standard error are not modelled: the text of the error messages, the `std::quoted` rendering, and the use of `errno` rather than the returned error code. They do not affect standard output or the exit status.
- Console formatting (newlines and tab characters) is not modelled. The output is a sequence of blocks, each a hex digest line and its paths.
- The iteration order of `std::unordered_multimap` is not modelled. `print_duplicates` is proved for every grouped order; the driver uses `GroupByKey`, which is one such order.
- Byte-for-byte comparison of the files in a group is not modelled. The program does not do it either: a digest collision would report different files as duplicates.
- File sizes are unbounded naturals, not `uintmax_t`. Real file sizes fit in it.
- A file's state (`FileState`: unopenable, or its content and whether reading fails) is fixed for the whole run. The program as written re-reads every candidate in every pass, so a file that changes, or is briefly unreadable, between passes can get a different result in a later pass. The model cannot show this, and `Driver.ShownDigest` and `Driver.ConfirmedBlock` rely on it. Files changing during a run are outside what the tool handles.

## Findings

| source | as written | input that shows it | evidently intended | confidence | as-written member | corrected member |
|---|---|---|---|---|---|---|
| dedup.cpp:172-178 | `populate_hash_map` runs on the cumulative size multimap after every root, so the candidates of earlier roots are hashed and inserted into the digest multimap again. Duplicate pairs are printed twice, and a file that merely shares its size with another is reported as its own duplicate | `dedup r1 r2`, where `r1` holds two one-byte files `a` and `b` and `r2` is empty. With equal content, the block for their digest lists `a` and `b` twice each (in the model's iteration order, `a, b, a, b`). With different content and digests `D1` and `D2`, the output holds a block for `D1` listing `a, a`: a false positive | each candidate hashed once after all roots are walked, so that each path appears once in its group and a file without a duplicate is never printed | high; not executed | `Driver.RehashRepeatsPaths` and `Driver.RehashFalsePositive` (on `Driver.Main`) | `Driver.MainCorrected` |
