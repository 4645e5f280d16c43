# csv-split, modelled in Dafny

csv-split cuts a CSV file into smaller files of at most `max_rows` records
each. Every output file starts with the input's first line (the header).
The tool has two strategies:

- **Sequential** (`split_seq`). It calls `write_batch` repeatedly on one
  forward-only line iterator. Each call creates file `{dir}/{stem}-{batch}.csv`
  (batch numbers start at 1), writes the header and then up to `max_rows`
  records. It stops after the first call that ran out of records.
- **Chunking** (`split_par`). It collects the whole body, cuts it into
  contiguous slices of `max_rows` records (`par_chunks_mut`), and writes slice
  `i` (counting from 0) as file number `i` with `process_slice`.

The model keeps the source's form:

- The output directory is a `FileSystem` object, a map from path to contents.
  Creating a file truncates it, and every `write` appends to it.
- The input is a `LineStream` object: the file's lines, already split, plus a
  cursor.
- `write_bytes`, `write_batch`, `split_seq`, `process_slice` and `split_par`
  are methods with the source's loops. Each is proved against a specification
  function of what it leaves behind:
  - `WriteBytes` against `Line`, the bytes followed by one LF.
  - `WriteBatch` and `ProcessSlice` against `FileContent`, the header line
    followed by the record lines.
  - `SplitSeq` against `SeqOutput` and `SplitPar` against `ParOutput`. These
    give the whole set of files written and are both built from `Outputs`.
- The cutting itself is two pure functions. `Batches` is the sequential cut
  and `Chunks` is the parallel cut.
- The lemmas state what the tool promises about these functions: file counts,
  batch sizes, contents, completeness and order, header replication, distinct
  file names, and how the two strategies relate.

Files:

- `decimal.dfy` prints a batch number in decimal and reads it back.
- `records.dfy` gives the line format of an output file and reads it back
  (split on LF).
- `partition.dfy` holds `Chunks`, `Batches` and their lemmas.
- `io.dfy` holds the file-system and line-stream classes.
- `split.dfy` holds the operations of `src/main.rs` and the lemmas about
  what they write.

### Where the code differs from what a reader might expect

A reader might expect both modes to write `ceil(R / M)` files, numbered from 1,
with no empty trailing file. The code does otherwise, and the model follows
the code:

- `write_batch` creates the file and writes the header before it knows whether
  any record is left. It returns "done" only when it found fewer than
  `max_rows` records. So when `R` is a multiple of `M` (including `R = 0`),
  the sequential mode ends with a file that holds only the header. It writes
  `R / M + 1` files (`SeqFiles`, `SeqTrailingHeaderOnly`).
- The chunking mode numbers its files with `.enumerate()`, from 0. The same
  contents therefore sit under different names in the two modes: parallel
  file `n` equals sequential file `n + 1` (`StrategiesAgreeAt`). The
  chunking mode writes no file at all for an empty body (`ParFiles`).

## Model

| member | source | states |
|---|---|---|
| `CsvSplit.WriteBytes` | src/main.rs:40-43 | appends exactly the given bytes then one LF (0x0A) to the file, and changes no other file |
| `Records.ReadLinesOfLines` | src/main.rs:40-43 | records without LF, written one after the other by `write_bytes`, split back at LF into exactly those records |
| `Records.ReadFileContent` | src/main.rs:64-66 | a written file (header line, then record lines) reads back as the header followed by the records, in order |
| `Io.FileSystem.Write` | src/main.rs:41-42 | one write call appends its bytes to the named file and leaves the other files alone |
| `Io.FileSystem.Create` | src/main.rs:61 | `File::create` makes the named file empty, whether it existed or not, and touches no other file |
| `Io.LineStream.Next` | src/main.rs:70 | the iterator yields the next line and advances by one, or yields nothing and stays put once exhausted |
| `Io.LineStream.Collect` | src/main.rs:150 | collecting yields every remaining line, in order, and exhausts the stream |
| `Decimal.NatToString` | src/main.rs:46 | the batch number prints as at least one decimal digit, with no leading zero unless the number is 0 |
| `Decimal.ParseNatToString` | src/main.rs:46 | reading the printed batch number back gives the number |
| `Decimal.NatToStringInjective` | src/main.rs:46 | distinct batch numbers print differently |
| `CsvSplit.FileName` | src/main.rs:45-47 | the name starts with the output directory, "/", the stem and "-", and ends with ".csv" |
| `CsvSplit.FileNameNumber` | src/main.rs:45-47 | between the stem's "-" and ".csv" the name holds only decimal digits, and they read back as the batch number |
| `CsvSplit.FileNameInjective` | src/main.rs:45-47 | for a fixed output directory and stem, distinct batch numbers give distinct file names |
| `CsvSplit.WriteBatch` | src/main.rs:49-79 | file `batch` becomes header+LF followed by the next k = min(max(max_rows, 0), remaining) records, each followed by LF, in stream order; the cursor advances by exactly k; no other file changes; the result is true iff fewer than max_rows records remained, so it is false after exactly max_rows records even when that empties the stream |
| `CsvSplit.SplitSeq` | src/main.rs:81-107 | for max_rows > 0 it terminates, consumes the whole input and leaves exactly the previous files overlaid with `SeqOutput` of the header and the body |
| `CsvSplit.ProcessSlice` | src/main.rs:110-131 | file `batch` becomes header+LF followed by every record of the slice, in order, each followed by LF, and nothing else; no other file changes |
| `CsvSplit.SplitPar` | src/main.rs:133-156 | for max_rows > 0 it consumes the whole input and leaves exactly the previous files overlaid with `ParOutput` of the header and the body |
| `CsvSplit.OutputsAt` | src/main.rs:60 | when batches are written under consecutive numbers, file n holds the header and batch n; a later batch never overwrites an earlier one |
| `CsvSplit.OutputsOnly` | src/main.rs:120 | every file written carries the number of one of the batches |
| `CsvSplit.OutputsCount` | src/main.rs:120 | there are exactly as many files as batches |
| `Partition.Batches` | src/main.rs:98-105 | the sequential loop makes at least one `write_batch` call, so there is always at least one batch |
| `Partition.BatchesLastShort` | src/main.rs:68-78 | every batch but the last holds exactly M records, and the last (the call that returns true) holds fewer than M |
| `Partition.BatchesFlatten` | src/main.rs:98-105 | the sequential batches joined in order give back the body exactly |
| `Partition.BatchesCount` | src/main.rs:98-105 | the sequential loop runs R / M + 1 times |
| `Partition.BatchAt` | src/main.rs:68-78 | sequential batch i (from 0) is the body's records [i*M, min((i+1)*M, R)) |
| `Partition.BatchSizes` | src/main.rs:68-78 | sequential batches before number R / M hold exactly M records; the last holds R mod M |
| `Partition.BatchesAreChunks` | src/main.rs:151-153 | the sequential batches are the chunks, plus one empty batch exactly when M divides R (R = 0 included) |
| `Partition.Chunks` | src/main.rs:151 | `par_chunks_mut(M)` yields no chunk exactly when the body is empty, and its first chunk is the first min(M, R) records |
| `Partition.ChunksFlatten` | src/main.rs:151 | the chunks joined in order give back the body exactly |
| `Partition.ChunksCount` | src/main.rs:151 | there are ceil(R / M) chunks, none for an empty body |
| `Partition.ChunkAt` | src/main.rs:151-153 | chunk i (from 0) is the body's records [i*M, min((i+1)*M, R)), and is not empty |
| `Partition.ChunkSizes` | src/main.rs:151 | every chunk but the last has exactly M records; the last has between 1 and M |
| `CsvSplit.SeqFile` | src/main.rs:96-105 | sequential file n (1 <= n <= R / M + 1) exists and holds the header and records [(n-1)*M, min(n*M, R)): exactly M of them for n <= R / M, and R mod M in the last |
| `CsvSplit.SeqFiles` | src/main.rs:96-105 | the sequential mode writes R / M + 1 files, numbered 1 to R / M + 1 with no gaps, and no other file |
| `CsvSplit.SeqTrailingHeaderOnly` | src/main.rs:60-78 | the last sequential file holds the header alone if and only if M divides R, R = 0 included |
| `CsvSplit.SeqReadBack` | src/main.rs:96-105 | reading the sequential files back in number order, without their header lines, gives the body exactly |
| `CsvSplit.ParFile` | src/main.rs:147-154 | parallel file n (0 <= n < ceil(R / M)) exists and holds the header and records [n*M, min((n+1)*M, R)): between 1 and M of them, and exactly M except in the last file |
| `CsvSplit.ParFiles` | src/main.rs:150-153 | the chunking mode writes ceil(R / M) files, numbered 0 to ceil(R / M) - 1, and no other file; it writes none exactly when the body is empty |
| `CsvSplit.ParReadBack` | src/main.rs:150-153 | reading the parallel files back in number order, without their header lines, gives the body exactly |
| `CsvSplit.HeaderInEveryFile` | src/main.rs:96-125 | every file either strategy writes starts with the input's first line, byte for byte, then LF |
| `CsvSplit.StrategiesAgreeAt` | src/main.rs:151-153 | parallel file n has the same contents as sequential file n + 1 |
| `CsvSplit.StrategiesFileCount` | src/main.rs:98-105 | the sequential mode writes one more file than the chunking mode exactly when M divides R, and that extra file holds only the header |

## Left out

- Command-line parsing (`Opts`, clap), `main` and its choice of strategy (src/main.rs:21-38, 158-181). This is glue and has no logic to prove.
- Creating the output directory (`fs::create_dir_all`, src/main.rs:162). This is a file-system side effect.
- Opening the input file and finding its stem (`File::open`, `Path::file_stem`). The stem is a string parameter and the input is the `LineStream` passed in.
- How `bytelines` splits lines, including any CR/LF handling. The input arrives already split into lines. `ReadLines` is the model's own LF splitter, used only to read output back.
- `BufWriter` buffering and flushing. Each `write` call is a full append to the file. The source's `write` could in principle write only part of its buffer.
- The rayon `par_chunks_mut(...).for_each` fan-out. `SplitPar` writes the chunks in an ordinary loop, in index order. The chunks are disjoint and their names distinct (`FileNameInjective`), so the order of the writes does not change the final files.
- Panics from `unwrap`/`expect` on I/O and per-line read errors. They become preconditions: the input has at least one line, and every line reads successfully (the stream holds only bytes). A failing file creation or write is not modelled.
- `max_rows <= 0`. `SplitSeq` and `SplitPar` require `max_rows > 0`. With `max_rows <= 0` the source's sequential loop never ends. `WriteBatch` itself accepts any `i32` and shows why: it consumes nothing and returns false. In the parallel mode, `par_chunks_mut(0)` panics. A negative `max_rows` is sign-extended by `max_rows as usize` into a chunk size of at least 2^63 on a 64-bit target, so the whole body becomes one chunk, written as file 0, and an empty body gets no file.
- The negative `i32` to `usize` cast at src/main.rs:151. It is excluded by `max_rows > 0`.
- The batch counter is a `usize` in the source and a `nat` here. Its wrap-around after 2^64 batches is not modelled.
- `ProcessSlice` takes the slice as a sequence of records. The source hands it a mutable slice of the collected vector but never changes it.
