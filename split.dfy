/** The splitter itself (src/main.rs): the line writer, the file names, the
    sequential strategy (`write_batch` driven by `split_seq`) and the chunking
    strategy (`process_slice` driven by `split_par`), with what each leaves in
    the output directory stated as a map from file name to contents. */
module CsvSplit {
  import opened Decimal
  import opened Records
  import opened Partition
  import opened Io

  /** Rust's `i32`, the type of the `max_rows` option. */
  newtype i32 = x: int | -0x8000_0000 <= x < 0x8000_0000

  /** `get_filename`: "{output_dir}/{stem}-{batch}.csv". The name is the
      directory, a slash, the stem and a dash, then the batch number in
      decimal (`FileNameNumber`), then ".csv". */
  function FileName(outputDir: string, stem: string, batch: nat): (name: string)
    ensures |outputDir| + |stem| + 2 < |name| - 4
    ensures name[..|outputDir| + |stem| + 2] == outputDir + "/" + stem + "-"
    ensures name[|name| - 4..] == ".csv"
  {
    outputDir + "/" + stem + "-" + NatToString(batch) + ".csv"
  }

  /** Between the dash and ".csv" a file name holds only decimal digits, and
      they read back as the batch number. */
  lemma FileNameNumber(outputDir: string, stem: string, batch: nat)
    ensures var name := FileName(outputDir, stem, batch);
            IsDigits(name[|outputDir| + |stem| + 2 .. |name| - 4]) &&
            ParseNat(name[|outputDir| + |stem| + 2 .. |name| - 4]) == batch
  {
    var name := FileName(outputDir, stem, batch);
    assert name[|outputDir| + |stem| + 2 .. |name| - 4] == NatToString(batch);
    ParseNatToString(batch);
  }

  /** In one output directory and for one input stem, distinct batch numbers
      give distinct file names, so no file is written twice. */
  lemma FileNameInjective(outputDir: string, stem: string, a: nat, b: nat)
    requires FileName(outputDir, stem, a) == FileName(outputDir, stem, b)
    ensures a == b
  {
    FileNameNumber(outputDir, stem, a);
    FileNameNumber(outputDir, stem, b);
  }

  /** The files written for `batches`, numbered consecutively from `first`. */
  function Outputs(outputDir: string, stem: string, header: Bytes,
                   batches: seq<seq<Bytes>>, first: nat): (files: map<string, Bytes>)
  {
    if batches == [] then map[]
    else
      Outputs(outputDir, stem, header, batches[..|batches| - 1], first)
        [FileName(outputDir, stem, first + |batches| - 1) := FileContent(header, batches[|batches| - 1])]
  }

  lemma OutputsSnoc(outputDir: string, stem: string, header: Bytes,
                    batches: seq<seq<Bytes>>, b: seq<Bytes>, first: nat)
    ensures Outputs(outputDir, stem, header, batches + [b], first)
         == Outputs(outputDir, stem, header, batches, first)
              [FileName(outputDir, stem, first + |batches|) := FileContent(header, b)]
  {
    assert (batches + [b])[..|batches|] == batches;
  }

  /** Writing the file for one more batch over the files already there. */
  lemma OutputsExtend(files: map<string, Bytes>, outputDir: string, stem: string, header: Bytes,
                      batches: seq<seq<Bytes>>, b: seq<Bytes>, first: nat)
    ensures (files + Outputs(outputDir, stem, header, batches, first))
              [FileName(outputDir, stem, first + |batches|) := FileContent(header, b)]
         == files + Outputs(outputDir, stem, header, batches + [b], first)
  {
    OutputsSnoc(outputDir, stem, header, batches, b, first);
  }

  /** File number n, for each batch, holds the header and that batch. */
  lemma {:induction false} OutputsAt(outputDir: string, stem: string, header: Bytes,
                                     batches: seq<seq<Bytes>>, first: nat, n: nat)
    requires first <= n < first + |batches|
    ensures FileName(outputDir, stem, n) in Outputs(outputDir, stem, header, batches, first)
    ensures Outputs(outputDir, stem, header, batches, first)[FileName(outputDir, stem, n)]
              == FileContent(header, batches[n - first])
    decreases |batches|
  {
    var last := first + |batches| - 1;
    if n < last {
      var init := batches[..|batches| - 1];
      OutputsAt(outputDir, stem, header, init, first, n);
      if FileName(outputDir, stem, n) == FileName(outputDir, stem, last) {
        FileNameInjective(outputDir, stem, n, last);
        assert false;
      }
    }
  }

  /** Every file written is file number n for some batch. */
  lemma {:induction false} OutputsOnly(outputDir: string, stem: string, header: Bytes,
                                       batches: seq<seq<Bytes>>, first: nat, name: string)
      returns (n: nat)
    requires name in Outputs(outputDir, stem, header, batches, first)
    ensures first <= n < first + |batches| && name == FileName(outputDir, stem, n)
    decreases |batches|
  {
    var last := first + |batches| - 1;
    if name == FileName(outputDir, stem, last) {
      n := last;
    } else {
      n := OutputsOnly(outputDir, stem, header, batches[..|batches| - 1], first, name);
    }
  }

  /** As many files as batches: no two batches share a file. */
  lemma {:induction false} OutputsCount(outputDir: string, stem: string, header: Bytes,
                                        batches: seq<seq<Bytes>>, first: nat)
    ensures |Outputs(outputDir, stem, header, batches, first)| == |batches|
    decreases |batches|
  {
    if batches != [] {
      var init := batches[..|batches| - 1];
      var last := first + |batches| - 1;
      OutputsCount(outputDir, stem, header, init, first);
      if FileName(outputDir, stem, last) in Outputs(outputDir, stem, header, init, first) {
        var n := OutputsOnly(outputDir, stem, header, init, first, FileName(outputDir, stem, last));
        FileNameInjective(outputDir, stem, n, last);
        assert false;
      }
    }
  }

  /** The records of one file read back: its lines after the header line. */
  function RecordsOf(content: Bytes): (rs: seq<Bytes>) {
    var ls := ReadLines(content);
    if ls == [] then [] else ls[1..]
  }

  /** The records of files `first`, `first + 1`, ... (`count` of them) read back
      and joined in batch order; a missing file contributes nothing. */
  function ReadBack(files: map<string, Bytes>, outputDir: string, stem: string,
                    first: nat, count: nat): (rs: seq<Bytes>)
    decreases count
  {
    if count == 0 then []
    else
      var name := FileName(outputDir, stem, first);
      (if name in files then RecordsOf(files[name]) else [])
        + ReadBack(files, outputDir, stem, first + 1, count - 1)
  }

  /** The records of a written file read back are the records written. */
  lemma RecordsOfFile(header: Bytes, rs: seq<Bytes>)
    requires NoLF(header) && AllNoLF(rs)
    ensures RecordsOf(FileContent(header, rs)) == rs
  {
    ReadFileContent(header, rs);
    assert ([header] + rs)[1..] == rs;
  }

  predicate EachNoLF(batches: seq<seq<Bytes>>) {
    forall i :: 0 <= i < |batches| ==> AllNoLF(batches[i])
  }

  lemma {:induction false} ReadBackOutputs(outputDir: string, stem: string, header: Bytes,
                                           batches: seq<seq<Bytes>>, first: nat, k: nat)
    requires k <= |batches|
    requires NoLF(header) && EachNoLF(batches)
    ensures ReadBack(Outputs(outputDir, stem, header, batches, first), outputDir, stem,
                     first + k, |batches| - k) == Flatten(batches[k..])
    decreases |batches| - k
  {
    if k < |batches| {
      var out := Outputs(outputDir, stem, header, batches, first);
      var name := FileName(outputDir, stem, first + k);
      OutputsAt(outputDir, stem, header, batches, first, first + k);
      assert AllNoLF(batches[k]);
      RecordsOfFile(header, batches[k]);
      assert RecordsOf(out[name]) == batches[k];
      assert ReadBack(out, outputDir, stem, first + k, |batches| - k)
          == batches[k] + ReadBack(out, outputDir, stem, first + k + 1, |batches| - k - 1);
      ReadBackOutputs(outputDir, stem, header, batches, first, k + 1);
      assert batches[k..][1..] == batches[k + 1..];
      assert Flatten(batches[k..]) == batches[k] + Flatten(batches[k + 1..]);
    }
  }

  /** The files the sequential strategy leaves, numbered from 1. */
  function SeqOutput(outputDir: string, stem: string, header: Bytes, body: seq<Bytes>, m: nat): (files: map<string, Bytes>)
    requires m > 0
  {
    Outputs(outputDir, stem, header, Batches(body, m), 1)
  }

  /** The files the chunking strategy leaves, numbered from 0. */
  function ParOutput(outputDir: string, stem: string, header: Bytes, body: seq<Bytes>, m: nat): (files: map<string, Bytes>)
    requires m > 0
  {
    Outputs(outputDir, stem, header, Chunks(body, m), 0)
  }

  // ---------------------------------------------------------------------------
  // The operations.

  /** `write_bytes`: the bytes, then one LF, appended to the named file. */
  method WriteBytes(fs: FileSystem, name: string, bytes: Bytes)
    requires name in fs.files
    modifies fs
    ensures fs.files == old(fs.files)[name := old(fs.files)[name] + Line(bytes)]
  {
    fs.Write(name, bytes);
    fs.Write(name, [LF]);
    assert old(fs.files)[name] + bytes + [LF] == old(fs.files)[name] + Line(bytes);
  }

  /** Writing record `pos` of `lines` extends the file holding [start, pos). */
  lemma FileContentStep(header: Bytes, lines: seq<Bytes>, start: nat, pos: nat)
    requires start <= pos < |lines|
    ensures FileContent(header, lines[start..pos + 1]) == FileContent(header, lines[start..pos]) + Line(lines[pos])
  {
    assert lines[start..pos + 1] == lines[start..pos] + [lines[pos]];
    FileContentSnoc(header, lines[start..pos], lines[pos]);
  }

  /** `write_batch`: (re)creates file number `batch`, writes the header and then
      up to `maxRows` records taken from the stream. It reports the stream done
      only when it ran out of records before writing `maxRows` of them; with
      `maxRows <= 0` it writes the header alone and never reports done. */
  method WriteBatch(batch: nat, records: LineStream, stem: string, outputDir: string,
                    maxRows: i32, header: Bytes, fs: FileSystem) returns (done: bool)
    requires records.Valid()
    modifies records, fs
    ensures records.Valid()
    ensures records.pos == old(records.pos) + Min(Max(maxRows as int, 0), |old(records.Remaining())|)
    ensures fs.files == old(fs.files)[FileName(outputDir, stem, batch) :=
              FileContent(header, old(records.Remaining())[..records.pos - old(records.pos)])]
    ensures done <==> |old(records.Remaining())| < maxRows as int
  {
    ghost var start := records.pos;
    var name := FileName(outputDir, stem, batch);
    fs.Create(name);
    WriteBytes(fs, name, header);
    assert records.lines[start..records.pos] == [];
    assert FileContent(header, []) == [] + Line(header);
    var i: i32 := 0;
    while i < maxRows
      invariant records.Valid()
      invariant 0 <= i as int <= Max(maxRows as int, 0)
      invariant records.pos == start + i as int
      invariant fs.files == old(fs.files)[name := FileContent(header, records.lines[start..records.pos])]
      decreases maxRows as int - i as int
    {
      var record := records.Next();
      if record.Some? {
        WriteBytes(fs, name, record.value);
        FileContentStep(header, records.lines, start, records.pos - 1);
        i := i + 1;
      } else {
        assert old(records.Remaining())[..records.pos - start] == records.lines[start..records.pos];
        return true;
      }
    }
    assert old(records.Remaining())[..records.pos - start] == records.lines[start..records.pos];
    return false;
  }

  /** One round of `split_seq`'s loop, from what `write_batch` promises: the
      files and the batches still to come after one more batch is written. */
  lemma SeqStep(files0: map<string, Bytes>, before: map<string, Bytes>, after: map<string, Bytes>,
                outputDir: string, stem: string, header: Bytes, body: seq<Bytes>,
                written: seq<seq<Bytes>>, rem: seq<Bytes>, rest: seq<Bytes>, m: nat, done: bool)
    requires m > 0
    requires before == files0 + Outputs(outputDir, stem, header, written, 1)
    requires Batches(body, m) == written + Batches(rem, m)
    requires rest == rem[Min(m, |rem|)..]
    requires after == before[FileName(outputDir, stem, 1 + |written|) := FileContent(header, rem[..Min(m, |rem|)])]
    requires done <==> |rem| < m
    ensures after == files0 + Outputs(outputDir, stem, header, written + [rem[..Min(m, |rem|)]], 1)
    ensures !done ==> Batches(body, m) == written + [rem[..Min(m, |rem|)]] + Batches(rest, m)
    ensures done ==> Batches(body, m) == written + [rem[..Min(m, |rem|)]] && rest == []
  {
    OutputsExtend(files0, outputDir, stem, header, written, rem[..Min(m, |rem|)], 1);
    if done {
      assert rem[..|rem|] == rem;
    }
  }

  /** `split_seq`: reads the header, then writes batches 1, 2, ... until a batch
      comes up short. The files written are `SeqOutput`; every other file is
      left as it was. */
  method SplitSeq(input: LineStream, stem: string, maxRows: i32, outputDir: string, fs: FileSystem)
    requires input.Valid() && input.Remaining() != []
    requires maxRows > 0
    modifies input, fs
    ensures input.Valid() && input.Remaining() == []
    ensures fs.files == old(fs.files) +
              SeqOutput(outputDir, stem, old(input.Remaining())[0], old(input.Remaining())[1..], maxRows as int)
  {
    var h := input.Next();
    var header := h.value;
    ghost var m := maxRows as int;
    ghost var body := input.Remaining();
    ghost var written: seq<seq<Bytes>> := [];
    assert Outputs(outputDir, stem, header, written, 1) == map[];
    assert old(fs.files) + map[] == old(fs.files);
    var batch: nat := 1;
    var isDone := false;
    while !isDone
      invariant input.Valid()
      invariant batch == |written| + 1
      invariant !isDone ==> Batches(body, m) == written + Batches(input.Remaining(), m)
      invariant isDone ==> Batches(body, m) == written && input.Remaining() == []
      invariant fs.files == old(fs.files) + Outputs(outputDir, stem, header, written, 1)
      decreases |Batches(body, m)| - |written|
    {
      ghost var rem := input.Remaining();
      ghost var before := fs.files;
      isDone := WriteBatch(batch, input, stem, outputDir, maxRows, header, fs);
      assert input.Remaining() == rem[Min(m, |rem|)..];
      SeqStep(old(fs.files), before, fs.files, outputDir, stem, header, body,
              written, rem, input.Remaining(), m, isDone);
      written := written + [rem[..Min(m, |rem|)]];
      batch := batch + 1;
    }
  }

  /** `process_slice`: (re)creates file number `batch` holding the header and
      then every record of the slice, in order. */
  method ProcessSlice(batch: nat, records: seq<Bytes>, stem: string, outputDir: string,
                      header: Bytes, fs: FileSystem)
    modifies fs
    ensures fs.files == old(fs.files)[FileName(outputDir, stem, batch) := FileContent(header, records)]
  {
    var name := FileName(outputDir, stem, batch);
    fs.Create(name);
    WriteBytes(fs, name, header);
    assert records[..0] == [];
    assert FileContent(header, []) == [] + Line(header);
    for i := 0 to |records|
      invariant fs.files == old(fs.files)[name := FileContent(header, records[..i])]
    {
      WriteBytes(fs, name, records[i]);
      FileContentSnoc(header, records[..i], records[i]);
      assert records[..i + 1] == records[..i] + [records[i]];
    }
    assert records[..|records|] == records;
  }

  /** `split_par`: reads the header, collects the body, and writes chunk i
      (from 0) of `maxRows` records as file number i. The parallel `for_each`
      is a loop here: the chunks are disjoint and their names distinct, so the
      order of the writes does not change the result. */
  method SplitPar(input: LineStream, stem: string, maxRows: i32, outputDir: string, fs: FileSystem)
    requires input.Valid() && input.Remaining() != []
    requires maxRows > 0
    modifies input, fs
    ensures input.Valid() && input.Remaining() == []
    ensures fs.files == old(fs.files) +
              ParOutput(outputDir, stem, old(input.Remaining())[0], old(input.Remaining())[1..], maxRows as int)
  {
    var h := input.Next();
    var header := h.value;
    var data := input.Collect();
    var m := maxRows as int;
    ghost var written: seq<seq<Bytes>> := [];
    assert Outputs(outputDir, stem, header, written, 0) == map[];
    assert old(fs.files) + map[] == old(fs.files);
    assert data[0..] == data;
    var start := 0;
    var batch: nat := 0;
    while start < |data|
      invariant input.Valid() && input.Remaining() == []
      invariant 0 <= start <= |data|
      invariant |written| == batch
      invariant Chunks(data, m) == written + Chunks(data[start..], m)
      invariant fs.files == old(fs.files) + Outputs(outputDir, stem, header, written, 0)
      decreases |data| - start
    {
      var end := Min(start + m, |data|);
      ProcessSlice(batch, data[start..end], stem, outputDir, header, fs);
      OutputsExtend(old(fs.files), outputDir, stem, header, written, data[start..end], 0);
      ChunksStep(data, written, start, end, m);
      written := written + [data[start..end]];
      batch := batch + 1;
      start := end;
    }
    assert written + [] == written;
  }

  // ---------------------------------------------------------------------------
  // What the two strategies leave in the output directory.

  /** Sequential file n (from 1) holds the header and records
      [(n-1)*m, min(n*m, |body|)): exactly m of them for n <= |body| / m, and
      |body| mod m in the last file, number |body| / m + 1. */
  lemma SeqFile(outputDir: string, stem: string, header: Bytes, body: seq<Bytes>, m: nat, n: nat)
    requires m > 0 && 1 <= n <= |body| / m + 1
    ensures FileName(outputDir, stem, n) in SeqOutput(outputDir, stem, header, body, m)
    ensures 0 <= (n - 1) * m <= Min(n * m, |body|) <= |body|
    ensures SeqOutput(outputDir, stem, header, body, m)[FileName(outputDir, stem, n)]
              == FileContent(header, body[(n - 1) * m .. Min(n * m, |body|)])
    ensures n <= |body| / m ==> Min(n * m, |body|) - (n - 1) * m == m
    ensures n == |body| / m + 1 ==> Min(n * m, |body|) - (n - 1) * m == |body| % m
  {
    var i := n - 1;
    BatchesCount(body, m);
    BatchAt(body, m, i);
    BatchBounds(|body|, m, i);
    assert i + 1 == n;
    OutputsAt(outputDir, stem, header, Batches(body, m), 1, n);
  }

  /** The sequential strategy writes |body| / m + 1 files, numbered 1 to
      |body| / m + 1 with no gap, and no other file. */
  lemma SeqFiles(outputDir: string, stem: string, header: Bytes, body: seq<Bytes>, m: nat)
    requires m > 0
    ensures |SeqOutput(outputDir, stem, header, body, m)| == |body| / m + 1
    ensures forall name :: name in SeqOutput(outputDir, stem, header, body, m) ==>
              exists n :: 1 <= n <= |body| / m + 1 && name == FileName(outputDir, stem, n)
  {
    BatchesCount(body, m);
    OutputsCount(outputDir, stem, header, Batches(body, m), 1);
    forall name | name in SeqOutput(outputDir, stem, header, body, m)
      ensures exists n :: 1 <= n <= |body| / m + 1 && name == FileName(outputDir, stem, n)
    {
      var n := OutputsOnly(outputDir, stem, header, Batches(body, m), 1, name);
    }
  }

  /** The last sequential file holds the header alone exactly when m divides
      the number of records, an empty body included. */
  lemma SeqTrailingHeaderOnly(outputDir: string, stem: string, header: Bytes, body: seq<Bytes>, m: nat)
    requires m > 0
    ensures FileName(outputDir, stem, |body| / m + 1) in SeqOutput(outputDir, stem, header, body, m)
    ensures (SeqOutput(outputDir, stem, header, body, m)[FileName(outputDir, stem, |body| / m + 1)] == Line(header))
              <==> |body| % m == 0
  {
    var n := |body| / m + 1;
    SeqFile(outputDir, stem, header, body, m, n);
    var rs := body[(n - 1) * m .. Min(n * m, |body|)];
    LinesLength(rs);
    assert FileContent(header, rs) == Line(header) + Lines(rs);
    if |rs| == 0 {
      assert Lines(rs) == [];
    }
  }

  /** Parallel file n (from 0) holds the header and records
      [n*m, min((n+1)*m, |body|)): between 1 and m of them, and exactly m in
      every file but the last. */
  lemma ParFile(outputDir: string, stem: string, header: Bytes, body: seq<Bytes>, m: nat, n: nat)
    requires m > 0 && n < (|body| + m - 1) / m
    ensures FileName(outputDir, stem, n) in ParOutput(outputDir, stem, header, body, m)
    ensures 0 <= n * m < Min((n + 1) * m, |body|) <= |body|
    ensures ParOutput(outputDir, stem, header, body, m)[FileName(outputDir, stem, n)]
              == FileContent(header, body[n * m .. Min((n + 1) * m, |body|)])
    ensures Min((n + 1) * m, |body|) - n * m <= m
    ensures n < (|body| + m - 1) / m - 1 ==> Min((n + 1) * m, |body|) - n * m == m
  {
    ChunksCount(body, m);
    ChunkAt(body, m, n);
    ChunkSizes(body, m, n);
    OutputsAt(outputDir, stem, header, Chunks(body, m), 0, n);
  }

  /** The chunking strategy writes ceil(|body| / m) files, numbered 0 to
      ceil(|body| / m) - 1, and no other file: none at all for an empty body. */
  lemma ParFiles(outputDir: string, stem: string, header: Bytes, body: seq<Bytes>, m: nat)
    requires m > 0
    ensures |ParOutput(outputDir, stem, header, body, m)| == (|body| + m - 1) / m
    ensures forall name :: name in ParOutput(outputDir, stem, header, body, m) ==>
              exists n :: 0 <= n < (|body| + m - 1) / m && name == FileName(outputDir, stem, n)
    ensures ParOutput(outputDir, stem, header, body, m) == map[] <==> body == []
  {
    ChunksCount(body, m);
    OutputsCount(outputDir, stem, header, Chunks(body, m), 0);
    forall name | name in ParOutput(outputDir, stem, header, body, m)
      ensures exists n :: 0 <= n < (|body| + m - 1) / m && name == FileName(outputDir, stem, n)
    {
      var n := OutputsOnly(outputDir, stem, header, Chunks(body, m), 0, name);
    }
    if body != [] {
      assert Chunks(body, m) != [];
    }
  }

  lemma {:induction false} BatchesNoLF(body: seq<Bytes>, m: nat)
    requires m > 0 && AllNoLF(body)
    ensures EachNoLF(Batches(body, m))
    decreases |body|
  {
    if |body| >= m {
      SliceNoLF(body, 0, m);
      SliceNoLF(body, m, |body|);
      BatchesNoLF(body[m..], m);
    }
  }

  lemma {:induction false} ChunksNoLF(body: seq<Bytes>, m: nat)
    requires m > 0 && AllNoLF(body)
    ensures EachNoLF(Chunks(body, m))
    decreases |body|
  {
    if |body| > m {
      SliceNoLF(body, 0, m);
      SliceNoLF(body, m, |body|);
      ChunksNoLF(body[m..], m);
    }
  }

  /** Reading the sequential files back in number order, and dropping each
      file's header line, gives the body exactly: no record lost, repeated or
      moved. */
  lemma SeqReadBack(outputDir: string, stem: string, header: Bytes, body: seq<Bytes>, m: nat)
    requires m > 0 && NoLF(header) && AllNoLF(body)
    ensures ReadBack(SeqOutput(outputDir, stem, header, body, m), outputDir, stem, 1, |body| / m + 1) == body
  {
    var bs := Batches(body, m);
    BatchesCount(body, m);
    BatchesNoLF(body, m);
    ReadBackOutputs(outputDir, stem, header, bs, 1, 0);
    assert bs[0..] == bs;
    BatchesFlatten(body, m);
  }

  /** Reading the parallel files back in number order, and dropping each
      file's header line, gives the body exactly. */
  lemma ParReadBack(outputDir: string, stem: string, header: Bytes, body: seq<Bytes>, m: nat)
    requires m > 0 && NoLF(header) && AllNoLF(body)
    ensures ReadBack(ParOutput(outputDir, stem, header, body, m), outputDir, stem, 0, (|body| + m - 1) / m) == body
  {
    var cs := Chunks(body, m);
    ChunksCount(body, m);
    ChunksNoLF(body, m);
    ReadBackOutputs(outputDir, stem, header, cs, 0, 0);
    assert cs[0..] == cs;
    ChunksFlatten(body, m);
  }

  lemma {:induction false} OutputsHeader(outputDir: string, stem: string, header: Bytes,
                                         batches: seq<seq<Bytes>>, first: nat, name: string)
    requires name in Outputs(outputDir, stem, header, batches, first)
    ensures Line(header) <= Outputs(outputDir, stem, header, batches, first)[name]
  {
    var n := OutputsOnly(outputDir, stem, header, batches, first, name);
    OutputsAt(outputDir, stem, header, batches, first, n);
  }

  /** Both strategies start every file they write with the input's first
      line, byte for byte, then LF. */
  lemma HeaderInEveryFile(outputDir: string, stem: string, header: Bytes, body: seq<Bytes>, m: nat)
    requires m > 0
    ensures forall name :: name in SeqOutput(outputDir, stem, header, body, m) ==>
              Line(header) <= SeqOutput(outputDir, stem, header, body, m)[name]
    ensures forall name :: name in ParOutput(outputDir, stem, header, body, m) ==>
              Line(header) <= ParOutput(outputDir, stem, header, body, m)[name]
  {
    forall name | name in SeqOutput(outputDir, stem, header, body, m)
      ensures Line(header) <= SeqOutput(outputDir, stem, header, body, m)[name]
    {
      OutputsHeader(outputDir, stem, header, Batches(body, m), 1, name);
    }
    forall name | name in ParOutput(outputDir, stem, header, body, m)
      ensures Line(header) <= ParOutput(outputDir, stem, header, body, m)[name]
    {
      OutputsHeader(outputDir, stem, header, Chunks(body, m), 0, name);
    }
  }

  /** The two strategies write the same contents under numbers shifted by one:
      parallel file n is sequential file n + 1. */
  lemma StrategiesAgreeAt(outputDir: string, stem: string, header: Bytes, body: seq<Bytes>, m: nat, n: nat)
    requires m > 0 && n < |ParOutput(outputDir, stem, header, body, m)|
    ensures FileName(outputDir, stem, n) in ParOutput(outputDir, stem, header, body, m)
    ensures FileName(outputDir, stem, n + 1) in SeqOutput(outputDir, stem, header, body, m)
    ensures ParOutput(outputDir, stem, header, body, m)[FileName(outputDir, stem, n)]
              == SeqOutput(outputDir, stem, header, body, m)[FileName(outputDir, stem, n + 1)]
  {
    var cs, bs := Chunks(body, m), Batches(body, m);
    BatchesAreChunks(body, m);
    OutputsCount(outputDir, stem, header, cs, 0);
    OutputsAt(outputDir, stem, header, cs, 0, n);
    OutputsAt(outputDir, stem, header, bs, 1, n + 1);
  }

  /** The sequential strategy writes one file more than the chunking one,
      holding the header alone, exactly when m divides the number of records. */
  lemma StrategiesFileCount(outputDir: string, stem: string, header: Bytes, body: seq<Bytes>, m: nat)
    requires m > 0
    ensures |SeqOutput(outputDir, stem, header, body, m)|
              == |ParOutput(outputDir, stem, header, body, m)| + (if |body| % m == 0 then 1 else 0)
    ensures |body| % m == 0 ==>
              FileName(outputDir, stem, |ParOutput(outputDir, stem, header, body, m)| + 1)
                in SeqOutput(outputDir, stem, header, body, m) &&
              SeqOutput(outputDir, stem, header, body, m)
                [FileName(outputDir, stem, |ParOutput(outputDir, stem, header, body, m)| + 1)] == Line(header)
  {
    var cs, bs := Chunks(body, m), Batches(body, m);
    BatchesAreChunks(body, m);
    OutputsCount(outputDir, stem, header, cs, 0);
    OutputsCount(outputDir, stem, header, bs, 1);
    if |body| % m == 0 {
      var n := |cs| + 1;
      assert |bs| == n && bs[n - 1] == [];
      OutputsAt(outputDir, stem, header, bs, 1, n);
      assert FileContent(header, []) == Line(header) + [];
    }
  }
}
