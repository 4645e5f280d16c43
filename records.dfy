/** The byte format of an output file: every line, header first, is its bytes
    followed by one line feed. `ReadLines` is the reading side (split on LF),
    the partner that shows a written file gives back its header and records. */
module Records {

  newtype byte = x: int | 0 <= x < 256

  type Bytes = seq<byte>

  /** The line terminator written after every line (`LF` in the source). */
  const LF: byte := 10

  /** One line as `write_bytes` emits it: the bytes, then one LF. */
  function Line(b: Bytes): (line: Bytes) {
    b + [LF]
  }

  /** The records written one after the other, in order. */
  function Lines(rs: seq<Bytes>): (s: Bytes) {
    if rs == [] then [] else Lines(rs[..|rs| - 1]) + Line(rs[|rs| - 1])
  }

  /** The contents of one output file: the header line, then the records' lines. */
  function FileContent(header: Bytes, rs: seq<Bytes>): (content: Bytes) {
    Line(header) + Lines(rs)
  }

  predicate NoLF(b: Bytes) {
    LF !in b
  }

  predicate AllNoLF(rs: seq<Bytes>) {
    forall i :: 0 <= i < |rs| ==> NoLF(rs[i])
  }

  /** The position of the first LF in s, or |s| when there is none. */
  function IndexOfLF(s: Bytes): (i: nat)
    ensures i <= |s|
    ensures i < |s| ==> s[i] == LF
    ensures NoLF(s[..i])
  {
    if s == [] then 0
    else if s[0] == LF then 0
    else
      var j := IndexOfLF(s[1..]);
      assert s[..1 + j] == [s[0]] + s[1..][..j];
      1 + j
  }

  /** Splits bytes into lines at each LF; a last line without LF still counts. */
  function ReadLines(s: Bytes): (lines: seq<Bytes>)
    decreases |s|
  {
    if s == [] then []
    else
      var i := IndexOfLF(s);
      if i == |s| then [s] else [s[..i]] + ReadLines(s[i + 1..])
  }

  /** Every record adds at least its LF. */
  lemma LinesLength(rs: seq<Bytes>)
    ensures |Lines(rs)| >= |rs|
  {
  }

  /** A slice of LF-free records is LF-free. */
  lemma SliceNoLF(rs: seq<Bytes>, lo: nat, hi: nat)
    requires lo <= hi <= |rs| && AllNoLF(rs)
    ensures AllNoLF(rs[lo..hi])
  {
    assert forall i :: 0 <= i < hi - lo ==> rs[lo..hi][i] == rs[lo + i];
  }

  lemma FileContentSnoc(header: Bytes, rs: seq<Bytes>, r: Bytes)
    ensures FileContent(header, rs + [r]) == FileContent(header, rs) + Line(r)
  {
    assert (rs + [r])[..|rs|] == rs;
  }

  /** Writing a record in front of others puts its line in front of theirs. */
  lemma {:induction false} LinesCons(r: Bytes, rs: seq<Bytes>)
    ensures Lines([r] + rs) == Line(r) + Lines(rs)
    decreases |rs|
  {
    if rs == [] {
      assert [r] + rs == [r];
      assert ([r] + rs)[..0] == [];
    } else {
      var init := rs[..|rs| - 1];
      assert ([r] + rs)[..|rs|] == [r] + init;
      assert ([r] + rs)[|rs|] == rs[|rs| - 1];
      LinesCons(r, init);
    }
  }

  lemma ReadLine(r: Bytes, rest: Bytes)
    requires NoLF(r)
    ensures ReadLines(Line(r) + rest) == [r] + ReadLines(rest)
  {
    var s := Line(r) + rest;
    IndexOfLFAt(r, rest);
    assert s[..|r|] == r;
    assert s[|r| + 1..] == rest;
  }

  lemma {:induction false} IndexOfLFAt(r: Bytes, rest: Bytes)
    requires NoLF(r)
    ensures IndexOfLF(Line(r) + rest) == |r|
    decreases |r|
  {
    var s := Line(r) + rest;
    if r != [] {
      assert s[1..] == Line(r[1..]) + rest;
      IndexOfLFAt(r[1..], rest);
    }
  }

  /** Reading back the lines of records that hold no LF gives the records. */
  lemma {:induction false} ReadLinesOfLines(rs: seq<Bytes>)
    requires AllNoLF(rs)
    ensures ReadLines(Lines(rs)) == rs
    decreases |rs|
  {
    if rs != [] {
      LinesCons(rs[0], rs[1..]);
      assert [rs[0]] + rs[1..] == rs;
      ReadLine(rs[0], Lines(rs[1..]));
      ReadLinesOfLines(rs[1..]);
    }
  }

  /** An output file reads back as its header followed by its records. */
  lemma ReadFileContent(header: Bytes, rs: seq<Bytes>)
    requires NoLF(header) && AllNoLF(rs)
    ensures ReadLines(FileContent(header, rs)) == [header] + rs
  {
    ReadLine(header, Lines(rs));
    ReadLinesOfLines(rs);
  }
}
