/** The two pieces of state the splitter works on: the output files, and the
    forward-only stream of input lines with its cursor. */
module Io {
  import opened Records

  datatype Option<T> = None | Some(value: T)

  /** The output files, by path. `Create` is `File::create` (creates or
      truncates); `Write` is one full `write` call on the file's writer. */
  class FileSystem {
    var files: map<string, Bytes>

    constructor (initial: map<string, Bytes>)
      ensures files == initial
    {
      files := initial;
    }

    method Create(name: string)
      modifies this
      ensures files == old(files)[name := []]
    {
      files := files[name := []];
    }

    method Write(name: string, bytes: Bytes)
      requires name in files
      modifies this
      ensures files == old(files)[name := old(files)[name] + bytes]
    {
      files := files[name := files[name] + bytes];
    }
  }

  /** The input as the line iterator sees it: every line of the file, already
      split and read without error, and the position of the next one. */
  class LineStream {
    const lines: seq<Bytes>
    var pos: nat

    predicate Valid()
      reads this
    {
      pos <= |lines|
    }

    /** The lines the iterator has not yet produced. */
    function Remaining(): (rest: seq<Bytes>)
      reads this
      requires Valid()
    {
      lines[pos..]
    }

    constructor (lines: seq<Bytes>)
      ensures this.lines == lines && pos == 0 && Valid()
    {
      this.lines := lines;
      pos := 0;
    }

    /** The iterator's `next`: the next line and one step forward, or nothing
        (and no move) once the input is exhausted. */
    method Next() returns (r: Option<Bytes>)
      requires Valid()
      modifies this
      ensures Valid()
      ensures old(Remaining()) == [] ==> r == None && pos == old(pos)
      ensures old(Remaining()) != [] ==>
                r == Some(old(Remaining())[0]) && Remaining() == old(Remaining())[1..]
    {
      if pos < |lines| {
        r := Some(lines[pos]);
        pos := pos + 1;
      } else {
        r := None;
      }
    }

    /** `collect` on the iterator: every remaining line, in order. */
    method Collect() returns (rest: seq<Bytes>)
      requires Valid()
      modifies this
      ensures Valid()
      ensures rest == old(Remaining()) && Remaining() == []
    {
      rest := lines[pos..];
      pos := |lines|;
    }
  }
}
