/** The progress directory: text files of byte positions, one decimal number per line. */
module ProgressFiles {

  datatype File =
    | InoScan
    | PostScan
    | PostExtentScan
    | PostRemoveUnallocated
    | PostRemoveDupes
    | Invalidated

  class ProgressDir {
    var files: map<File, seq<nat>>

    constructor (files: map<File, seq<nat>>)
      ensures this.files == files
    {
      this.files := files;
    }
  }

  /** An input stream over such a file.  Each number is followed by a newline, so reading it never reaches the end. */
  class PositionStream {
    var rest: seq<nat>
    var eof: bool

    constructor (lines: seq<nat>)
      ensures rest == lines && !eof
      ensures lines != [] ==> At(Reread(lines), 0)
    {
      rest, eof := lines, false;
    }

    /** After n extractions of a loop over the lines, whose sequence of values is all = Reread(lines). */
    ghost predicate At(all: seq<nat>, n: nat)
      reads this
    {
      && 2 <= |all| && n <= |all| && all[|all| - 1] == all[|all| - 2]
      && (eof <==> n == |all|)
      && (n < |all| ==> rest == all[n..|all| - 1])
    }

    /** Extraction of the next position: at the end only the flag changes and the variable keeps its value. */
    method Extract(bo: nat, ghost all: seq<nat>, ghost n: nat) returns (r: nat)
      requires At(all, n) && !eof && (n > 0 ==> bo == all[n - 1])
      modifies this
      ensures At(all, n + 1) && r == all[n]
    {
      if rest != [] {
        r := rest[0];
        rest := rest[1..];
      } else {
        r := bo;
        eof := true;
      }
    }
  }

  /** The positions that the end-of-file loop hands on: the last one twice. */
  function Reread(lines: seq<nat>): seq<nat>
    requires lines != []
  {
    lines + [lines[|lines| - 1]]
  }
}
