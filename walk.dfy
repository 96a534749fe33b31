/**
 * The directory walk and the size pre-pass. `os.walk` is outside the model:
 * a walk is given as one list of file records per visited directory, in the
 * order the walk yields them.
 */
module Walk {
  import opened Seqs
  import opened Hashing

  type Path = string

  /**
   * One file name yielded by the walk, joined with its directory: whether
   * `os.path.exists` holds for it, what `os.path.getsize` reports, whether
   * opening and reading it succeed, and the bytes a read of it delivers.
   * Nothing ties `size` to the number of bytes read.
   */
  datatype FileRecord = FileRecord(path: Path, present: bool, size: nat, readable: bool, contents: seq<byte>)

  /** The walk: per directory, the records of its files. */
  type Walk = seq<seq<FileRecord>>

  /** Sum of the sizes of the records that exist, in walk order. */
  function PresentBytes(files: seq<FileRecord>): nat
    decreases |files|
  {
    if files == [] then 0
    else PresentBytes(files[..|files| - 1]) + (if files[|files| - 1].present then files[|files| - 1].size else 0)
  }

  lemma PresentBytesSnoc(files: seq<FileRecord>, r: FileRecord)
    ensures PresentBytes(files + [r]) == PresentBytes(files) + (if r.present then r.size else 0)
  {
    assert (files + [r])[..|files|] == files;
  }

  /** The pre-pass: a second walk that sums the size of every file that exists. */
  method TotalSize(walk: Walk) returns (total: nat)
    ensures total == PresentBytes(Flatten(walk))
  {
    total := 0;
    var d := 0;
    while d < |walk|
      invariant d <= |walk|
      invariant total == PresentBytes(Flatten(walk[..d]))
    {
      var names := walk[d];
      var j := 0;
      assert Flatten(walk[..d]) + names[..j] == Flatten(walk[..d]);
      while j < |names|
        invariant j <= |names|
        invariant total == PresentBytes(Flatten(walk[..d]) + names[..j])
      {
        FlattenPrefixStep(walk, d, j);
        PresentBytesSnoc(Flatten(walk[..d]) + names[..j], names[j]);
        if names[j].present {
          total := total + names[j].size;
        }
        j := j + 1;
      }
      FlattenPrefixDone(walk, d);
      d := d + 1;
    }
    assert walk[..d] == walk;
  }
}
