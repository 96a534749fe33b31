/**
 * The script's top level: check that the root exists, sum the sizes of the
 * files in a first walk, then hash every non-empty file of a second walk and
 * classify it against the archive.
 */
module Cleanup {
  import opened Seqs
  import opened Hashing
  import opened Walk
  import opened Classifier

  /**
   * `FileNotFoundError('Directory not found')`, or the `OSError` that `open`
   * or `readinto` raises for a file; either ends the script.
   */
  datatype ScanError = DirectoryNotFound | ReadError(path: Path)

  datatype Result<T> = Ok(value: T) | Err(error: ScanError)

  datatype Option<T> = None | Some(value: T)

  /** What a finished scan leaves behind: the pre-pass total and the tables. */
  datatype Summary = Summary(total: nat, tables: Tables)

  /** The path of the first record the hashing loop opens but cannot read. */
  function FirstReadError(files: seq<FileRecord>): Option<Path>
    decreases |files|
  {
    if files == [] then None
    else if Hashed(files[0]) && !files[0].readable then Some(files[0].path)
    else FirstReadError(files[1..])
  }

  /**
   * There is no read error exactly when every hashed record is readable; a
   * read error names the earliest hashed record that is not.
   */
  lemma {:induction false} FirstReadErrorIsEarliest(files: seq<FileRecord>)
    ensures FirstReadError(files) == None <==>
              forall i :: 0 <= i < |files| && Hashed(files[i]) ==> files[i].readable
    ensures FirstReadError(files).Some? ==>
              exists i :: 0 <= i < |files| && Hashed(files[i]) && !files[i].readable &&
                files[i].path == FirstReadError(files).value &&
                forall j :: 0 <= j < i && Hashed(files[j]) ==> files[j].readable
    decreases |files|
  {
    if files != [] && !(Hashed(files[0]) && !files[0].readable) {
      var rest := files[1..];
      FirstReadErrorIsEarliest(rest);
      assert forall i :: 0 <= i < |rest| ==> rest[i] == files[i + 1];
      if FirstReadError(rest).Some? {
        var i :| 0 <= i < |rest| && Hashed(rest[i]) && !rest[i].readable &&
          rest[i].path == FirstReadError(rest).value &&
          forall j :: 0 <= j < i && Hashed(rest[j]) ==> rest[j].readable;
        assert forall j :: 0 < j < i + 1 ==> files[j] == rest[j - 1];
        assert Hashed(files[i + 1]) && !files[i + 1].readable;
      } else {
        forall i | 0 <= i < |files| && Hashed(files[i])
          ensures files[i].readable
        {
          if i > 0 {
            assert files[i] == rest[i - 1];
          }
        }
      }
    }
  }

  lemma {:induction false} FirstReadErrorSnoc(files: seq<FileRecord>, r: FileRecord)
    requires FirstReadError(files) == None
    ensures FirstReadError(files + [r]) == if Hashed(r) && !r.readable then Some(r.path) else None
    decreases |files|
  {
    if files == [] {
      assert files + [r] == [r];
      assert [r][1..] == [];
    } else {
      assert (files + [r])[1..] == files[1..] + [r];
      FirstReadErrorSnoc(files[1..], r);
    }
  }

  /** Once a prefix has a read error, every extension has the same one. */
  lemma {:induction false} FirstReadErrorPrefix(a: seq<FileRecord>, b: seq<FileRecord>)
    requires a <= b && FirstReadError(a).Some?
    ensures FirstReadError(b) == FirstReadError(a)
    decreases |a|
  {
    assert a[0] == b[0];
    if !(Hashed(a[0]) && !a[0].readable) {
      assert a[1..] <= b[1..];
      FirstReadErrorPrefix(a[1..], b[1..]);
    }
  }

  /**
   * A whole run. `rootExists` is `os.path.exists` of the root; `walk` is what
   * `os.walk` yields for it, both times it is called. A file that cannot be
   * opened or read stops the run with that file's error.
   */
  method Scan(rootExists: bool, walk: Walk, md5: HashFn) returns (result: Result<Summary>)
    ensures !rootExists ==> result == Err(DirectoryNotFound)
    ensures rootExists && FirstReadError(Flatten(walk)).Some? ==>
              result == Err(ReadError(FirstReadError(Flatten(walk)).value))
    ensures rootExists && FirstReadError(Flatten(walk)) == None ==>
              result == Ok(Summary(PresentBytes(Flatten(walk)), Classify(Flatten(walk), md5)))
  {
    if !rootExists {
      return Err(DirectoryNotFound);
    }
    var total := TotalSize(walk);

    var archive: map<Fingerprint, Path> := map[];
    var duplicates: map<Path, seq<Path>> := map[];
    var freespace: nat := 0;
    var buf := new byte[BLOCKSIZE];

    var d := 0;
    while d < |walk|
      invariant d <= |walk| && buf.Length == BLOCKSIZE
      invariant Tables(archive, duplicates, freespace) == Classify(Flatten(walk[..d]), md5)
      invariant FirstReadError(Flatten(walk[..d])) == None
    {
      var names := walk[d];
      var j := 0;
      assert Flatten(walk[..d]) + names[..j] == Flatten(walk[..d]);
      while j < |names|
        invariant j <= |names| && buf.Length == BLOCKSIZE
        invariant Tables(archive, duplicates, freespace) == Classify(Flatten(walk[..d]) + names[..j], md5)
        invariant FirstReadError(Flatten(walk[..d]) + names[..j]) == None
      {
        ghost var seen := Flatten(walk[..d]) + names[..j];
        FlattenPrefixStep(walk, d, j);
        ClassifySnoc(seen, names[j], md5);
        FirstReadErrorSnoc(seen, names[j]);
        var r := names[j];
        j := j + 1;
        if r.present {
          var size := r.size;
          if size == 0 {
            continue;
          }
          if !r.readable {
            FlattenPrefix(walk, d, j);
            FirstReadErrorPrefix(seen + [r], Flatten(walk));
            return Err(ReadError(r.path));
          }
          var hashed, hasher := HashFile(r.contents, buf, md5);
          if hashed in archive {
            freespace := freespace + size;
            var original := archive[hashed];
            duplicates := duplicates[original := Group(duplicates, original) + [r.path]];
          } else {
            archive := archive[hashed := r.path];
          }
        }
      }
      FlattenPrefixDone(walk, d);
      d := d + 1;
    }
    assert walk[..d] == walk;
    return Ok(Summary(total, Tables(archive, duplicates, freespace)));
  }

  /**
   * Two files with the same contents followed by one with different contents:
   * the first is the original, the second its duplicate, the third another
   * original, and the second file's size is reclaimable.
   */
  lemma ScenarioSameThenDifferent(md5: HashFn)
    requires md5([88]) != md5([89])
    ensures var files := [FileRecord("a", true, 1, true, [88]), FileRecord("b", true, 1, true, [88]), FileRecord("c", true, 1, true, [89])];
            var t := Classify(files, md5);
            t.archive == map[md5([88]) := "a", md5([89]) := "c"] && t.duplicates == map["a" := ["b"]] && t.freespace == 1
  {
    var a, b, c := FileRecord("a", true, 1, true, [88]), FileRecord("b", true, 1, true, [88]), FileRecord("c", true, 1, true, [89]);
    ClassifySnoc([], a, md5);
    ClassifySnoc([a], b, md5);
    ClassifySnoc([a, b], c, md5);
    assert [a] + [b] == [a, b];
    assert [a, b] + [c] == [a, b, c];
    assert Classify([a], md5) == Tables(map[md5([88]) := "a"], map[], 0);
    assert Group(map[], "a") + ["b"] == ["b"];
    assert Classify([a, b], md5) == Tables(map[md5([88]) := "a"], map["a" := ["b"]], 1);
  }

  /** A single empty file produces no entries and nothing reclaimable. */
  lemma ScenarioOneEmptyFile(md5: HashFn, p: Path)
    ensures Classify([FileRecord(p, true, 0, true, [])], md5) == Initial
  {
    SkippedRecordChangesNothing([], FileRecord(p, true, 0, true, []), md5);
  }
}
