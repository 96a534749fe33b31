/**
 * The duplicate classifier: the tables the hashing loop builds, as a function
 * of the records it has processed in walk order, and what holds of them.
 */
module Classifier {
  import opened Hashing
  import opened Walk

  /**
   * `archive` maps a digest to the first path seen with it; `duplicates`
   * (a defaultdict of lists) maps such a path to the later paths with the
   * same digest; `freespace` is the number of bytes held by those later files.
   */
  datatype Tables = Tables(archive: map<Fingerprint, Path>, duplicates: map<Path, seq<Path>>, freespace: nat)

  const Initial := Tables(map[], map[], 0)

  /** A record is hashed when it exists and its size is not zero. */
  predicate Hashed(r: FileRecord)
  {
    r.present && r.size > 0
  }

  /** `duplicates[o]` when read through the defaultdict. */
  function Group(duplicates: map<Path, seq<Path>>, o: Path): seq<Path>
  {
    if o in duplicates then duplicates[o] else []
  }

  /**
   * One pass of the inner loop body over the record `r`: the archive gains at
   * most the record's digest and keeps every entry it had, the lists of
   * `duplicates` only grow at their ends, and freespace grows by the record's
   * size exactly when its digest was already archived.
   */
  function Step(t: Tables, r: FileRecord, md5: HashFn): (t': Tables)
    ensures t'.archive.Keys == t.archive.Keys + (if Hashed(r) then {md5(r.contents)} else {})
    ensures forall h :: h in t.archive ==> t'.archive[h] == t.archive[h]
    ensures forall o :: o in t.duplicates ==> o in t'.duplicates && t.duplicates[o] <= t'.duplicates[o]
    ensures t'.freespace == t.freespace + (if Hashed(r) && md5(r.contents) in t.archive then r.size else 0)
  {
    if !Hashed(r) then t
    else
      var hashed := md5(r.contents);
      if hashed in t.archive then
        var original := t.archive[hashed];
        Tables(t.archive, t.duplicates[original := Group(t.duplicates, original) + [r.path]], t.freespace + r.size)
      else
        Tables(t.archive[hashed := r.path], t.duplicates, t.freespace)
  }

  /**
   * The tables after processing `files` in order, starting from empty ones.
   * Reclaimable space never exceeds the summed size of the files that exist.
   */
  function Classify(files: seq<FileRecord>, md5: HashFn): (t: Tables)
    ensures t.freespace <= PresentBytes(files)
    decreases |files|
  {
    if files == [] then Initial
    else Step(Classify(files[..|files| - 1], md5), files[|files| - 1], md5)
  }

  lemma ClassifySnoc(files: seq<FileRecord>, r: FileRecord, md5: HashFn)
    ensures Classify(files + [r], md5) == Step(Classify(files, md5), r, md5)
  {
    assert (files + [r])[..|files|] == files;
  }

  // ---------------------------------------------------------------------
  // Reference definitions, stated over the records alone

  /** Record `i` of `files` is hashed and its digest is `h`. */
  ghost predicate HashesTo(files: seq<FileRecord>, md5: HashFn, i: int, h: Fingerprint)
  {
    0 <= i < |files| && Hashed(files[i]) && md5(files[i].contents) == h
  }

  /** Record `i` is the earliest hashed record whose digest is `h`. */
  ghost predicate FirstWith(files: seq<FileRecord>, md5: HashFn, h: Fingerprint, i: int)
  {
    HashesTo(files, md5, i, h) && forall j :: 0 <= j < i ==> !HashesTo(files, md5, j, h)
  }

  /** Record `i` is hashed and some earlier hashed record has the same digest. */
  ghost predicate IsDuplicateAt(files: seq<FileRecord>, md5: HashFn, i: int)
    requires 0 <= i < |files|
  {
    Hashed(files[i]) && exists j :: 0 <= j < i && HashesTo(files, md5, j, md5(files[i].contents))
  }

  /** Total size of the records that have an earlier record with the same digest. */
  ghost function DuplicateBytes(files: seq<FileRecord>, md5: HashFn): nat
    decreases |files|
  {
    if files == [] then 0
    else
      var n := |files| - 1;
      DuplicateBytes(files[..n], md5) + (if IsDuplicateAt(files, md5, n) then files[n].size else 0)
  }

  /** Number of records that have an earlier record with the same digest. */
  ghost function DuplicateCount(files: seq<FileRecord>, md5: HashFn): nat
    decreases |files|
  {
    if files == [] then 0
    else
      var n := |files| - 1;
      DuplicateCount(files[..n], md5) + (if IsDuplicateAt(files, md5, n) then 1 else 0)
  }

  /** Number of hashed records. */
  function HashedCount(files: seq<FileRecord>): nat
    decreases |files|
  {
    if files == [] then 0
    else HashedCount(files[..|files| - 1]) + (if Hashed(files[|files| - 1]) then 1 else 0)
  }

  /** Sum of the lengths of all lists in a duplicates table. */
  ghost function Listed(d: map<Path, seq<Path>>): nat
    decreases |d|
  {
    if d == map[] then 0
    else
      var o :| o in d;
      |d[o]| + Listed(d - {o})
  }

  /** The path `o` is that of the earliest hashed record with digest `h`. */
  ghost predicate OriginalIs(files: seq<FileRecord>, md5: HashFn, h: Fingerprint, o: Path)
  {
    exists i :: FirstWith(files, md5, h, i) && files[i].path == o
  }

  /**
   * The group of the original `o`: in walk order, the paths of the records
   * that are duplicates and whose earliest record with the same digest has
   * path `o`.
   */
  ghost function GroupOf(files: seq<FileRecord>, md5: HashFn, o: Path): seq<Path>
    decreases |files|
  {
    if files == [] then []
    else
      var n := |files| - 1;
      GroupOf(files[..n], md5, o) +
        (if IsDuplicateAt(files, md5, n) && OriginalIs(files[..n], md5, md5(files[n].contents), o)
         then [files[n].path] else [])
  }

  // ---------------------------------------------------------------------
  // Helpers

  /** The records before the last one agree with the shorter sequence. */
  lemma InitAgrees(files: seq<FileRecord>, md5: HashFn)
    requires files != []
    ensures forall i, h :: 0 <= i < |files| - 1 ==>
              (HashesTo(files, md5, i, h) <==> HashesTo(files[..|files| - 1], md5, i, h))
  {
  }

  lemma {:induction false} ListedPick(d: map<Path, seq<Path>>, o: Path)
    requires o in d
    ensures Listed(d) == |d[o]| + Listed(d - {o})
    decreases |d|
  {
    var o' :| o' in d && Listed(d) == |d[o']| + Listed(d - {o'});
    if o' != o {
      var rest := d - {o'};
      assert o in rest && rest[o] == d[o];
      ListedPick(rest, o);
      assert rest - {o} == (d - {o}) - {o'};
      ListedPick(d - {o}, o');
    }
  }

  lemma ListedAppend(d: map<Path, seq<Path>>, o: Path, p: Path)
    ensures Listed(d[o := Group(d, o) + [p]]) == Listed(d) + 1
  {
    var d' := d[o := Group(d, o) + [p]];
    ListedPick(d', o);
    if o in d {
      ListedPick(d, o);
      assert d' - {o} == d - {o};
    } else {
      assert d' - {o} == d;
    }
  }

  // ---------------------------------------------------------------------
  // Properties of the tables

  /**
   * Nothing else changes for a record that does not exist or is empty: it is
   * skipped without touching any table.
   */
  lemma SkippedRecordChangesNothing(files: seq<FileRecord>, r: FileRecord, md5: HashFn)
    requires !Hashed(r)
    ensures Classify(files + [r], md5) == Classify(files, md5)
  {
    ClassifySnoc(files, r, md5);
  }

  /**
   * First seen wins: a digest is in the archive exactly when some hashed record
   * has it, and it maps to the path of the earliest such record.
   */
  lemma {:induction false} ArchiveIsFirstSeen(files: seq<FileRecord>, md5: HashFn, h: Fingerprint)
    ensures h in Classify(files, md5).archive <==> exists i :: HashesTo(files, md5, i, h)
    ensures h in Classify(files, md5).archive ==>
              exists i :: FirstWith(files, md5, h, i) && Classify(files, md5).archive[h] == files[i].path
    decreases |files|
  {
    if files != [] {
      var n := |files| - 1;
      var init, r := files[..n], files[n];
      ArchiveIsFirstSeen(init, md5, h);
      InitAgrees(files, md5);
      var a0 := Classify(init, md5).archive;
      var a := Classify(files, md5).archive;
      if Hashed(r) && md5(r.contents) !in a0 && md5(r.contents) == h {
        assert a[h] == r.path;
        assert FirstWith(files, md5, h, n);
      } else {
        assert h in a <==> h in a0;
        if h in a {
          assert a[h] == a0[h];
          var i :| FirstWith(init, md5, h, i) && a0[h] == init[i].path;
          assert FirstWith(files, md5, h, i);
        } else {
          assert !HashesTo(files, md5, n, h);
        }
      }
    }
  }

  /**
   * The archive only grows: every entry present after a prefix is still there,
   * with the same path, after the whole sequence.
   */
  lemma ArchiveGrows(files: seq<FileRecord>, md5: HashFn, k: nat)
    requires k <= |files|
    ensures forall h :: h in Classify(files[..k], md5).archive ==>
              h in Classify(files, md5).archive && Classify(files, md5).archive[h] == Classify(files[..k], md5).archive[h]
  {
    var a0 := Classify(files[..k], md5).archive;
    var a := Classify(files, md5).archive;
    forall h | h in a0
      ensures h in a && a[h] == a0[h]
    {
      ArchiveIsFirstSeen(files[..k], md5, h);
      var i :| FirstWith(files[..k], md5, h, i) && a0[h] == files[..k][i].path;
      assert files[..k][i] == files[i];
      forall j | 0 <= j < i
        ensures !HashesTo(files, md5, j, h)
      {
        assert files[..k][j] == files[j];
        assert !HashesTo(files[..k], md5, j, h);
      }
      assert FirstWith(files, md5, h, i);
      ArchiveIsFirstSeen(files, md5, h);
      var i' :| FirstWith(files, md5, h, i') && a[h] == files[i'].path;
      assert i == i';
    }
  }

  /**
   * Every key of `duplicates` is a path the archive holds, and every list in
   * it has at least one entry.
   */
  lemma {:induction false} DuplicateKeysAreOriginals(files: seq<FileRecord>, md5: HashFn)
    ensures forall o :: o in Classify(files, md5).duplicates ==>
              o in Classify(files, md5).archive.Values && Classify(files, md5).duplicates[o] != []
    decreases |files|
  {
    if files != [] {
      var n := |files| - 1;
      DuplicateKeysAreOriginals(files[..n], md5);
      var t0 := Classify(files[..n], md5);
      var t := Classify(files, md5);
      var r := files[n];
      forall v | v in t0.archive.Values
        ensures v in t.archive.Values
      {
        var h :| h in t0.archive && t0.archive[h] == v;
        assert t.archive[h] == v;
      }
      if Hashed(r) && md5(r.contents) in t0.archive {
        assert t0.archive[md5(r.contents)] in t0.archive.Values;
      }
    }
  }

  /**
   * The lists in `duplicates` are append-only: after a prefix each list is a
   * prefix of the same list after the whole sequence.
   */
  lemma {:induction false} DuplicateGroupsGrow(files: seq<FileRecord>, md5: HashFn, k: nat)
    requires k <= |files|
    ensures forall o :: o in Classify(files[..k], md5).duplicates ==>
              o in Classify(files, md5).duplicates &&
              Classify(files[..k], md5).duplicates[o] <= Classify(files, md5).duplicates[o]
    decreases |files| - k
  {
    if k < |files| {
      var n := |files| - 1;
      assert files[..n][..k] == files[..k];
      DuplicateGroupsGrow(files[..n], md5, k);
      assert files[..n] == files[..|files| - 1];
    } else {
      assert files[..k] == files;
    }
  }

  /** Reclaimable space is the total size of the records found to be duplicates. */
  lemma {:induction false} FreespaceIsDuplicateBytes(files: seq<FileRecord>, md5: HashFn)
    ensures Classify(files, md5).freespace == DuplicateBytes(files, md5)
    decreases |files|
  {
    if files != [] {
      var n := |files| - 1;
      var r := files[n];
      FreespaceIsDuplicateBytes(files[..n], md5);
      if Hashed(r) {
        DuplicateBranch(files, md5);
      }
    }
  }

  /** The last record takes the duplicate branch exactly when it is a duplicate. */
  lemma DuplicateBranch(files: seq<FileRecord>, md5: HashFn)
    requires files != [] && Hashed(files[|files| - 1])
    ensures (md5(files[|files| - 1].contents) in Classify(files[..|files| - 1], md5).archive)
              == IsDuplicateAt(files, md5, |files| - 1)
  {
    var n := |files| - 1;
    var h := md5(files[n].contents);
    ArchiveIsFirstSeen(files[..n], md5, h);
    InitAgrees(files, md5);
    if h in Classify(files[..n], md5).archive {
      var j :| HashesTo(files[..n], md5, j, h);
      assert 0 <= j < n && HashesTo(files, md5, j, h);
    }
    if IsDuplicateAt(files, md5, n) {
      var j :| 0 <= j < n && HashesTo(files, md5, j, h);
      assert HashesTo(files[..n], md5, j, h);
    }
  }

  /**
   * The counts add up: the duplicates lists hold one entry per record that
   * has an earlier record with the same digest, and together with the archive
   * entries they account for every hashed record. Which list each entry is in
   * is stated by DuplicatesAreGroups.
   */
  lemma {:induction false} EveryHashedFileLandsOnce(files: seq<FileRecord>, md5: HashFn)
    ensures Listed(Classify(files, md5).duplicates) == DuplicateCount(files, md5)
    ensures |Classify(files, md5).archive| + Listed(Classify(files, md5).duplicates) == HashedCount(files)
    decreases |files|
  {
    if files != [] {
      var n := |files| - 1;
      var r := files[n];
      EveryHashedFileLandsOnce(files[..n], md5);
      if Hashed(r) {
        DuplicateBranch(files, md5);
        var t0 := Classify(files[..n], md5);
        if md5(r.contents) in t0.archive {
          ListedAppend(t0.duplicates, t0.archive[md5(r.contents)], r.path);
        }
      }
    }
  }

  /**
   * A path that only ever names skipped records (missing or empty files) is
   * never an original, never a key of `duplicates` and in none of its lists.
   */
  lemma {:induction false} SkippedPathNeverListed(files: seq<FileRecord>, md5: HashFn, p: Path)
    requires forall i :: 0 <= i < |files| && files[i].path == p ==> !Hashed(files[i])
    ensures p !in Classify(files, md5).archive.Values
    ensures p !in Classify(files, md5).duplicates
    ensures forall o :: o in Classify(files, md5).duplicates ==> p !in Classify(files, md5).duplicates[o]
    decreases |files|
  {
    DuplicateKeysAreOriginals(files, md5);
    if files != [] {
      var n := |files| - 1;
      assert forall i :: 0 <= i < n ==> files[..n][i] == files[i];
      SkippedPathNeverListed(files[..n], md5, p);
      var t0 := Classify(files[..n], md5);
      var t := Classify(files, md5);
      if Hashed(files[n]) {
        assert files[n].path != p;
        assert t.archive.Values <= t0.archive.Values + {files[n].path};
      }
    }
  }

  /**
   * With no two different contents sharing a digest, a record is a duplicate
   * exactly when an earlier hashed record has the same bytes.
   */
  lemma DuplicateMeansSameContents(files: seq<FileRecord>, md5: HashFn, i: nat)
    requires i < |files|
    requires forall j, k :: 0 <= j < |files| && 0 <= k < |files| && md5(files[j].contents) == md5(files[k].contents)
               ==> files[j].contents == files[k].contents
    ensures IsDuplicateAt(files, md5, i) <==>
              Hashed(files[i]) && exists j :: 0 <= j < i && Hashed(files[j]) && files[j].contents == files[i].contents
  {
    if IsDuplicateAt(files, md5, i) {
      var j :| 0 <= j < i && HashesTo(files, md5, j, md5(files[i].contents));
      assert files[j].contents == files[i].contents;
    }
    if Hashed(files[i]) && exists j :: 0 <= j < i && Hashed(files[j]) && files[j].contents == files[i].contents {
      var j :| 0 <= j < i && Hashed(files[j]) && files[j].contents == files[i].contents;
      assert HashesTo(files, md5, j, md5(files[i].contents));
    }
  }

  /**
   * Each list of `duplicates` is exactly the group of its original: every
   * later record whose digest the original's record had, in walk order.
   * A path that is no key has the empty group.
   */
  lemma {:induction false} DuplicatesAreGroups(files: seq<FileRecord>, md5: HashFn, o: Path)
    ensures Group(Classify(files, md5).duplicates, o) == GroupOf(files, md5, o)
    decreases |files|
  {
    if files != [] {
      var n := |files| - 1;
      var init, r := files[..n], files[n];
      DuplicatesAreGroups(init, md5, o);
      if Hashed(r) {
        DuplicateBranch(files, md5);
        var h := md5(r.contents);
        var t0 := Classify(init, md5);
        if h in t0.archive {
          ArchiveIsFirstSeen(init, md5, h);
          var i :| FirstWith(init, md5, h, i) && t0.archive[h] == init[i].path;
          if OriginalIs(init, md5, h, o) {
            var i' :| FirstWith(init, md5, h, i') && init[i'].path == o;
            assert i == i';
          }
          if o == init[i].path {
            assert OriginalIs(init, md5, h, o);
          }
        }
      }
    }
  }
}
