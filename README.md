# cleanup: duplicate finder, modelled in Dafny

`main.py` asks for a root directory, fails if it does not exist, walks the tree
once to sum the sizes of its files, and walks it again to hash every non-empty
file with MD5. It reads each file in chunks of at most `BLOCKSIZE` (65536)
bytes into one reused buffer. The first file seen with a digest becomes the
original in `archive` (digest to path). Every later file with that digest is
appended to `duplicates[original]`, and its size is added to `freespace`, the
reclaimable space.

The model:

- `seqs.dfy` (`Seqs`): `Flatten`, joining a sequence of sequences. It joins the
  per-directory file lists of a walk and the chunks fed to the hasher.
- `hashing.dfy` (`Hashing`): bytes, the 128-bit `Fingerprint` and `BLOCKSIZE`.
  It also holds the MD5 object (`Md5`, whose digest is MD5 of everything
  passed to `update`), the unbuffered file (`RawFile` and its `readinto`), and
  `HashFile`, the read loop that stops on a zero-length read.
- `walk.dfy` (`Walk`): a file record (path, the `exists` flag, the `getsize`
  value, the bytes a read delivers). A walk is one list of records per visited
  directory. `TotalSize` is the size pre-pass.
- `classifier.dfy` (`Classifier`): the tables (`archive`, `duplicates`,
  `freespace`). `Step` is one pass of the inner loop body. `Classify` gives the
  tables after a sequence of records. The lemmas state what these tables mean
  in terms of the records alone.
- `cleanup.dfy` (`Cleanup`): `Scan`, the script's top level. It is the root
  check, the pre-pass, and the nested hashing loop over the walk, proved to
  compute `Classify` of the flattened walk.

External parts are parameters of the model:

- MD5 is the parameter `md5: seq<byte> -> Fingerprint`. Nothing is assumed
  about it in the general lemmas. `DuplicateMeansSameContents` assumes no
  collisions among the walked files, and the worked example
  `ScenarioSameThenDifferent` assumes its two contents have different digests.
- The directory walk is an input sequence.
- `os.path.exists` of the root is a boolean input. For each file it is a field
  of the record.
- Whether a file can be opened and read is a field of the record. A failing
  `open` or `readinto` raises out of the script (main.py:79-81), so `Scan`
  returns the error of the first such file, and no tables.
- `readinto` may return fewer bytes than the buffer holds, as a raw read may.
  It returns zero only at end of file.
- The size `getsize` reports and the bytes a read delivers are separate fields
  of the record, and nothing requires them to agree. The skip test and
  `freespace` use the size; the digest uses the bytes.

What the script itself does and does not do:

- The root check is `os.path.exists` only. A root that exists but is not a
  directory is not an error; its walk is simply empty.
- No error from `open` or `readinto` is caught; one unreadable file ends the
  whole run.
- There is no stream of events and no count of skipped files. The only
  outputs are the tables and the totals.

## Model

| member | source | states |
|---|---|---|
| Hashing.RawFile.Open | main.py:79 | opening a file starts reading at offset 0 of its bytes |
| Hashing.RawFile.ReadInto | main.py:80 | a read fills a prefix of the buffer with the next `n <= len(buffer)` bytes of the file and advances by `n`, leaving the rest of the buffer as it was; `n` is 0 exactly at end of file |
| Hashing.Md5.constructor | main.py:78 | a new hasher has an empty log of chunks and has been fed no bytes |
| Hashing.Md5.Update | main.py:81 | `update` appends the chunk to the hasher's log of chunks and to the message being hashed |
| Hashing.Md5.Digest | main.py:84 | `digest()` is MD5 of all chunks passed to `update`, joined in order |
| Hashing.HashFile | main.py:78-84 | a fresh hasher is created for the file; the chunks it received through `update` join to exactly the file's bytes, each has between 1 and `BLOCKSIZE` bytes, and the digest is MD5 of the file's bytes |
| Walk.TotalSize | main.py:54-59 | `total` is the sum of the sizes of the walked files that exist |
| Classifier.Step | main.py:73-98 | one file: the archive gains at most its digest and keeps every entry, duplicates lists only grow at their ends, freespace grows by its size exactly when its digest was already archived |
| Classifier.Classify | main.py:70-98 | the tables after the loop over a sequence of files; freespace never exceeds the summed size of the existing files |
| Classifier.SkippedRecordChangesNothing | main.py:73-76 | a file that does not exist or has size 0 leaves archive, duplicates and freespace unchanged |
| Classifier.SkippedPathNeverListed | main.py:74-76 | a path naming only missing or empty files is never an archive value, never a duplicates key and in no duplicates list |
| Classifier.ArchiveIsFirstSeen | main.py:86-98 | a digest is in the archive iff some hashed file has it, and it maps to the path of the earliest such file in walk order |
| Classifier.ArchiveGrows | main.py:97-98 | every archive entry after a prefix of the walk is still present, with the same path, after the whole walk |
| Classifier.DuplicateKeysAreOriginals | main.py:86-89 | every key of duplicates is a path in the archive, and each of its lists is non-empty |
| Classifier.DuplicateGroupsGrow | main.py:88-89 | each duplicates list after a prefix of the walk is a prefix of the same list after the whole walk (append-only) |
| Classifier.DuplicatesAreGroups | main.py:86-89 | `duplicates[o]` is, in walk order, the paths of the later files whose digest is that of the earliest file, when that file's path is `o` |
| Classifier.FreespaceIsDuplicateBytes | main.py:86-87 | freespace is the total size of the files that have an earlier hashed file with the same digest |
| Classifier.EveryHashedFileLandsOnce | main.py:86-98 | the duplicates lists hold as many paths as there are duplicate files, and size of archive plus that number is the number of hashed files |
| Classifier.DuplicateMeansSameContents | main.py:84-86 | if no two different contents share a digest, a file is a duplicate iff an earlier hashed file has the same bytes |
| Cleanup.FirstReadErrorIsEarliest | main.py:79-81 | there is no read error iff every hashed file is readable; otherwise the error names the earliest hashed file that is not |
| Cleanup.FirstReadErrorPrefix | main.py:79-81 | once a read error occurs in a prefix of the walk, the whole walk fails with that same error |
| Cleanup.Scan | main.py:23-98 | a missing root gives `DirectoryNotFound` before any processing; a hashed file that cannot be read gives the error of the first such file; otherwise the result is the pre-pass total and the tables `Classify` gives for the flattened walk |
| Cleanup.ScenarioSameThenDifferent | main.py:86-98 | files a, b with the same bytes and c with other bytes: archive maps to a and c, duplicates is {a: [b]}, freespace is the size of b |
| Cleanup.ScenarioOneEmptyFile | main.py:74-76 | a walk of one empty file leaves all tables empty and freespace 0 |

## Left out

- The interactive prompt for the root path (main.py:21): the root's existence is an input.
- The rich user interface: progress bars, the duplicates table, flushing it every `PRINTSIZE` rows, and the freespace panel (main.py:29-44, 52-53, 60, 67-68, 82, 90-96). These are presentation only.
- The dot-printing file-count walk (main.py:44-50): it only sizes a progress bar.
- Writing `archive` and `duplicates` with pickle (main.py:100-104): output format and I/O.
- `os.walk`, `os.path.join`, `os.path.getsize` and `open`: the walk is a given list of records with joined paths.
- The two walks are modelled as yielding the same records, with one `exists` flag per file for both. A file that appears, disappears or changes size between the two walks is not modelled.
- A read that fails partway through a file is modelled like a file that cannot be opened: the run ends with that file's error either way, so where the failure happens does not change the result.
- MD5 itself: `hashlib.md5` is a foreign library, so the digest is an arbitrary function of the whole byte sequence.
- The unused hasher created at main.py:26: it is replaced before any use.
- Python's unbounded integers need no wrap-around; `nat` is used throughout.
