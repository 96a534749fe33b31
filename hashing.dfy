/**
 * The streaming hasher: a file is opened unbuffered and read into one
 * reused buffer of BLOCKSIZE bytes until a read returns zero bytes; each
 * filled part of the buffer is fed to a fresh MD5 object.
 */
module Hashing {
  import opened Seqs

  newtype byte = b: int | 0 <= b < 256

  /** Size of the read buffer, in bytes. */
  const BLOCKSIZE: nat := 65536

  /** Width of an MD5 digest, in bytes (128 bits). */
  const DIGEST_SIZE: nat := 16

  type Fingerprint = s: seq<byte> | |s| == DIGEST_SIZE witness seq(16, _ => 0)

  /**
   * MD5 itself is outside the model: it is an arbitrary function from the
   * whole message to a digest, passed in wherever a digest is taken.
   */
  type HashFn = seq<byte> -> Fingerprint

  /**
   * An MD5 object. Its observable behaviour is that `digest()` is MD5 of the
   * concatenation of everything passed to `update`; `log` is the list of those
   * chunks, in order, and `fed` their concatenation.
   */
  class Md5 {
    const md5: HashFn
    var fed: seq<byte>
    ghost var log: seq<seq<byte>>

    ghost predicate Valid()
      reads this
    {
      fed == Flatten(log)
    }

    constructor (md5: HashFn)
      ensures Valid() && this.md5 == md5 && log == [] && fed == []
    {
      this.md5 := md5;
      fed := [];
      log := [];
    }

    method Update(chunk: seq<byte>)
      requires Valid()
      modifies this
      ensures Valid()
      ensures log == old(log) + [chunk] && fed == old(fed) + chunk
    {
      FlattenSnoc(log, chunk);
      fed := fed + chunk;
      log := log + [chunk];
    }

    /** `digest()`: MD5 of all chunks passed to `update`, joined in order. */
    function Digest(): (d: Fingerprint)
      reads this
      requires Valid()
      ensures d == md5(Flatten(log))
    {
      md5(fed)
    }
  }

  /** A file opened for unbuffered binary reading: its bytes and the read offset. */
  class RawFile {
    const contents: seq<byte>
    var pos: nat

    ghost predicate Valid()
      reads this
    {
      pos <= |contents|
    }

    constructor Open(contents: seq<byte>)
      ensures Valid() && this.contents == contents && pos == 0
    {
      this.contents := contents;
      pos := 0;
    }

    /**
     * `readinto`: copies the next bytes of the file into the front of `buf`
     * and returns how many. A raw read may return fewer bytes than asked for;
     * it returns 0 only at end of file (or for an empty buffer).
     */
    method ReadInto(buf: array<byte>) returns (n: nat)
      requires Valid()
      modifies this, buf
      ensures Valid()
      ensures n <= buf.Length && pos == old(pos) + n
      ensures n == 0 <==> old(pos) == |contents| || buf.Length == 0
      ensures buf[..n] == contents[old(pos)..pos]
      ensures buf[n..] == old(buf[n..])
    {
      var remaining := |contents| - pos;
      if remaining == 0 || buf.Length == 0 {
        n := 0;
        return;
      }
      var most := if remaining < buf.Length then remaining else buf.Length;
      assert 0 < 1 <= most;
      n :| 0 < n <= most;
      forall k | 0 <= k < n {
        buf[k] := contents[pos + k];
      }
      pos := pos + n;
    }
  }

  /**
   * Hashes one file's bytes as the hashing loop does: a fresh MD5 object,
   * then `readinto` the shared buffer and `update` with the filled part until
   * a zero-length read. The hasher is returned so that its log of chunks can
   * be inspected.
   */
  method HashFile(contents: seq<byte>, buf: array<byte>, md5: HashFn)
      returns (digest: Fingerprint, hasher: Md5)
    requires buf.Length == BLOCKSIZE
    modifies buf
    ensures fresh(hasher) && hasher.Valid() && hasher.md5 == md5
    ensures Flatten(hasher.log) == contents
    ensures forall c :: c in hasher.log ==> 0 < |c| <= BLOCKSIZE
    ensures digest == hasher.Digest() && digest == md5(contents)
  {
    hasher := new Md5(md5);
    var f := new RawFile.Open(contents);
    while true
      invariant f.Valid() && f.contents == contents
      invariant hasher.Valid() && hasher.md5 == md5 && hasher.fed == contents[..f.pos]
      invariant forall c :: c in hasher.log ==> 0 < |c| <= BLOCKSIZE
      decreases |contents| - f.pos
    {
      ghost var before := f.pos;
      var n := f.ReadInto(buf);
      if n == 0 {
        break;
      }
      hasher.Update(buf[..n]);
      assert contents[..f.pos] == contents[..before] + contents[before..f.pos];
    }
    assert contents[..f.pos] == contents;
    digest := hasher.Digest();
  }
}
