/**
 * What xseek asks of the operating system once the two proc files are open:
 * reading the target's memory at an offset, allocating a buffer, and
 * creating and writing a file in the working directory. The memory image
 * and the allocator's and the file system's answers are inputs of the model.
 */
module Host {
  import opened CText

  /**
   * The readable bytes of the target's address space, by address, as
   * `/proc/<pid>/mem` exposes them during one tick.
   */
  type Image = map<nat, bv8>

  /** The bytes a read of `n` bytes at `at` transfers: everything up to the first unreadable address. */
  function Readable(image: Image, at: nat, n: nat): (s: seq<bv8>)
    ensures |s| <= n
    ensures forall a :: at <= a < at + |s| ==> a in image && s[a - at] == image[a]
    ensures |s| < n ==> at + |s| !in image
    ensures n > 0 && at in image ==> |s| > 0
    decreases n
  {
    if n == 0 || at !in image then [] else [image[at]] + Readable(image, at + 1, n - 1)
  }

  /** What `read` reports: -1, or how many bytes it placed in the buffer. */
  datatype ReadResult = ReadError | ReadBytes(data: seq<bv8>)

  /**
   * Linux's `MAX_RW_COUNT` (`INT_MAX & PAGE_MASK` with 4 KiB pages): a single
   * `read` never transfers more than this many bytes.
   */
  const MAX_RW_COUNT: nat := 0x7fff_f000

  /** How many bytes one `read` of `n` bytes may transfer at most. */
  function Capped(n: nat): (c: nat)
    ensures c <= n && c <= MAX_RW_COUNT
    ensures c == n || c == MAX_RW_COUNT
  {
    if n <= MAX_RW_COUNT then n else MAX_RW_COUNT
  }

  /**
   * `lseek(fd, at, SEEK_SET)` then `read(fd, buf, n)`: a read of zero bytes
   * succeeds with nothing, a read whose first byte is unreadable fails, and
   * otherwise the image's bytes from `at` on are transferred up to the first
   * unreadable address or the per-call cap, whichever comes first.
   */
  function Read(image: Image, at: nat, n: nat): (r: ReadResult)
    ensures r.ReadError? <==> n > 0 && at !in image
    ensures r.ReadBytes? ==>
              && |r.data| <= Capped(n)
              && (n > 0 ==> |r.data| > 0)
              && (forall a :: at <= a < at + |r.data| ==> a in image && r.data[a - at] == image[a])
              && (|r.data| < Capped(n) ==> at + |r.data| !in image)
  {
    if n > 0 && at !in image then ReadError
    else
      var data := Readable(image, at, n);
      ReadBytes(data[..Capped(|data|)])
  }

  /**
   * The bytes one `write` of `data` puts in a regular file: Linux caps a
   * single `write` at MAX_RW_COUNT bytes just as it caps `read`, so a larger
   * buffer is cut to its first MAX_RW_COUNT bytes.
   */
  function Transfer(data: seq<bv8>): seq<bv8> {
    data[..Capped(|data|)]
  }

  /** A region readable throughout is read in full, up to the per-call cap. */
  lemma {:induction false} ReadFullRegion(image: Image, at: nat, n: nat)
    requires forall a :: at <= a < at + n ==> a in image
    ensures Read(image, at, n) == ReadBytes(seq(Capped(n), i requires 0 <= i < Capped(n) => image[at + i]))
  {
    ReadableRegion(image, at, n);
  }

  lemma {:induction false} ReadableRegion(image: Image, at: nat, n: nat)
    requires forall a :: at <= a < at + n ==> a in image
    ensures Readable(image, at, n) == seq(n, i requires 0 <= i < n => image[at + i])
    decreases n
  {
    if n > 0 {
      ReadableRegion(image, at + 1, n - 1);
    }
  }

  /**
   * `read` into the caller's buffer: on success the first `retval` bytes of
   * `buf` are overwritten with what was read and the rest are left as they were.
   */
  method ReadInto(image: Image, at: nat, buf: array<bv8>) returns (retval: int)
    modifies buf
    ensures Read(image, at, buf.Length).ReadError? ==> retval == -1 && buf[..] == old(buf[..])
    ensures Read(image, at, buf.Length).ReadBytes? ==>
              var data := Read(image, at, buf.Length).data;
              retval == |data| && buf[..] == data + old(buf[..])[|data|..]
  {
    match Read(image, at, buf.Length)
    case ReadError =>
      retval := -1;
    case ReadBytes(data) =>
      forall i | 0 <= i < |data| {
        buf[i] := data[i];
      }
      retval := |data|;
  }

  /**
   * The answers the system gives during one tick: the memory image, whether
   * `calloc(len, 1)` returns a buffer, and whether a file of a given name,
   * when absent, could be created (permissions, quotas, descriptors).
   */
  datatype Env = Env(image: Image, allocates: nat -> bool, opens: string -> bool)

  /** The working directory: every name in it, with the bytes of the file it names. */
  class Workdir {
    var files: map<string, seq<bv8>>

    constructor (existing: map<string, seq<bv8>>)
      ensures files == existing
    {
      files := existing;
    }

    /**
     * `open(name, O_WRONLY | O_TRUNC | O_CREAT | O_EXCL, 0600)`: fails when the
     * name is taken, so an existing file is never touched; otherwise the new
     * file starts empty.
     */
    method CreateExclusive(name: string, opens: string -> bool) returns (created: bool)
      modifies this
      ensures created <==> name !in old(files) && opens(name)
      ensures files == if created then old(files)[name := []] else old(files)
    {
      created := name !in files && opens(name);
      if created {
        files := files[name := []];
      }
    }

    /**
     * `write(fd, buf, len)` to a file just created: as many bytes as one call
     * transfers are appended to it, and their number is returned.
     */
    method Write(name: string, data: seq<bv8>) returns (written: nat)
      requires name in files
      modifies this
      ensures written == Capped(|data|)
      ensures files == old(files)[name := old(files)[name] + Transfer(data)]
    {
      written := Capped(|data|);
      files := files[name := files[name] + data[..written]];
    }
  }
}
