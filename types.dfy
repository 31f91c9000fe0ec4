/** Records shared by both archive engines: bytes, the stat record a
    header carries, and the header itself. */
module CpioTypes {

  /** One octet of an archive or of a file body. */
  type byte = b: int | 0 <= b < 256

  datatype Option<T> = None | Some(value: T)

  /** AT_FDCWD on FreeBSD: the base directory before one is set. */
  const AtFdCwd: int := -100

  /** The fields of `struct stat` that a cpio header carries. */
  datatype Stat = Stat(dev: nat, ino: nat, mode: nat, uid: nat, gid: nat,
                       nlink: nat, rdev: nat, mtime: nat, size: nat)

  /** `struct cpio_header`: the stat record and an owned filename, which
      is `None` where the C pointer is NULL (a failed strdup). */
  datatype Header = Header(st: Stat, filename: Option<string>)

  /** `cpio_archive_mode`. */
  datatype Mode = ModeNone | ModeRead | ModeWrite

  /** The open(2) request made for the archive file: read-only, or
      write/create with the permission bits passed (none at all when the
      call leaves out its third argument). */
  datatype OpenRequest = ReadOnly | WriteCreate(perm: Option<nat>)

  /** The stat record after `bzero`, used for the trailer. */
  const ZeroStat: Stat := Stat(0, 0, 0, 0, 0, 0, 0, 0, 0)

  const TrailerName: string := "TRAILER!!!"

  /** The end-of-archive test of both readers: a zero body length and a
      filename whose first ten characters are "TRAILER!!!" (strncmp with
      a bound of 10, so a longer name with that prefix also matches). */
  predicate IsTrailer(h: Header) {
    h.st.size == 0 && h.filename.Some? &&
    |h.filename.value| >= 10 && h.filename.value[..10] == TrailerName
  }

  /** `n` zero bytes, as written by memset / calloc. */
  function Zeros(n: nat): (z: seq<byte>)
    ensures |z| == n && forall i :: 0 <= i < n ==> z[i] == 0
  {
    if n == 0 then [] else Zeros(n - 1) + [0]
  }

  /** The trailer produced by `cpio_header_create(&zeroed, "TRAILER!!!")`
      is recognised by the readers as the end-of-archive marker, and a
      name that merely starts with the marker is recognised too. */
  lemma TrailerRecognised(suffix: string)
    ensures IsTrailer(Header(ZeroStat, Some(TrailerName + suffix)))
    ensures !IsTrailer(Header(ZeroStat, Some(TrailerName[..9])))
  {
    assert (TrailerName + suffix)[..10] == TrailerName;
  }
}
