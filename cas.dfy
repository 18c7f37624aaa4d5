/** The filesystem content-addressed store (`FsCas`, common/utils/src/cas.rs).
    A blob lives at `root/<first two hex digits>/<remaining 62>` of its SHA-256 hex digest.
    SHA-256 is opaque: the store is given the digest function, and only the digest's text
    shape (64 lowercase hex digits, `{:x}` formatting) is assumed of it. The directory tree
    under the root is a map from paths to file contents. */
module Cas {
  import opened Wrappers
  import opened Bytes
  import opened Text

  type Path = seq<string>

  /** `sha256_hex`: a digest function on bytes. */
  type Hasher = Bytes -> string

  predicate IsLowerHexDigit(c: char) { ('0' <= c <= '9') || ('a' <= c <= 'f') }

  /** What `format!("{:x}", digest)` of a 32-byte digest looks like. */
  predicate IsHexDigest(h: string) {
    |h| == 64 && forall i :: 0 <= i < 64 ==> IsLowerHexDigit(h[i])
  }

  ghost predicate ProducesHexDigests(sha: Hasher) {
    forall b: Bytes :: IsHexDigest(sha(b))
  }

  datatype CasError = Io(message: string) | InvalidHash(hash: string)

  /** The `Display` text of a CAS error. */
  function ErrorText(e: CasError): string {
    match e
    case Io(m) => "io: " + m
    case InvalidHash(h) => "invalid hash: " + h
  }

  /** The hashes the store accepts: 64 characters, each an ASCII hex digit of either case. */
  predicate ValidHash(hash: string) {
    |hash| == 64 && forall i :: 0 <= i < |hash| ==> IsAsciiHexDigit(hash[i])
  }

  /** `path_for_hash`. */
  function PathForHash(root: Path, hash: string): (r: Result<Path, CasError>)
    ensures r.Ok? <==> ValidHash(hash)
    ensures r.Ok? ==> r.value == root + [hash[..2], hash[2..]]
    ensures r.Err? ==> r.error == InvalidHash(hash)
  {
    if |hash| != 64 || !(forall i :: 0 <= i < |hash| ==> IsAsciiHexDigit(hash[i])) then
      Err(InvalidHash(hash))
    else
      Ok(root + [hash[..2], hash[2..]])
  }

  /** Every digest the hasher can produce is accepted by `path_for_hash`. */
  lemma DigestHasPath(h: string)
    requires IsHexDigest(h)
    ensures ValidHash(h)
  {
  }

  /** Distinct valid hashes live at distinct paths. */
  lemma PathForHashInjective(root: Path, h1: string, h2: string)
    requires ValidHash(h1) && ValidHash(h2) && h1 != h2
    ensures PathForHash(root, h1).value != PathForHash(root, h2).value
  {
    var p1 := PathForHash(root, h1).value;
    var p2 := PathForHash(root, h2).value;
    assert p1[|root|] == h1[..2] && p1[|root| + 1] == h1[2..];
    assert p2[|root|] == h2[..2] && p2[|root| + 1] == h2[2..];
    assert h1 == h1[..2] + h1[2..] && h2 == h2[..2] + h2[2..];
  }

  /** The failures the filesystem can report during `put`. */
  datatype IoFault = NoFault | CreateDirFault(msg: string) | WriteFault(msg: string) | RenameFault(msg: string)

  /** The temporary file name `with_extension("tmp")` gives the blob path. */
  function TmpPath(p: Path): Path
    requires |p| >= 1
  {
    p[..|p| - 1] + [p[|p| - 1] + ".tmp"]
  }

  /** The blob path of a valid hash. */
  function BlobPath(root: Path, hash: string): Path
    requires ValidHash(hash)
  {
    root + [hash[..2], hash[2..]]
  }

  /** The result of `put` and the files afterwards, when the filesystem reports `io`:
      content already present is not rewritten; otherwise the bytes go to a temporary
      file (`create_dir_all`, `fs::write`) that `fs::rename` moves into place. */
  function PutOutcome(root: Path, files: map<Path, Bytes>, sha: Hasher, bytes: Bytes, io: IoFault)
    : (Result<string, CasError>, map<Path, Bytes>)
  {
    var h := sha(bytes);
    if !ValidHash(h) then (Err(InvalidHash(h)), files)
    else
      var p := BlobPath(root, h);
      if p in files then (Ok(h), files)
      else match io
        case NoFault => (Ok(h), (files - {TmpPath(p)})[p := bytes])
        case CreateDirFault(m) => (Err(Io(m)), files)
        case WriteFault(m) => (Err(Io(m)), files)
        case RenameFault(m) => (Err(Io(m)), files[TmpPath(p) := bytes])
  }

  /** `put` returns the digest of the bytes, after which the blob is stored; a new blob
      holds exactly the bytes, and an existing one is left as it was. */
  lemma PutThenGet(root: Path, files: map<Path, Bytes>, sha: Hasher, bytes: Bytes, io: IoFault)
    requires PutOutcome(root, files, sha, bytes, io).0.Ok?
    ensures var (r, files') := PutOutcome(root, files, sha, bytes, io);
      r.value == sha(bytes) && ValidHash(r.value) &&
      BlobPath(root, r.value) in files' &&
      files'[BlobPath(root, r.value)] ==
        (if BlobPath(root, r.value) in files then files[BlobPath(root, r.value)] else bytes)
  {
  }

  /** Putting the same bytes twice gives the same hash, and the second put changes no file. */
  lemma PutTwice(root: Path, files: map<Path, Bytes>, sha: Hasher, bytes: Bytes, io1: IoFault, io2: IoFault)
    requires PutOutcome(root, files, sha, bytes, io1).0.Ok?
    ensures var (r1, f1) := PutOutcome(root, files, sha, bytes, io1);
      PutOutcome(root, f1, sha, bytes, io2) == (r1, f1)
  {
  }

  /** A failed put never creates the blob, and leaves every other path alone except the
      temporary file a failed rename leaves behind. */
  lemma PutFailure(root: Path, files: map<Path, Bytes>, sha: Hasher, bytes: Bytes, io: IoFault)
    requires PutOutcome(root, files, sha, bytes, io).0.Err?
    ensures var (r, files') := PutOutcome(root, files, sha, bytes, io);
      (r.error.InvalidHash? <==> !ValidHash(sha(bytes))) &&
      (files' == files || (io.RenameFault? && files' == files[TmpPath(BlobPath(root, sha(bytes))) := bytes])) &&
      (ValidHash(sha(bytes)) ==> BlobPath(root, sha(bytes)) !in files')
  {
    if ValidHash(sha(bytes)) {
      TmpPathDiffers(BlobPath(root, sha(bytes)));
    }
  }

  /** The temporary file is never the blob itself. */
  lemma TmpPathDiffers(p: Path)
    requires |p| >= 1
    ensures TmpPath(p) != p
  {
    assert |TmpPath(p)[|p| - 1]| == |p[|p| - 1]| + 4;
  }

  class FsCas {
    const root: Path
    const sha: Hasher
    var files: map<Path, Bytes>

    constructor (root: Path, sha: Hasher, existing: map<Path, Bytes>)
      ensures this.root == root && this.sha == sha && files == existing
    {
      this.root := root;
      this.sha := sha;
      files := existing;
    }

    /** `get`: an invalid hash is an error, a missing blob an I/O error, otherwise the
        stored bytes. */
    function Get(hash: string): (r: Result<Bytes, CasError>)
      reads this
      ensures !ValidHash(hash) ==> r == Err(InvalidHash(hash))
      ensures ValidHash(hash) ==> (r.Ok? <==> BlobPath(root, hash) in files)
      ensures r.Ok? ==> r.value == files[BlobPath(root, hash)]
    {
      match PathForHash(root, hash)
      case Err(e) => Err(e)
      case Ok(p) => if p in files then Ok(files[p]) else Err(Io("No such file or directory"))
    }

    /** `contains`: an invalid hash is an error rather than `false`. */
    function Contains(hash: string): (r: Result<bool, CasError>)
      reads this
      ensures !ValidHash(hash) ==> r == Err(InvalidHash(hash))
      ensures ValidHash(hash) ==> r == Ok(BlobPath(root, hash) in files)
    {
      match PathForHash(root, hash)
      case Err(e) => Err(e)
      case Ok(p) => Ok(p in files)
    }

    /** `put`. */
    method Put(bytes: Bytes, io: IoFault) returns (r: Result<string, CasError>)
      modifies this
      ensures (r, files) == PutOutcome(root, old(files), sha, bytes, io)
    {
      var hash := sha(bytes);
      var finalPath :- PathForHash(root, hash);
      if finalPath in files {
        return Ok(hash);
      }
      if io.CreateDirFault? {
        return Err(Io(io.msg));
      }
      var tmp := TmpPath(finalPath);
      if io.WriteFault? {
        return Err(Io(io.msg));
      }
      var before := files;
      files := files[tmp := bytes];
      if io.RenameFault? {
        return Err(Io(io.msg));
      }
      assert files - {tmp} == before - {tmp};
      files := (files - {tmp})[finalPath := bytes];
      r := Ok(hash);
    }
  }
}
