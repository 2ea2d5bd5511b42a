/** Contents of files and their digests. SHA-256 is a free constructor: equal
    digests mean equal bytes, and nothing else is known of a digest. No
    operation of the model looks inside one. */
module Content {
  import opened Utf8

  type Path = string
  type Text = string
  datatype Option<+T> = None | Some(value: T)

  datatype Digest = Sha256(preimage: Bytes)

  function Sha(bytes: Bytes): Digest {
    Sha256(bytes)
  }

  function ShaText(text: Text): Digest {
    Sha(Encode(text))
  }

  /** Permission bits below 0o10000. */
  type Mode = m: int | 0 <= m < 4096

  datatype File = File(bytes: Bytes, mode: Mode)

  type Disk = map<Path, File>

  function FileAt(disk: Disk, path: Path): Option<File> {
    if path in disk then Some(disk[path]) else None
  }

  function DigestAt(disk: Disk, path: Path): Option<Digest> {
    if path in disk then Some(Sha(disk[path].bytes)) else None
  }

  const BINARY_PROBE_BYTES := 8192

  function Min(a: int, b: int): int {
    if a < b then a else b
  }

  predicate LooksBinary(bytes: Bytes) {
    exists i :: 0 <= i < Min(|bytes|, BINARY_PROBE_BYTES) && bytes[i] == 0
  }

  method DetectBinary(bytes: Bytes) returns (binary: bool)
    ensures binary <==> LooksBinary(bytes)
  {
    var limit := Min(|bytes|, BINARY_PROBE_BYTES);
    var i := 0;
    while i < limit
      invariant 0 <= i <= limit
      invariant forall k :: 0 <= k < i ==> bytes[k] != 0
    {
      if bytes[i] == 0 {
        return true;
      }
      i := i + 1;
    }
    return false;
  }

  lemma ShaTextInjective(a: Text, b: Text)
    requires ShaText(a) == ShaText(b)
    ensures a == b
  {
    EncodeInjective(a, b);
  }
}
