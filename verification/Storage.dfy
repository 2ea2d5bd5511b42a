/** The workspace disk and the content-addressed blob store
    (packages/change-service/src/blob-store.ts). */
module Storage {
  import opened Content
  import opened Utf8

  /** The files below the workspace root, one flat path namespace. */
  class FileSystem {
    var files: Disk

    constructor (files: Disk)
      ensures this.files == files
    {
      this.files := files;
    }
  }

  type Blobs = map<Digest, Bytes>

  function PutBlob(blobs: Blobs, bytes: Bytes): Blobs {
    if Sha(bytes) in blobs then blobs else blobs[Sha(bytes) := bytes]
  }

  function GetBlob(blobs: Blobs, digest: Digest): Option<Bytes> {
    if digest in blobs then Some(blobs[digest]) else None
  }

  class BlobStore {
    var blobs: Blobs

    constructor ()
      ensures blobs == map[]
    {
      blobs := map[];
    }

    method Put(content: Bytes) returns (hash: Digest, size: nat)
      modifies this
      ensures hash == Sha(content) && size == |content|
      ensures blobs == PutBlob(old(blobs), content)
    {
      hash, size := Sha(content), |content|;
      if hash in blobs {
        return; // dedup hit
      }
      blobs := blobs[hash := content];
    }

    method Get(hash: Digest) returns (content: Option<Bytes>)
      ensures content == GetBlob(blobs, hash)
    {
      if hash in blobs {
        content := Some(blobs[hash]);
      } else {
        content := None;
      }
    }
  }

  /** Every stored blob carries the bytes its name promises. */
  predicate Intact(blobs: Blobs) {
    forall digest <- blobs :: Sha(blobs[digest]) == digest
  }

  predicate Resolves(blobs: Blobs, digest: Option<Digest>) {
    digest.None? || digest.value in blobs
  }

  predicate Grows(before: Blobs, after: Blobs) {
    forall digest <- before :: digest in after && after[digest] == before[digest]
  }

  /** A put adds one resolvable name and changes what no other name resolves to. */
  lemma PutKeepsBlobs(blobs: Blobs, bytes: Bytes)
    ensures Grows(blobs, PutBlob(blobs, bytes))
    ensures Intact(blobs) ==> Intact(PutBlob(blobs, bytes)) && GetBlob(PutBlob(blobs, bytes), Sha(bytes)) == Some(bytes)
    ensures PutBlob(blobs, bytes).Keys == blobs.Keys + {Sha(bytes)}
  {
  }
}
