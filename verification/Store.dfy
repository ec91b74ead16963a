/** One repository: its blob store and its index. */
module Store {
  import opened Types
  import opened Layout

  datatype Repository = Repository(blobs: map<Digest, Blob>, index: Index)

  /** Stores a blob unless one is already stored under the digest. */
  function StoreBlob(blobs: map<Digest, Blob>, g: Digest, b: Blob): map<Digest, Blob> {
    if g in blobs then blobs else blobs[g := b]
  }

  /** The content-addressed blobs of one repository. */
  class BlobStore {
    var blobs: map<Digest, Blob>

    constructor ()
      ensures blobs == map[]
    {
      blobs := map[];
    }

    method Create(g: Digest, b: Blob)
      modifies this
      ensures blobs == StoreBlob(old(blobs), g, b)
    {
      if g !in blobs {
        blobs := blobs[g := b];
      }
    }

    method Delete(g: Digest)
      modifies this
      ensures blobs == old(blobs) - {g}
    {
      blobs := blobs - {g};
    }
  }
}
