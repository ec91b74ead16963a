/** Values shared by every part of the registry model. */
module Types {

  datatype Option<+T> = None | Some(value: T)

  datatype Algorithm = Sha256 | Sha512

  /** A content digest: the hash algorithm and the encoded hash. */
  datatype Digest = Digest(algorithm: Algorithm, encoded: string)

  type Tag = string

  datatype MediaType =
    | DockerIndex
    | OciIndex
    | DockerImage
    | OciImage
    | ForeignLayer(name: string)
    | OtherType(name: string)

  predicate MediaTypeIndex(mt: MediaType) {
    mt.DockerIndex? || mt.OciIndex?
  }

  predicate MediaTypeImage(mt: MediaType) {
    mt.DockerImage? || mt.OciImage?
  }

  /** The media type that a name stands for. */
  function MediaTypeOf(name: string): MediaType {
    if name == "application/vnd.docker.distribution.manifest.list.v2+json" then DockerIndex
    else if name == "application/vnd.oci.image.index.v1+json" then OciIndex
    else if name == "application/vnd.docker.distribution.manifest.v2+json" then DockerImage
    else if name == "application/vnd.oci.image.manifest.v1+json" then OciImage
    else if ForeignName(name) then ForeignLayer(name)
    else OtherType(name)
  }

  predicate ForeignName(name: string) {
    || name == "application/vnd.docker.image.rootfs.foreign.diff.tar.gzip"
    || name == "application/vnd.oci.image.layer.nondistributable.v1.tar"
    || name == "application/vnd.oci.image.layer.nondistributable.v1.tar+gzip"
    || name == "application/vnd.oci.image.layer.nondistributable.v1.tar+zstd"
  }

  function MediaTypeName(mt: MediaType): string {
    match mt
    case DockerIndex => "application/vnd.docker.distribution.manifest.list.v2+json"
    case OciIndex => "application/vnd.oci.image.index.v1+json"
    case DockerImage => "application/vnd.docker.distribution.manifest.v2+json"
    case OciImage => "application/vnd.oci.image.manifest.v1+json"
    case ForeignLayer(name) => name
    case OtherType(name) => name
  }

  /** Every name is read and written back unchanged, and it is read as an index, an image or a foreign layer exactly
      when it is one of the names of those. */
  lemma NameRoundTrip(name: string)
    ensures MediaTypeName(MediaTypeOf(name)) == name
    ensures MediaTypeIndex(MediaTypeOf(name)) <==>
            name == "application/vnd.docker.distribution.manifest.list.v2+json" ||
            name == "application/vnd.oci.image.index.v1+json"
    ensures MediaTypeImage(MediaTypeOf(name)) <==>
            name == "application/vnd.docker.distribution.manifest.v2+json" ||
            name == "application/vnd.oci.image.manifest.v1+json"
    ensures MediaTypeOf(name).ForeignLayer? <==> ForeignName(name)
  {
    assert "application/vnd.docker.distribution.manifest.list.v2+json"[36] == 'm';
    assert "application/vnd.docker.distribution.manifest.list.v2+json"[45] == 'l';
    assert "application/vnd.docker.distribution.manifest.v2+json"[45] == 'v';
    assert "application/vnd.oci.image.index.v1+json"[26] == 'i';
    assert "application/vnd.oci.image.manifest.v1+json"[26] == 'm';
  }

  /** A creation annotation: an instant, counted from the zero time, or a text that is not a time. */
  datatype Created = At(time: int) | NotATime(text: string)

  /** A descriptor with its annotations. The three annotations the registry itself reads are fields of
      their own: `created`, `tag` (the reference name) and `subject` (set on a referrers response). An
      absent annotation is None; `other` holds every remaining annotation. */
  datatype Descriptor = Descriptor(
    mediaType: MediaType,
    digest: Digest,
    size: nat,
    artifactType: string,
    urls: seq<string>,
    created: Option<Created>,
    tag: Option<Tag>,
    subject: Option<Digest>,
    other: map<string, string>)

  /** What an image manifest refers to. */
  datatype Image = Image(config: Descriptor, layers: seq<Descriptor>)

  /** What a manifest that names a subject says about itself, with its annotations split as in a descriptor. */
  datatype Referrer = Referrer(
    subject: Digest,
    artifactType: string,
    created: Option<Created>,
    tag: Option<Tag>,
    answered: Option<Digest>,
    other: map<string, string>)

  /** A stored blob: when it was stored, its size, and what it decodes to when read as an index, as an image
      and as a manifest with a subject. None is a decoding error, or no subject. */
  datatype Blob = Blob(
    mod: int,
    size: nat,
    asIndex: Option<seq<Descriptor>>,
    asImage: Option<Image>,
    referrer: Option<Referrer>)

  /* ---------- Sequences ---------- */

  predicate NoRepeats<T(==)>(s: seq<T>) {
    forall i, j | 0 <= i < j < |s| :: s[i] != s[j]
  }

  ghost predicate Enumerates<T(!new)>(s: seq<T>, all: set<T>) {
    forall x :: x in s <==> x in all
  }

  /* ---------- Kinds ---------- */

  /** How the content graph uses a digest: as a manifest of one media type, or as a config or layer. */
  datatype Kind = ManifestKind(mediaType: MediaType) | LeafKind

  predicate NamedManifest(kinds: map<Digest, Kind>, d: Descriptor) {
    d.digest in kinds && kinds[d.digest] == ManifestKind(d.mediaType)
  }

  predicate NamedLeaf(kinds: map<Digest, Kind>, d: Descriptor) {
    d.digest in kinds && kinds[d.digest] == LeafKind
  }

  ghost predicate AllNamed(kinds: map<Digest, Kind>, ds: seq<Descriptor>) {
    forall d | d in ds :: NamedManifest(kinds, d)
  }

  predicate KindIndex(kinds: map<Digest, Kind>, g: Digest) {
    g in kinds && kinds[g].ManifestKind? && MediaTypeIndex(kinds[g].mediaType)
  }

  predicate KindImage(kinds: map<Digest, Kind>, g: Digest) {
    g in kinds && kinds[g].ManifestKind? && MediaTypeImage(kinds[g].mediaType)
  }

  /** Consistent kinds: every descriptor of the list, and every descriptor in a stored index or image, uses its
      digest the same way. A blob that is not used as an index or image may hold any bytes. */
  ghost predicate ConsistentKinds(kinds: map<Digest, Kind>, blobs: map<Digest, Blob>, manifests: seq<Descriptor>) {
    && AllNamed(kinds, manifests)
    && (forall g, d | g in blobs && KindIndex(kinds, g) && blobs[g].asIndex.Some? && d in blobs[g].asIndex.value ::
          NamedManifest(kinds, d))
    && (forall g | g in blobs && KindImage(kinds, g) && blobs[g].asImage.Some? ::
          NamedLeaf(kinds, blobs[g].asImage.value.config))
    && (forall g, d | g in blobs && KindImage(kinds, g) && blobs[g].asImage.Some? &&
                      d in blobs[g].asImage.value.layers ::
          NamedLeaf(kinds, d))
  }
}
