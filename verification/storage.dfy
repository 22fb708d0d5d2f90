/** The state the web application and the worker share: the images
    container, the metadata container and the queue. */
module Storage {
  import opened Bytes
  import opened Wrappers
  import Json
  import QueueMessage

  /** An image blob with its content type and the creation time the
      storage service reports, which may be missing. */
  datatype Image = Image(content: seq<byte>, contentType: string, createdOn: Option<int>)

  /** A metadata blob: its text either parses as a JSON document, or does
      not. */
  datatype MetaBlob = Parsed(doc: Json.Json) | Malformed

  datatype Stores = Stores(images: map<string, Image>, metadata: map<string, MetaBlob>, queue: seq<string>)

  /** Where an image's metadata lives in the metadata container. */
  function MetadataKey(name: string): (k: string)
    ensures |k| == |name| + 5 && k[..|name|] == name
  {
    name + ".json"
  }

  /** Distinct images never share a metadata blob. */
  lemma MetadataKeyInjective(a: string, b: string)
    requires MetadataKey(a) == MetadataKey(b)
    ensures a == b
  {
    assert a == MetadataKey(a)[..|a|];
  }

  /** `UploadFileAsync`: stores the bytes under the given name, replacing
      any blob of that name, and returns the name. `now` is the creation
      time the service records. */
  function UploadFile(st: Stores, name: string, content: seq<byte>, contentType: string, now: int): (r: (Stores, string))
    ensures r.1 == name
    ensures name in r.0.images && r.0.images[name] == Image(content, contentType, Some(now))
    ensures forall n :: n != name ==> (n in r.0.images <==> n in st.images)
    ensures forall n :: n != name && n in st.images ==> r.0.images[n] == st.images[n]
    ensures r.0.metadata == st.metadata && r.0.queue == st.queue
  {
    (st.(images := st.images[name := Image(content, contentType, Some(now))]), name)
  }

  /** `EnqueueMessageAsync`: appends the encoded message for `blobName`. */
  function EnqueueMessage(st: Stores, blobName: string): (r: Stores)
    ensures r.queue == st.queue + [QueueMessage.Encode(blobName)]
    ensures r.images == st.images && r.metadata == st.metadata
  {
    st.(queue := st.queue + [QueueMessage.Encode(blobName)])
  }

  /** An upload with `overwrite: true` of the metadata blob for `blobName`. */
  function PutMetadata(st: Stores, blobName: string, blob: MetaBlob): (r: Stores)
    ensures MetadataKey(blobName) in r.metadata && r.metadata[MetadataKey(blobName)] == blob
    ensures forall k :: k != MetadataKey(blobName) ==> (k in r.metadata <==> k in st.metadata)
    ensures forall k :: k != MetadataKey(blobName) && k in st.metadata ==> r.metadata[k] == st.metadata[k]
    ensures r.images == st.images && r.queue == st.queue
  {
    st.(metadata := st.metadata[MetadataKey(blobName) := blob])
  }

  /** Writing twice at one name leaves only the second write. */
  lemma PutMetadataTwice(st: Stores, blobName: string, first: MetaBlob, second: MetaBlob)
    ensures PutMetadata(PutMetadata(st, blobName, first), blobName, second) == PutMetadata(st, blobName, second)
  {
  }

  /** Writing the same blob again changes nothing. */
  lemma PutMetadataIdempotent(st: Stores, blobName: string, blob: MetaBlob)
    ensures PutMetadata(PutMetadata(st, blobName, blob), blobName, blob) == PutMetadata(st, blobName, blob)
  {
  }
}
