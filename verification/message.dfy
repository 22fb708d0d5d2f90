/** The queue message that tells the worker which image to analyse: the
    base64 text of the UTF-8 bytes of the JSON object `{"blobName": name}`. */
module QueueMessage {
  import opened Wrappers
  import Base64
  import Utf8
  import Json

  /** The property that carries the blob's name. */
  const BlobNameKey: string := "blobName"

  /** The JSON text `JsonSerializer.Serialize(new { blobName })` writes. */
  function Payload(name: string): string {
    Json.SingleMemberObject(BlobNameKey, name)
  }

  /** `EnqueueMessageAsync`'s message text for `name`. */
  function Encode(name: string): (m: string)
    ensures Base64.Canonical(m)
    ensures Base64.Decode(m) == Some(Utf8.Encode(Payload(name)))
  {
    var bytes := Utf8.Encode(Payload(name));
    Base64.EncodeCanonical(bytes);
    Base64.DecodeEncode(bytes);
    Base64.Encode(bytes)
  }

  datatype DecodeError = NotBase64 | NotJson

  /** The worker's first two steps: `Convert.FromBase64String`, then
      `Encoding.UTF8.GetString` and `JsonDocument.Parse`. Both the base64
      and the JSON step can fail; the UTF-8 step cannot. */
  function DecodeDocument(m: string): (r: Result<Json.Json, DecodeError>)
    ensures r == Failure(NotBase64) <==> Base64.Decode(m).None?
    ensures r.Success? ==> Json.Parse(Utf8.Decode(Base64.Decode(m).value)) == Some(r.value)
    ensures Base64.Decode(m).Some? ==> (r.Success? <==> Json.Parse(Utf8.Decode(Base64.Decode(m).value)).Some?)
  {
    match Base64.Decode(m)
    case None => Failure(NotBase64)
    case Some(bytes) =>
      match Json.Parse(Utf8.Decode(bytes))
      case None => Failure(NotJson)
      case Some(doc) => Success(doc)
  }

  /** What the worker decodes from a message the producer wrote is the
      one-member object naming the blob. */
  lemma DecodeEncode(name: string)
    ensures DecodeDocument(Encode(name)) == Success(Json.Obj([(BlobNameKey, Json.Str(name))]))
  {
    Utf8.DecodeEncode(Payload(name));
    Json.ParseSingleMemberObject(BlobNameKey, name);
  }

  /** A message carrying any JSON text decodes to what `JsonDocument.Parse`
      makes of that text, whoever wrote it. */
  lemma DecodeText(text: string)
    ensures var r := DecodeDocument(Base64.Encode(Utf8.Encode(text)));
      (r.Success? <==> Json.Parse(text).Some?) && (r.Success? ==> Json.Parse(text) == Some(r.value))
  {
    Base64.DecodeEncode(Utf8.Encode(text));
    Utf8.DecodeEncode(text);
  }

  /** Different names give different messages. */
  lemma EncodeInjective(a: string, b: string)
    requires a != b
    ensures Encode(a) != Encode(b)
  {
    DecodeEncode(a);
    DecodeEncode(b);
    var ja, jb := Json.Obj([(BlobNameKey, Json.Str(a))]), Json.Obj([(BlobNameKey, Json.Str(b))]);
    assert ja.members[0].1.text == a && jb.members[0].1.text == b;
  }
}
