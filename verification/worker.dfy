/** The background worker: one poll of the queue, the processing of one
    message, and the loop around them. */
module Worker {
  import opened Wrappers
  import opened Bytes
  import Json
  import Vision
  import Analysis
  import QueueMessage
  import Base64
  import Utf8
  import opened Storage

  /** Why `ProcessMessageAsync` throws. */
  datatype Fault =
    | NotBase64                 // Convert.FromBase64String
    | NotJson                   // JsonDocument.Parse
    | RootNotObject             // TryGetProperty on a non-object root
    | BlobNameNotString         // GetString on a number, boolean, array or object,
                                // or on a string with an unpaired surrogate
    | NullBlobName              // GetBlobClient(null)
    | StorageUnavailable        // container creation, ExistsAsync or the download
    | AnalysisFailed            // the image-analysis call
    | MetadataUploadFailed      // the metadata upload
    | DeleteFailed              // DeleteMessageAsync, after a normal return

  /** How a normal return of `ProcessMessageAsync` came about. */
  datatype Handled = Saved | NoBlobName | BlobNotFound

  datatype Outcome = Returned(stores: Stores, handled: Handled) | Threw(fault: Fault)

  /** Which collaborator calls fail during one iteration. */
  datatype Outages = Outages(receive: bool, storage: bool, metadataUpload: bool, delete: bool)

  const NoOutages := Outages(false, false, false, false)

  /** The image-analysis service: a response, or `None` when the call
      throws. */
  type Analyzer = seq<byte> -> Option<Vision.AnalysisResult>

  /** What the worker reads from the decoded document's `blobName`
      property: `TryGetProperty` then `GetString`. */
  datatype BlobNameRead = Named(name: string) | Absent | Unreadable(fault: Fault)

  function ReadBlobName(doc: Json.Json): (r: BlobNameRead)
    ensures r == Unreadable(RootNotObject) <==> !doc.Obj?
    ensures r.Absent? <==> doc.Obj? && Json.LastMember(doc.members, QueueMessage.BlobNameKey).None?
    ensures r == Unreadable(NullBlobName) <==>
      doc.Obj? && Json.LastMember(doc.members, QueueMessage.BlobNameKey) == Some(Json.Null)
    ensures r.Named? <==>
      doc.Obj? && Json.LastMember(doc.members, QueueMessage.BlobNameKey).Some?
      && Json.LastMember(doc.members, QueueMessage.BlobNameKey).value.Str?
    ensures r.Named? ==> Json.LastMember(doc.members, QueueMessage.BlobNameKey) == Some(Json.Str(r.name))
  {
    match Json.GetProperty(doc, QueueMessage.BlobNameKey)
    case Failure(_) => Unreadable(RootNotObject)
    case Success(None) => Absent
    case Success(Some(el)) =>
      match Json.GetString(el)
      case Failure(_) => Unreadable(BlobNameNotString)
      case Success(None) => Unreadable(NullBlobName)
      case Success(Some(name)) => Named(name)
  }

  /** The name a message carries: it decodes to a document whose
      `blobName` reads as a string. Glue over `DecodeDocument` and
      `ReadBlobName`, whose contracts say what it means. */
  function MessageName(message: string): (r: Option<string>)
    ensures r.Some? <==>
      QueueMessage.DecodeDocument(message).Success? && ReadBlobName(QueueMessage.DecodeDocument(message).value).Named?
    ensures r.Some? ==> ReadBlobName(QueueMessage.DecodeDocument(message).value) == Named(r.value)
  {
    match QueueMessage.DecodeDocument(message)
    case Failure(_) => None
    case Success(doc) => if ReadBlobName(doc).Named? then Some(ReadBlobName(doc).name) else None
  }

  /** The metadata blob the worker writes for `name` from a response. */
  function Record(name: string, res: Vision.AnalysisResult): MetaBlob {
    Parsed(Analysis.RecordJson(Analysis.MapResult(name, res)))
  }

  /** `ProcessMessageAsync`: decode, read the name, look the image up,
      analyse it and save the record. A missing name and a missing image
      are normal returns that write nothing. A save writes exactly the
      record of the named image's analysis, at that image's key. */
  function Process(st: Stores, message: string, analyze: Analyzer, out: Outages): (r: Outcome)
    ensures r.Returned? ==> r.stores.images == st.images && r.stores.queue == st.queue
    ensures r.Returned? && r.handled != Saved ==> r.stores == st
    ensures r.Returned? && r.handled == Saved ==>
      && MessageName(message).Some?
      && var name := MessageName(message).value;
      && name in st.images && analyze(st.images[name].content).Some?
      && r.stores.metadata == st.metadata[MetadataKey(name) := Record(name, analyze(st.images[name].content).value)]
    ensures MessageName(message).Some? && !out.storage && MessageName(message).value !in st.images ==>
      r == Returned(st, BlobNotFound)
    ensures r.Threw? <==>
      || QueueMessage.DecodeDocument(message).Failure?
      || ReadBlobName(QueueMessage.DecodeDocument(message).value).Unreadable?
      || (MessageName(message).Some? && (out.storage || (MessageName(message).value in st.images
            && (analyze(st.images[MessageName(message).value].content).None? || out.metadataUpload))))
    ensures QueueMessage.DecodeDocument(message).Failure? ==>
      r == Threw(if QueueMessage.DecodeDocument(message).error.NotBase64? then NotBase64 else NotJson)
  {
    match QueueMessage.DecodeDocument(message)
    case Failure(e) => Threw(if e.NotBase64? then NotBase64 else NotJson)
    case Success(doc) =>
      match ReadBlobName(doc)
      case Unreadable(f) => Threw(f)
      case Absent => Returned(st, NoBlobName)
      case Named(name) =>
        if out.storage then Threw(StorageUnavailable)
        else if name !in st.images then Returned(st, BlobNotFound)
        else match analyze(st.images[name].content)
          case None => Threw(AnalysisFailed)
          case Some(res) =>
            if out.metadataUpload then Threw(MetadataUploadFailed)
            else Returned(Save(st, name, res), Saved)
  }

  /** The record for `name` written over whatever was there; every other
      metadata blob, the images and the queue stay as they were. */
  function Save(st: Stores, name: string, res: Vision.AnalysisResult): (r: Stores)
    ensures r.images == st.images && r.queue == st.queue
    ensures MetadataKey(name) in r.metadata && r.metadata[MetadataKey(name)] == Record(name, res)
    ensures r.metadata.Keys == st.metadata.Keys + {MetadataKey(name)}
    ensures forall k :: k in st.metadata && k != MetadataKey(name) ==> r.metadata[k] == st.metadata[k]
  {
    PutMetadata(st, name, Record(name, res))
  }

  /** A message is saved exactly when it carries the name of an existing
      image, the storage calls succeed and the analysis answers. */
  lemma SavedExactly(st: Stores, message: string, analyze: Analyzer, out: Outages)
    ensures var r := Process(st, message, analyze, out);
      (r.Returned? && r.handled == Saved) <==>
        && MessageName(message).Some?
        && !out.storage && !out.metadataUpload
        && MessageName(message).value in st.images
        && analyze(st.images[MessageName(message).value].content).Some?
  {
  }

  /** Only `blobName` is read: members of any other name, whatever their
      value, do not change what the worker reads. */
  lemma OtherMembersIgnored(ms: seq<(string, Json.Json)>, key: string, v: Json.Json)
    requires key != QueueMessage.BlobNameKey
    ensures ReadBlobName(Json.Obj(ms + [(key, v)])) == ReadBlobName(Json.Obj(ms))
  {
    var ms' := ms + [(key, v)];
    assert ms'[..|ms'| - 1] == ms;
  }

  /** A document with an unpaired surrogate in a member other than
      `blobName` still yields its name. */
  lemma UnpairedMemberNamed(text: string)
    requires text == "{\"blobName\":\"a.png\",\"x\":\"\\uD800\"}"
    ensures Json.Parse(text).Some? && ReadBlobName(Json.Parse(text).value) == Named("a.png")
  {
    Json.UnpairedMemberDocument(text);
    var ms := [(QueueMessage.BlobNameKey, Json.Str("a.png"))];
    OtherMembersIgnored(ms, "x", Json.Unpaired);
    assert ms + [("x", Json.Unpaired)] == [("blobName", Json.Str("a.png")), ("x", Json.Unpaired)];
    ReadSingleName("a.png");
  }

  /** What one iteration of the loop did. */
  datatype Event = Idle | Deleted(handled: Handled) | Kept(fault: Fault)

  /** One iteration of `ExecuteAsync`'s loop after a successful receive:
      idle on an empty queue, otherwise process the head message and delete
      it only if processing returned and the delete succeeded. A message
      that is not deleted becomes visible again later, modelled as moving
      it to the back of the queue. */
  function Iterate(st: Stores, analyze: Analyzer, out: Outages): (r: (Stores, Event))
    requires !out.receive
    ensures |st.queue| == 0 <==> r.1 == Idle
    ensures r.1 == Idle ==> r.0 == st
    ensures r.1.Deleted? ==> r.0.queue == st.queue[1..]
    ensures r.1.Kept? ==> r.0.queue == st.queue[1..] + [st.queue[0]]
    ensures r.0.images == st.images
    ensures |st.queue| > 0 ==>
      var o := Process(st, st.queue[0], analyze, out);
      && r.0.metadata == (if o.Returned? then o.stores.metadata else st.metadata)
      && (r.1.Deleted? ==> o.Returned? && r.1.handled == o.handled)
  {
    if |st.queue| == 0 then (st, Idle)
    else
      var m := st.queue[0];
      match Process(st, m, analyze, out)
      case Threw(f) => (st.(queue := st.queue[1..] + [m]), Kept(f))
      case Returned(st', h) =>
        if out.delete then (st'.(queue := st'.queue[1..] + [m]), Kept(DeleteFailed))
        else (st'.(queue := st'.queue[1..]), Deleted(h))
  }

  /** A claimed message is deleted exactly when processing returns
      normally and the delete call succeeds. */
  lemma DeletedIff(st: Stores, analyze: Analyzer, out: Outages)
    requires !out.receive && |st.queue| > 0
    ensures Iterate(st, analyze, out).1.Deleted? <==>
      Process(st, st.queue[0], analyze, out).Returned? && !out.delete
  {
  }

  /** No message is lost: an iteration removes at most the message it
      deleted, and keeps every other one. */
  lemma NoMessageLost(st: Stores, analyze: Analyzer, out: Outages)
    requires !out.receive
    ensures var r := Iterate(st, analyze, out);
      if r.1.Deleted? then multiset(r.0.queue) + multiset{st.queue[0]} == multiset(st.queue)
      else multiset(r.0.queue) == multiset(st.queue)
  {
    if |st.queue| > 0 {
      assert st.queue == [st.queue[0]] + st.queue[1..];
    }
  }

  /** A thrown exception leaves the stores as they were, apart from the
      message's place in the queue. */
  lemma ThrownChangesNothing(st: Stores, analyze: Analyzer, out: Outages)
    requires !out.receive && |st.queue| > 0
    requires Process(st, st.queue[0], analyze, out).Threw?
    ensures var r := Iterate(st, analyze, out);
      r.0.images == st.images && r.0.metadata == st.metadata && r.1.Kept?
  {
  }

  /** A message without `blobName` is deleted and writes nothing. */
  lemma NoBlobNameDeleted(st: Stores, analyze: Analyzer, out: Outages)
    requires !out.receive && !out.delete && |st.queue| > 0
    requires QueueMessage.DecodeDocument(st.queue[0]).Success?
    requires var doc := QueueMessage.DecodeDocument(st.queue[0]).value;
      doc.Obj? && Json.LastMember(doc.members, QueueMessage.BlobNameKey).None?
    ensures var r := Iterate(st, analyze, out);
      r.1 == Deleted(NoBlobName) && r.0 == st.(queue := st.queue[1..])
  {
  }

  /** A message that is not base64, or whose text is not JSON, throws
      before anything is written, and is kept for another try. */
  lemma UndecodableKept(st: Stores, analyze: Analyzer, out: Outages)
    requires !out.receive
    ensures |st.queue| > 0 && QueueMessage.DecodeDocument(st.queue[0]).Failure? ==>
      Iterate(st, analyze, out) == (st.(queue := st.queue[1..] + [st.queue[0]]),
        Kept(if QueueMessage.DecodeDocument(st.queue[0]).error.NotBase64? then NotBase64 else NotJson))
  {
  }

  /** Any message naming an image that does not exist is deleted and
      writes nothing, whatever else its document holds. */
  lemma NamedMissingImageDeleted(st: Stores, analyze: Analyzer, out: Outages)
    requires !out.receive && !out.storage && !out.delete
    ensures |st.queue| > 0 && MessageName(st.queue[0]).Some? && MessageName(st.queue[0]).value !in st.images ==>
      Iterate(st, analyze, out) == (st.(queue := st.queue[1..]), Deleted(BlobNotFound))
  {
  }

  /** The worker reads back the name the producer encoded. */
  lemma ReadEncodedName(name: string)
    ensures QueueMessage.DecodeDocument(QueueMessage.Encode(name)).Success?
    ensures ReadBlobName(QueueMessage.DecodeDocument(QueueMessage.Encode(name)).value) == Named(name)
    ensures MessageName(QueueMessage.Encode(name)) == Some(name)
  {
    QueueMessage.DecodeEncode(name);
    ReadSingleName(name);
  }

  lemma ReadSingleName(name: string)
    ensures ReadBlobName(Json.Obj([(QueueMessage.BlobNameKey, Json.Str(name))])) == Named(name)
  {
    var ms := [(QueueMessage.BlobNameKey, Json.Str(name))];
    assert Json.LastMember(ms, QueueMessage.BlobNameKey) == Some(Json.Str(name));
  }

  lemma ProcessEncodedName(st: Stores, name: string, analyze: Analyzer, out: Outages)
    requires !out.storage
    ensures name !in st.images ==>
      Process(st, QueueMessage.Encode(name), analyze, out) == Returned(st, BlobNotFound)
    ensures name in st.images && !out.metadataUpload && analyze(st.images[name].content).Some? ==>
      Process(st, QueueMessage.Encode(name), analyze, out)
        == Returned(Save(st, name, analyze(st.images[name].content).value), Saved)
  {
    ReadEncodedName(name);
  }

  /** A message naming an image that does not exist is deleted and writes
      nothing. The queue holds the producer's message for `name`, then
      `rest`. */
  lemma MissingImageDeleted(images: map<string, Image>, metadata: map<string, MetaBlob>, rest: seq<string>,
                            name: string, analyze: Analyzer, out: Outages)
    requires !out.receive && !out.storage && !out.delete
    requires name !in images
    ensures var st := Stores(images, metadata, [QueueMessage.Encode(name)] + rest);
      var r := Iterate(st, analyze, out);
      r.1 == Deleted(BlobNotFound) && r.0 == Stores(images, metadata, rest)
  {
    var st := Stores(images, metadata, [QueueMessage.Encode(name)] + rest);
    ProcessEncodedName(st, name, analyze, out);
    assert st.queue[1..] == rest;
  }

  /** The producer's message for an existing image, with every call
      succeeding, stores exactly one record, at the image's metadata key,
      and is deleted. */
  lemma ProducerMessageSaved(images: map<string, Image>, metadata: map<string, MetaBlob>, rest: seq<string>,
                             name: string, analyze: Analyzer, res: Vision.AnalysisResult)
    requires name in images && analyze(images[name].content) == Some(res)
    ensures var st := Stores(images, metadata, [QueueMessage.Encode(name)] + rest);
      var r := Iterate(st, analyze, NoOutages);
      && r.1 == Deleted(Saved)
      && r.0 == Stores(images, metadata[MetadataKey(name) := Parsed(Analysis.RecordJson(Analysis.MapResult(name, res)))], rest)
  {
    var st := Stores(images, metadata, [QueueMessage.Encode(name)] + rest);
    ProcessEncodedName(st, name, analyze, NoOutages);
    assert st.queue[1..] == rest;
  }

  /** Processing a message a second time, with the same response, leaves
      the stores as the first time left them. */
  lemma ProcessIdempotent(st: Stores, message: string, analyze: Analyzer, out: Outages)
    ensures var r := Process(st, message, analyze, out);
      r.Returned? ==> Process(r.stores, message, analyze, out) == r
  {
    var r := Process(st, message, analyze, out);
    if r.Returned? && r.handled == Saved {
      var doc := QueueMessage.DecodeDocument(message).value;
      var name := ReadBlobName(doc).name;
      var res := analyze(st.images[name].content).value;
      PutMetadataIdempotent(st, name, Record(name, res));
    }
  }

  /** A second run for the same image leaves exactly what the second run
      alone would have written: the first record is overwritten, not kept
      alongside. */
  lemma SecondRunOverwrites(st: Stores, name: string, first: Analyzer, second: Analyzer, res1: Vision.AnalysisResult, res2: Vision.AnalysisResult)
    requires name in st.images
    requires first(st.images[name].content) == Some(res1) && second(st.images[name].content) == Some(res2)
    ensures Process(st, QueueMessage.Encode(name), first, NoOutages) == Returned(Save(st, name, res1), Saved)
    ensures Process(Save(st, name, res1), QueueMessage.Encode(name), second, NoOutages) == Returned(Save(st, name, res2), Saved)
  {
    ProcessEncodedName(st, name, first, NoOutages);
    var st1 := Save(st, name, res1);
    ProcessEncodedName(st1, name, second, NoOutages);
    PutMetadataTwice(st, name, Record(name, res1), Record(name, res2));
  }

  /** The message carrying that document names the image too. */
  lemma UnpairedMessageNamed(text: string)
    requires text == "{\"blobName\":\"a.png\",\"x\":\"\\uD800\"}"
    ensures MessageName(Base64.Encode(Utf8.Encode(text))) == Some("a.png")
  {
    UnpairedMemberNamed(text);
    QueueMessage.DecodeText(text);
  }

  /** So that message is processed like any other: with the image there
      and every call succeeding, its record is saved. */
  lemma UnpairedMessageSaved(st: Stores, text: string, analyze: Analyzer, res: Vision.AnalysisResult)
    requires text == "{\"blobName\":\"a.png\",\"x\":\"\\uD800\"}"
    requires "a.png" in st.images && analyze(st.images["a.png"].content) == Some(res)
    ensures Process(st, Base64.Encode(Utf8.Encode(text)), analyze, NoOutages) == Returned(Save(st, "a.png", res), Saved)
  {
    UnpairedMessageNamed(text);
  }

  /** One tick of the host: whether cancellation was requested before the
      loop condition was checked, and which calls fail. */
  datatype Tick = Tick(cancelled: bool, out: Outages)

  /** Why the loop ended; `Running` when the ticks ran out first. */
  datatype Stop = Cancelled | PollFailed | Running

  /** `ExecuteAsync`'s loop over a finite run of ticks. A failed receive
      happens outside the try block and ends the loop. */
  function Run(st: Stores, analyze: Analyzer, ticks: seq<Tick>): (r: (Stores, Stop))
    decreases |ticks|
    ensures r.0.images == st.images
    ensures multiset(r.0.queue) <= multiset(st.queue)
  {
    if |ticks| == 0 then (st, Running)
    else if ticks[0].cancelled then (st, Cancelled)
    else if ticks[0].out.receive then (st, PollFailed)
    else
      NoMessageLost(st, analyze, ticks[0].out);
      Run(Iterate(st, analyze, ticks[0].out).0, analyze, ticks[1..])
  }

  /** Failures while processing never end the loop: it ends only when
      cancellation is requested or a receive fails. */
  lemma {:induction false} RunStopsOnlyWhenAsked(st: Stores, analyze: Analyzer, ticks: seq<Tick>)
    decreases |ticks|
    ensures Run(st, analyze, ticks).1 == Cancelled ==> exists i :: 0 <= i < |ticks| && ticks[i].cancelled
    ensures Run(st, analyze, ticks).1 == PollFailed ==> exists i :: 0 <= i < |ticks| && ticks[i].out.receive
    ensures (forall i :: 0 <= i < |ticks| ==> !ticks[i].cancelled && !ticks[i].out.receive) ==>
      Run(st, analyze, ticks).1 == Running
  {
    if |ticks| > 0 && !ticks[0].cancelled && !ticks[0].out.receive {
      var st' := Iterate(st, analyze, ticks[0].out).0;
      RunStopsOnlyWhenAsked(st', analyze, ticks[1..]);
      var r := Run(st', analyze, ticks[1..]);
      if r.1 == Cancelled {
        var i :| 0 <= i < |ticks[1..]| && ticks[1..][i].cancelled;
        assert ticks[i + 1].cancelled;
      }
      if r.1 == PollFailed {
        var i :| 0 <= i < |ticks[1..]| && ticks[1..][i].out.receive;
        assert ticks[i + 1].out.receive;
      }
    }
  }

  /** An empty queue stays untouched for as long as the loop runs. */
  lemma {:induction false} RunOnEmptyQueue(st: Stores, analyze: Analyzer, ticks: seq<Tick>)
    requires |st.queue| == 0
    ensures Run(st, analyze, ticks).0 == st
    decreases |ticks|
  {
    if |ticks| > 0 && !ticks[0].cancelled && !ticks[0].out.receive {
      RunOnEmptyQueue(st, analyze, ticks[1..]);
    }
  }
}
