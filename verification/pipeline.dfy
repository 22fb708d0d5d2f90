/** The whole path of one image: the web action stores and queues it, the
    worker analyses it, and the listing shows the result. */
module Pipeline {
  import opened Wrappers
  import Vision
  import Analysis
  import QueueMessage
  import opened Storage
  import Worker
  import Listing
  import Controller

  /** The listing reads metadata at the very key the worker writes. */
  lemma ListingSeesWorkerWrite(st: Stores, name: string, blob: MetaBlob)
    ensures Listing.MetadataOf(PutMetadata(st, name, blob).metadata, name) == Some(blob)
  {
  }

  /** After an upload into an idle system and one successful worker
      iteration, the queue is empty again and the listing shows the image
      as analysed, with the caption as its description and its upload time.
      `blobs` is any listing of the images container. */
  lemma UploadAnalyseList(
    st: Stores, file: Controller.FormFile, guid: Controller.Guid, now: int,
    analyze: Worker.Analyzer, res: Vision.AnalysisResult,
    blobs: seq<Listing.BlobEntry>, listedAt: int, urlOf: Listing.UrlOf)
    requires st.queue == []
    requires analyze(file.content) == Some(res)
    requires var name := Controller.BlobName(guid, file.fileName);
      Listing.Enumerates(blobs, st.images[name := Image(file.content, file.contentType, Some(now))])
    ensures var name := Controller.BlobName(guid, file.fileName);
      var up := Controller.Upload(st, Controller.UploadDto(Some(file)), guid, now, Controller.WebOutages(false, false));
      var step := Worker.Iterate(up.stores, analyze, Worker.NoOutages);
      && up.Redirected?
      && step.1 == Worker.Deleted(Worker.Saved)
      && step.0.queue == []
      && Listing.ImageItem(name, urlOf(name), true, if res.caption.Some? then Some(res.caption.value.text) else None, now)
         in Listing.ListImages(blobs, step.0.metadata, None, listedAt, urlOf)
  {
    var name := Controller.BlobName(guid, file.fileName);
    Controller.UploadStoresAndQueues(st, file, guid, now);
    var up := Controller.Upload(st, Controller.UploadDto(Some(file)), guid, now, Controller.WebOutages(false, false));
    var st1 := up.stores;
    assert st1 == Stores(st1.images, st1.metadata, [QueueMessage.Encode(name)] + []);
    Worker.ProducerMessageSaved(st1.images, st1.metadata, [], name, analyze, res);
    var st2 := Worker.Iterate(st1, analyze, Worker.NoOutages).0;
    var rec := Analysis.MapResult(name, res);
    assert Listing.MetadataOf(st2.metadata, name) == Some(Parsed(Analysis.RecordJson(rec)));
    Listing.ReadStoredRecord(rec);
    var i :| 0 <= i < |blobs| && blobs[i].name == name;
    assert blobs[i].createdOn == Some(now);
    Listing.ListedItems(blobs, st2.metadata, None, listedAt, urlOf);
    assert Listing.ItemOf(blobs[i], st2.metadata, listedAt, urlOf)
      == Listing.ImageItem(name, urlOf(name), true, rec.description, now);
  }
}
