# ImageAnalyzerAI pipeline, modelled in Dafny

ImageAnalyzerAI is a web application with a background worker. Its
pipeline has three parts:

- **Upload.** The `Upload` action stores an uploaded picture in the images
  container under a fresh GUID-based name. It then puts a message naming
  that blob on a storage queue.
- **Worker.** The `QueueWorker` polls the queue and decodes each message.
  It has the image analysed by the vision service and writes the mapped
  result as a JSON record `{blob, description, tags, objects, text}` at
  `name + ".json"` in the metadata container. It deletes the message only
  when processing returned normally.
- **Listing.** The `Index` page lists the images through `ListImagesAsync`.
  The list is filtered by a case-insensitive search and marked analysed
  from the metadata. It is sorted newest first.

This project models that pipeline with the Azure services replaced by
immutable state (`Storage.Stores`: images, metadata, queue). Failures of
the services are passed in as flags, and the vision service as a function.
It proves the properties the code relies on.

Modules:

- `Wrappers`, `Bytes`: `Option`, `Result`, and bytes as `0..255`.
- `Base64`: section 4 of RFC 4648, as `Convert.ToBase64String` and
  `Convert.FromBase64String` apply it. It has both round trips and the
  length rule.
- `Utf8`: `Encoding.UTF8.GetBytes` and `GetString`. Decoding is total and
  replaces ill-formed input with U+FFFD.
- `Json`: RFC 8259 text as `System.Text.Json` reads and writes it:
  - the parser behind `JsonDocument.Parse`, with the default depth limit
    of 64;
  - `TryGetProperty`, where the last duplicate wins;
  - `GetString`, which refuses a string whose escapes leave a surrogate
    unpaired;
  - the default encoder's string escaping.
- `Decimal`: integer text, for bounding-box coordinates.
- `QueueMessage`: the queue message, which is base64 of the UTF-8 of
  `{"blobName":name}`.
- `Vision`: the parts of the analysis response the worker reads.
- `Analysis`: the mapping from the response to the record, and the
  record's JSON document.
- `Storage`: the shared state, `UploadFileAsync`, `EnqueueMessageAsync`
  and the overwriting metadata upload.
- `Worker`: `ProcessMessageAsync`, one iteration of `ExecuteAsync`'s loop,
  and the loop over a finite run of host ticks.
- `Listing`: `ListImagesAsync`.
- `Controller`: `HomeController.Upload`, including `Guid.ToString()` and
  `Path.GetExtension`, and `HomeController.Index`.
- `Pipeline`: upload, then one worker iteration, then the listing, end to
  end.

Paths below are relative to the repository root. `QueueWorker.cs` is
`ImageAnalyzerAI.WebJobV2/QueueWorker.cs`, `AzureStorageService.cs` is
`ImageAnalyzerAI.Web/Services/Implementation/AzureStorageService.cs`, and
`HomeController.cs` is `ImageAnalyzerAI.Web/Controllers/HomeController.cs`.

In the code, a message without `blobName` (QueueWorker.cs lines 65-69)
returns normally. So does a message naming an image that does not
exist (lines 82-86). Line 40 therefore deletes both messages; neither is
left for redelivery.

## Model

| member | source | states |
|---|---|---|
| QueueMessage.Encode | ImageAnalyzerAI.Web/Services/Implementation/AzureStorageService.cs:45-49 | The message is canonical base64, and it decodes to the UTF-8 bytes of the serializer's text `{"blobName":name}`. |
| QueueMessage.DecodeDocument | ImageAnalyzerAI.WebJobV2/QueueWorker.cs:62-63 | Fails as not-base64 exactly when `FromBase64String` fails. Otherwise it succeeds exactly when `JsonDocument.Parse` accepts the UTF-8 decoding of the bytes, and gives that parse. |
| QueueMessage.DecodeEncode | ImageAnalyzerAI.WebJobV2/QueueWorker.cs:62-63 | Decoding what `EnqueueMessageAsync` sends gives exactly the one-member object `{"blobName": name}`. |
| QueueMessage.DecodeText | ImageAnalyzerAI.WebJobV2/QueueWorker.cs:62-63 | A message carrying any JSON text, base64 of its UTF-8, decodes exactly when that text parses, to that parse. |
| QueueMessage.EncodeInjective | ImageAnalyzerAI.Web/Services/Implementation/AzureStorageService.cs:47-48 | Different blob names give different queue messages. |
| Base64.DecodeEncode | ImageAnalyzerAI.Web/Services/Implementation/AzureStorageService.cs:48 | `Base64.Decode` (`FromBase64String`) gives back every byte string `Base64.Encode` (`ToBase64String`) wrote. |
| Base64.EncodeDecode | ImageAnalyzerAI.WebJobV2/QueueWorker.cs:62 | A canonical string that `Base64.Decode` accepts is the `Base64.Encode` of what it decodes to. |
| Base64.EncodeCanonical | ImageAnalyzerAI.Web/Services/Implementation/AzureStorageService.cs:48 | The encoder's output has zero unused bits before its padding. |
| Base64.EncodeLength | ImageAnalyzerAI.Web/Services/Implementation/AzureStorageService.cs:48 | `Base64.Encode` turns every three bytes, and the one or two left over, into four characters. |
| Base64.DecodeLength | ImageAnalyzerAI.WebJobV2/QueueWorker.cs:62 | `Base64.Decode` accepts only text whose length is a multiple of four. |
| Utf8.DecodeEncode | ImageAnalyzerAI.WebJobV2/QueueWorker.cs:62 | `Utf8.Decode` (`GetString`) of `Utf8.Encode` (`GetBytes`) gives back every string of scalar values. |
| Utf8.EncodeAscii | ImageAnalyzerAI.Web/Services/Implementation/AzureStorageService.cs:48 | `Utf8.Encode` writes an ASCII string as one byte per character, each equal to the character's code. |
| Json.Parse | ImageAnalyzerAI.WebJobV2/QueueWorker.cs:63 | `JsonDocument.Parse` rejects empty text and text that is whitespace alone. |
| Json.ParseSkipsLeadingWhitespace | ImageAnalyzerAI.WebJobV2/QueueWorker.cs:63 | Whitespace before the value does not change what `Json.Parse` gives. |
| Json.ScanCoversParse | ImageAnalyzerAI.WebJobV2/QueueWorker.cs:63 | The reader's own check of a string, which does not pair surrogates, accepts every string the full parse reads and ends at the same closing quote. |
| Json.LoneSurrogate | ImageAnalyzerAI.WebJobV2/QueueWorker.cs:63 | A string holding the lone escape `\uD800` is accepted by the parse and read as a string `GetString` refuses. |
| Json.UnpairedMemberDocument | ImageAnalyzerAI.WebJobV2/QueueWorker.cs:63 | `{"blobName":"a.png","x":"\uD800"}` parses: the first member reads as usual and the second is a string with an unpaired surrogate. |
| Json.ParseSingleMemberObject | ImageAnalyzerAI.WebJobV2/QueueWorker.cs:63 | `JsonDocument.Parse` of the serializer's one-member object gives back that member, for every key and string value. |
| Json.ParseQuoted | ImageAnalyzerAI.WebJobV2/QueueWorker.cs:63 | A string escaped and quoted by the serializer parses back to the same string value, whatever text follows it. |
| Json.ParseEscapedChar | ImageAnalyzerAI.WebJobV2/QueueWorker.cs:63 | Each escaped character reads back as that character: a two-character escape, one `\u` escape, or a surrogate pair of escapes. |
| Json.GetProperty | ImageAnalyzerAI.WebJobV2/QueueWorker.cs:65 | Fails exactly on a non-object root. Otherwise it gives the last member of that name, or none when there is none. |
| Json.LastMember | ImageAnalyzerAI.WebJobV2/QueueWorker.cs:65 | None exactly when no member has the name. Otherwise the value of a member with that name after which no member has the name. |
| Json.GetString | ImageAnalyzerAI.WebJobV2/QueueWorker.cs:71 | Text for a string, null for a JSON null, and a failure exactly for every other kind of value and for a string with an unpaired surrogate. |
| Decimal.IntRoundTrip | ImageAnalyzerAI.WebJobV2/QueueWorker.cs:131 | The decimal text written for a bounding-box coordinate is integer text that reads back as the same integer. |
| Decimal.DigitsRoundTrip | ImageAnalyzerAI.WebJobV2/QueueWorker.cs:131 | The digits of a natural number read back as that number. |
| Analysis.MapResult | ImageAnalyzerAI.WebJobV2/QueueWorker.cs:101-129 | Record of a response: `blob` is the name; `description` is the caption text, or null exactly when there is no caption; `tags` are the tag names in order, or null exactly when there are no tags; `objects` has one entry per detected object, or is null; `text` is null exactly when there is no read result. |
| Analysis.TagNames | ImageAnalyzerAI.WebJobV2/QueueWorker.cs:103 | One name per tag, in the order returned. |
| Analysis.ObjectRecords | ImageAnalyzerAI.WebJobV2/QueueWorker.cs:108-113 | One record per detected object, in order. |
| Analysis.MappedObject | ImageAnalyzerAI.WebJobV2/QueueWorker.cs:108-113 | Each stored object keeps its box. Name and confidence come from its first tag, and both are null exactly when it has no tags. |
| Analysis.MappedText | ImageAnalyzerAI.WebJobV2/QueueWorker.cs:115-120 | The text is every line of every block joined by one space. Lines without spaces split back out of it. |
| Analysis.HelloWorld | ImageAnalyzerAI.WebJobV2/QueueWorker.cs:115-120 | Lines "HELLO" and "WORLD" give the text "HELLO WORLD". |
| Analysis.EmptyRead | ImageAnalyzerAI.WebJobV2/QueueWorker.cs:115-120 | A read result with no lines gives the empty text, not a null one. |
| Analysis.LinesAppend | ImageAnalyzerAI.WebJobV2/QueueWorker.cs:119 | Flattening blocks into lines distributes over concatenation. |
| Analysis.SplitJoin | ImageAnalyzerAI.WebJobV2/QueueWorker.cs:118-119 | `Analysis.JoinSpace` is `string.Join(" ", …)`: splitting a `string.Join(" ", …)` of space-free words at spaces gives back the words. |
| Analysis.JoinSpaceLength | ImageAnalyzerAI.WebJobV2/QueueWorker.cs:118-119 | An `Analysis.JoinSpace` join is as long as its words plus one separator between each two. |
| Analysis.RecordJson | ImageAnalyzerAI.WebJobV2/QueueWorker.cs:122-131 | The serialized record is an object with the members `blob`, `description`, `tags`, `objects` and `text`, in that order and each once. `blob` is the name, `tags` the array of tag names, `objects` the array of the objects' records in order, and `text` the joined text as a string. A field without a value is written as a JSON null, and only then. |
| Analysis.ObjectJson | ImageAnalyzerAI.WebJobV2/QueueWorker.cs:108-113 | One stored object has the members `Name`, `Confidence` and `BoundingBox`, in that order. `Name` is its name or null. `Confidence` is null exactly when the service gave none, and otherwise the service's number as it was written. `BoundingBox` is the box's record. |
| Analysis.BoxJson | ImageAnalyzerAI.WebJobV2/QueueWorker.cs:112 | A box has the members `X`, `Y`, `Width` and `Height`, in that order. Each is a number whose text reads back as that coordinate. |
| Analysis.ReadDescription | ImageAnalyzerAI.WebJobV2/QueueWorker.cs:122-131 | Reading `description` from the stored document gives the record's description: the caption text, or a JSON null. |
| Analysis.ReadBlob | ImageAnalyzerAI.WebJobV2/QueueWorker.cs:122-131 | Reading `blob` from the stored document gives the blob name. |
| Storage.MetadataKey | ImageAnalyzerAI.WebJobV2/QueueWorker.cs:133 | The metadata key is the blob name followed by five more characters. |
| Storage.MetadataKeyInjective | ImageAnalyzerAI.WebJobV2/QueueWorker.cs:133 | Distinct images never share a metadata blob. |
| Storage.UploadFile | ImageAnalyzerAI.Web/Services/Implementation/AzureStorageService.cs:37-43 | Stores the bytes and content type under the given name, replacing any blob of that name. Returns that same name. Every other image, the metadata and the queue stay unchanged. |
| Storage.EnqueueMessage | ImageAnalyzerAI.Web/Services/Implementation/AzureStorageService.cs:45-49 | Appends the encoded message for the name and changes nothing else. |
| Storage.PutMetadata | ImageAnalyzerAI.WebJobV2/QueueWorker.cs:133-135 | Upload with overwrite: the key `name + ".json"` then holds the new blob. Every other key, the images and the queue stay unchanged. |
| Storage.PutMetadataTwice | ImageAnalyzerAI.WebJobV2/QueueWorker.cs:135 | Of two writes at one name, only the second remains. |
| Storage.PutMetadataIdempotent | ImageAnalyzerAI.WebJobV2/QueueWorker.cs:135 | Writing the same blob again changes nothing. |
| Worker.ReadBlobName | ImageAnalyzerAI.WebJobV2/QueueWorker.cs:65-71 | The root is not an object exactly when the read fails that way. The name is absent exactly when no member is called `blobName`. Null exactly when the last such member is null. A name exactly when the last such member is a string, and then it is that string. |
| Worker.MessageName | ImageAnalyzerAI.WebJobV2/QueueWorker.cs:62-71 | A message carries a name exactly when it decodes to a document whose last `blobName` member is a string, and then it is that string. |
| Worker.Process | ImageAnalyzerAI.WebJobV2/QueueWorker.cs:54-138 | A normal return never changes the images or the queue. It changes nothing unless it saved. A save means the message carries a name, that image exists and was analysed, and the metadata is the old metadata with the record of that analysis at the image's key, every other key keeping its value. A message naming a missing image, when the storage calls succeed, returns normally and changes nothing. It throws exactly when the message is not base64 or not JSON, the root is not an object or `blobName` is null or not a string, the storage calls fail, or the image exists and then the analysis or the metadata upload fails. A message that does not decode throws `NotBase64` or `NotJson`, whichever step failed. |
| Worker.Save | ImageAnalyzerAI.WebJobV2/QueueWorker.cs:122-135 | The record of the analysis is at `name + ".json"`. Every other metadata blob, the images and the queue stay as they were. |
| Worker.SavedExactly | ImageAnalyzerAI.WebJobV2/QueueWorker.cs:62-135 | A message is saved exactly when it carries a name, the storage calls succeed, the image exists, the analysis answers and the upload succeeds. |
| Worker.OtherMembersIgnored | ImageAnalyzerAI.WebJobV2/QueueWorker.cs:65 | Appending a member of any other name, whatever its value, does not change what the worker reads. |
| Worker.UnpairedMemberNamed | ImageAnalyzerAI.WebJobV2/QueueWorker.cs:63-71 | The document `{"blobName":"a.png","x":"\uD800"}`, with an unpaired surrogate outside `blobName`, yields the name "a.png". |
| Worker.UnpairedMessageNamed | ImageAnalyzerAI.WebJobV2/QueueWorker.cs:62-71 | The queue message carrying that document, base64 of its UTF-8, names "a.png". |
| Worker.UnpairedMessageSaved | ImageAnalyzerAI.WebJobV2/QueueWorker.cs:62-135 | With that image present and every call succeeding, the message saves the record of "a.png" like any other message. |
| Worker.Iterate | ImageAnalyzerAI.WebJobV2/QueueWorker.cs:31-51 | Idles exactly on an empty queue, and an idle step changes nothing. A deleted message leaves the queue. A kept message goes to the back. The images never change. Once a message is claimed, the metadata is what processing left when it returned, even if the delete then fails, and the metadata as before when it threw. A deletion reports how processing returned. |
| Worker.DeletedIff | ImageAnalyzerAI.WebJobV2/QueueWorker.cs:37-45 | A claimed message is deleted exactly when processing returns normally and the delete succeeds. |
| Worker.NoMessageLost | ImageAnalyzerAI.WebJobV2/QueueWorker.cs:37-45 | An iteration removes at most the message it deleted. Every other message is kept. |
| Worker.ThrownChangesNothing | ImageAnalyzerAI.WebJobV2/QueueWorker.cs:42-45 | When processing throws, the images and metadata stay as they were and the message is kept. |
| Worker.NoBlobNameDeleted | ImageAnalyzerAI.WebJobV2/QueueWorker.cs:65-69 | A message whose object has no `blobName` is deleted and writes nothing. |
| Worker.ReadEncodedName | ImageAnalyzerAI.WebJobV2/QueueWorker.cs:62-71 | The worker reads back exactly the name the producer encoded. |
| Worker.ProcessEncodedName | ImageAnalyzerAI.WebJobV2/QueueWorker.cs:81-135 | For the producer's message, a missing image is a normal return that writes nothing. An existing image whose analysis and upload succeed is saved with its mapped record. |
| Worker.UndecodableKept | ImageAnalyzerAI.WebJobV2/QueueWorker.cs:37-45 | When the receive succeeds, a head message that is not base64 or not JSON is kept: it moves to the back of the queue, nothing else changes, and the step reports `NotBase64` or `NotJson`. |
| Worker.NamedMissingImageDeleted | ImageAnalyzerAI.WebJobV2/QueueWorker.cs:81-86 | When the storage calls and the delete succeed, any message whose name has no image is deleted and writes nothing, whatever else its document holds. |
| Worker.MissingImageDeleted | ImageAnalyzerAI.WebJobV2/QueueWorker.cs:81-86 | The producer's message for a name with no image is deleted and writes nothing. The rest of the queue stays in order. |
| Worker.ProducerMessageSaved | ImageAnalyzerAI.WebJobV2/QueueWorker.cs:122-135 | With every call succeeding, the producer's message writes exactly one record, at the image's metadata key, and the message is deleted. |
| Worker.ProcessIdempotent | ImageAnalyzerAI.WebJobV2/QueueWorker.cs:133-135 | Processing a message again with the same response leaves the stores as the first run left them. |
| Worker.SecondRunOverwrites | ImageAnalyzerAI.WebJobV2/QueueWorker.cs:133-135 | A second run for the same image leaves only the second run's record, as if the first had not happened. |
| Worker.Run | ImageAnalyzerAI.WebJobV2/QueueWorker.cs:31-51 | Over any run of ticks the loop never changes the images and never adds to the queue. |
| Worker.RunStopsOnlyWhenAsked | ImageAnalyzerAI.WebJobV2/QueueWorker.cs:31-51 | The loop ends only on cancellation or a failed receive. Failures while processing never end it. |
| Worker.RunOnEmptyQueue | ImageAnalyzerAI.WebJobV2/QueueWorker.cs:47-50 | Empty polls leave everything unchanged for as long as the loop runs. |
| Listing.ContainsIgnoreCaseIff | ImageAnalyzerAI.Web/Services/Implementation/AzureStorageService.cs:58 | `Listing.ContainsIgnoreCase`, the model of `Contains(search, StringComparison.OrdinalIgnoreCase)`, succeeds exactly when the search occurs somewhere in the name, ignoring case. |
| Listing.FoldCase | ImageAnalyzerAI.Web/Services/Implementation/AzureStorageService.cs:58 | Lower-case ASCII letters map to their upper-case letters. Every other character stays the same. |
| Listing.ReadMetadata | ImageAnalyzerAI.Web/Services/Implementation/AzureStorageService.cs:68-83 | Analysed exactly when the metadata exists, parses and is an object whose `description` is missing, a string or null. The description is that string when it is one. A parse failure gives not analysed and no description. |
| Listing.ReadStoredRecord | ImageAnalyzerAI.Web/Services/Implementation/AzureStorageService.cs:78-80 | A record the worker stored reads back as analysed, with its caption as the description. |
| Listing.MetadataOf | ImageAnalyzerAI.Web/Services/Implementation/AzureStorageService.cs:70-71 | Metadata is looked up at `name + ".json"`. It is found exactly when that key exists. |
| Listing.CollectMembers | ImageAnalyzerAI.Web/Services/Implementation/AzureStorageService.cs:54-93 | Every item `Listing.Collect` gathers comes from a blob the search lets through. Every such blob has its item. |
| Listing.CollectNames | ImageAnalyzerAI.Web/Services/Implementation/AzureStorageService.cs:56-60 | The collected names are the matching names, in listing order. |
| Listing.SortNewestFirstSorted | ImageAnalyzerAI.Web/Services/Implementation/AzureStorageService.cs:95 | `Listing.SortNewestFirst` (`OrderByDescending`) orders items by upload time, newest first. |
| Listing.SortPermutes | ImageAnalyzerAI.Web/Services/Implementation/AzureStorageService.cs:95 | The sort is a permutation of its input. |
| Listing.SortNewestFirstStable | ImageAnalyzerAI.Web/Services/Implementation/AzureStorageService.cs:95 | Items with the same upload time keep their relative order, as `OrderByDescending` promises. |
| Listing.SortKeepsNames | ImageAnalyzerAI.Web/Services/Implementation/AzureStorageService.cs:95 | The sort keeps the multiset of names. |
| Listing.ListImages | ImageAnalyzerAI.Web/Services/Implementation/AzureStorageService.cs:51-96 | The result is newest first and is a permutation of the collected items. |
| Listing.MatchingNamesMembers | ImageAnalyzerAI.Web/Services/Implementation/AzureStorageService.cs:56-60 | A name is among the matching names exactly when some blob has it and the search lets it through. |
| Listing.MatchingNamesOnce | ImageAnalyzerAI.Web/Services/Implementation/AzureStorageService.cs:54-60 | With unique blob names, each name matches at most once. |
| Listing.ListedExactlyOnce | ImageAnalyzerAI.Web/Services/Implementation/AzureStorageService.cs:54-95 | An image is listed exactly when its name matches the search (null, empty, or contained ignoring case), and then exactly once. |
| Listing.ListedItems | ImageAnalyzerAI.Web/Services/Implementation/AzureStorageService.cs:85-92 | Every listed item is the `Listing.ItemOf` of a matching blob: its URL, its metadata at `name + ".json"`, and its creation time or `now`. Every matching blob's item is listed. |
| Controller.GuidText | ImageAnalyzerAI.Web/Controllers/HomeController.cs:39 | A GUID's text is 36 characters long. |
| Controller.GuidTextDigits | ImageAnalyzerAI.Web/Controllers/HomeController.cs:39 | The text holds the 32 digits in order, lower case, with dashes at positions 8, 13, 18 and 23. |
| Controller.GuidTextInjective | ImageAnalyzerAI.Web/Controllers/HomeController.cs:39 | Distinct GUIDs have distinct texts. |
| Controller.GetExtensionSpec | ImageAnalyzerAI.Web/Controllers/HomeController.cs:38 | For `Controller.GetExtension` (`Path.GetExtension`), a non-empty extension is a suffix of the file name: a `.` and at least one more character, none of them a `.` or separator. It is empty exactly when every `.` before the last character is followed by another `.` or a separator. |
| Controller.ExtensionExamples | ImageAnalyzerAI.Web/Controllers/HomeController.cs:38 | "photo.JPG" gives ".JPG", "archive.tar.gz" gives ".gz", and "name.", `dir.d\file` and "README" give "". |
| Controller.BlobName | ImageAnalyzerAI.Web/Controllers/HomeController.cs:38-39 | The blob name starts with the GUID's 36-character text. |
| Controller.BlobNamesDistinct | ImageAnalyzerAI.Web/Controllers/HomeController.cs:39 | Uploads with different GUIDs never share a blob name. |
| Controller.Upload | ImageAnalyzerAI.Web/Controllers/HomeController.cs:30-48 | With no file, and only then, it redirects with "No file uploaded." and changes nothing. A completed upload redirects with the accepted message. It never touches metadata. |
| Controller.UploadStoresAndQueues | ImageAnalyzerAI.Web/Controllers/HomeController.cs:38-47 | A successful upload stores the file under the generated name and queues a message for that same name. |
| Controller.UploadBeforeEnqueue | ImageAnalyzerAI.Web/Controllers/HomeController.cs:43-44 | The image is stored before the message is queued: if queueing throws, the image is already there; if storing throws, nothing has changed. |
| Controller.Index | ImageAnalyzerAI.Web/Controllers/HomeController.cs:16-21 | The listing is given `q` unchanged. The query shown is `q`, or "" when it is null. |
| Controller.IndexEmptyQuery | ImageAnalyzerAI.Web/Controllers/HomeController.cs:16-20 | A null query and an empty one show the same page. |
| Controller.NoSearchCollectsAll | ImageAnalyzerAI.Web/Services/Implementation/AzureStorageService.cs:56 | A null search and an empty one collect the same items. |
| Pipeline.ListingSeesWorkerWrite | ImageAnalyzerAI.Web/Services/Implementation/AzureStorageService.cs:70 | The listing reads metadata at the very key the worker writes. |
| Pipeline.UploadAnalyseList | ImageAnalyzerAI.Web/Controllers/HomeController.cs:38-44 | An upload into an idle system, then one successful worker iteration, empties the queue again. The listing then shows the image as analysed, with the caption as its description and its upload time. |

## Left out

- The Azure SDK clients are not modelled: container and queue creation, network calls, `async` and `CancellationToken` plumbing. They are replaced by the `Stores` value, by failure flags (`Worker.Outages`, `Controller.WebOutages`) and by the `Worker.Analyzer` function.
- Logging, configuration lookups, and the dependency-injection and host wiring of both `Program.cs` files are left out. They have no effect on the pipeline's data.
- The 30-second visibility timeout and the 2000 ms delay are not modelled as time. A message that is not deleted moves to the back of the queue. An empty poll is an `Idle` step.
- Concurrency between worker instances is left out. The queue service decides which instance claims a message.
- Confidence scores are kept as their decimal text (`Vision.Score`) and copied through, because they are floating point. Bounding boxes are integers.
- The metadata blob is modelled as the JSON document it holds (`Storage.MetaBlob`), not as its indented text. `WriteIndented` layout and a read of text that fails to parse are reduced to `Malformed`.
- `Convert.FromBase64String` skips whitespace anywhere in its input; the model rejects it. The producer never writes whitespace.
- A member name whose `\u` escapes leave a surrogate unpaired makes the model's parse fail, so its message is kept. .NET accepts such a name. Whether `TryGetProperty` then throws depends on how it compares the name with `blobName` while unescaping it, which this model does not follow. A string value with an unpaired surrogate is modelled (`Json.Unpaired`): the parse accepts it and only `GetString` fails on it. So such a value in `blobName` keeps the message, and anywhere else it is ignored.
- `DateTimeOffset.UtcNow` (AzureStorageService.cs line 91) is the parameter `now`. The blob URL from `blobClient.Uri` is the parameter `urlOf`.
- `Guid.NewGuid()` is the parameter `guid`, with any 32 digits. The version and variant bits are not constrained.
- `Path.GetExtension` follows its Windows behaviour, where both `\` and `/` separate directories. Volume separators (`C:`) are left out.
- Listing.FoldCase: folds ASCII letters only. `OrdinalIgnoreCase` also folds the other letters that have simple upper-case mappings, because Unicode case tables are outside this model.
- Worker.ReadBlobName: a JSON null `blobName` is modelled as an exception (`NullBlobName`), because the storage client's handling of a null name is not part of this model.
- Worker.Process: one storage flag stands for every storage call before the analysis: the creation of the images container and of the metadata container (QueueWorker.cs lines 78-79), `ExistsAsync` and the download. Each of them throws, and the model reports all of them as `StorageUnavailable` without saying which call failed.
- Failures of the storage calls inside `ListImagesAsync` are left out: the listing, `ExistsAsync` and the download outside the try block. They throw out of the action and change no state.
- `ModelState.IsValid` is modelled as the file being present, the one `[Required]` field of `ImageUploadDto`.
- Storage.UploadFile: the stored creation time is the upload's `now`, even when a blob of that name is replaced. GUID names make replacement practically impossible.
- The anti-forgery token check, the `Privacy` action and the views are left out. They are framework wiring with no pipeline data.
