/** The web front end's two actions: `Upload`, which stores an image under
    a fresh name and queues it for analysis, and `Index`, which lists the
    images. */
module Controller {
  import opened Wrappers
  import opened Bytes
  import opened Storage
  import QueueMessage
  import Listing

  // ---------------------------------------------------------------------
  // Names

  type nibble = x: int | 0 <= x < 16

  /** The 128 bits of a GUID as 32 hexadecimal digits, most significant
      first. */
  type Guid = s: seq<nibble> | |s| == 32 witness seq(32, _ => 0)

  function HexChar(n: nibble): (c: char)
    ensures ('0' <= c <= '9') || ('a' <= c <= 'f')
  {
    if n < 10 then ('0' as int + n) as char else ('a' as int + n - 10) as char
  }

  function HexText(s: seq<nibble>): (r: string)
    ensures |r| == |s|
    ensures forall i :: 0 <= i < |s| ==> r[i] == HexChar(s[i])
  {
    if |s| == 0 then "" else [HexChar(s[0])] + HexText(s[1..])
  }

  /** `Guid.ToString()`: lower-case digits in groups of 8-4-4-4-12. */
  function GuidText(g: Guid): (t: string)
    ensures |t| == 36
  {
    HexText(g[..8]) + "-" + HexText(g[8..12]) + "-" + HexText(g[12..16]) + "-" + HexText(g[16..20]) + "-" + HexText(g[20..])
  }

  /** Where the `i`th digit lands in the text. */
  function DigitPosition(i: int): int {
    i + (if i >= 8 then 1 else 0) + (if i >= 12 then 1 else 0) + (if i >= 16 then 1 else 0) + (if i >= 20 then 1 else 0)
  }

  lemma GuidTextDigits(g: Guid)
    ensures forall i :: 0 <= i < 32 ==> 0 <= DigitPosition(i) < 36 && GuidText(g)[DigitPosition(i)] == HexChar(g[i])
    ensures forall p :: p in {8, 13, 18, 23} ==> GuidText(g)[p] == '-'
  {
    var t := GuidText(g);
    var a, b, c, d, e := HexText(g[..8]), HexText(g[8..12]), HexText(g[12..16]), HexText(g[16..20]), HexText(g[20..]);
    assert t == a + "-" + b + "-" + c + "-" + d + "-" + e;
    forall i | 0 <= i < 32
      ensures GuidText(g)[DigitPosition(i)] == HexChar(g[i])
    {
      if i < 8 {
        assert t[i] == a[i];
      } else if i < 12 {
        assert t[i + 1] == b[i - 8];
      } else if i < 16 {
        assert t[i + 2] == c[i - 12];
      } else if i < 20 {
        assert t[i + 3] == d[i - 16];
      } else {
        assert t[i + 4] == e[i - 20];
      }
    }
  }

  lemma HexCharInjective(m: nibble, n: nibble)
    requires HexChar(m) == HexChar(n)
    ensures m == n
  {
  }

  /** Distinct GUIDs have distinct texts. */
  lemma GuidTextInjective(g: Guid, h: Guid)
    requires GuidText(g) == GuidText(h)
    ensures g == h
  {
    GuidTextDigits(g);
    GuidTextDigits(h);
    forall i | 0 <= i < 32
      ensures g[i] == h[i]
    {
      HexCharInjective(g[i], h[i]);
    }
  }

  /** A directory separator on Windows, where `Path` accepts both slashes. */
  predicate IsSeparator(c: char) {
    c == '\\' || c == '/'
  }

  /** The extension found scanning `path[..i]` from its end. */
  function ExtensionBefore(path: string, i: nat): (ext: string)
    requires i <= |path|
    decreases i
  {
    if i == 0 then ""
    else if path[i - 1] == '.' then (if i == |path| then "" else path[i - 1..])
    else if IsSeparator(path[i - 1]) then ""
    else ExtensionBefore(path, i - 1)
  }

  /** `Path.GetExtension`: from the last `.` of the file name to the end,
      or empty when the name has no `.` or ends in one. */
  function GetExtension(path: string): string {
    ExtensionBefore(path, |path|)
  }

  predicate IsStop(c: char) {
    c == '.' || IsSeparator(c)
  }

  lemma {:induction false} ExtensionBeforeSpec(path: string, i: nat)
    requires i <= |path|
    requires forall j :: i <= j < |path| ==> !IsStop(path[j])
    ensures var ext := ExtensionBefore(path, i);
      ext != "" ==> (
        && 2 <= |ext| <= |path| && ext[0] == '.' && ext == path[|path| - |ext|..]
        && forall j :: 1 <= j < |ext| ==> !IsStop(ext[j]))
    ensures ExtensionBefore(path, i) == "" ==>
      forall k :: 0 <= k < i && k < |path| - 1 && path[k] == '.' ==>
        exists j :: k < j < |path| && IsStop(path[j])
    decreases i
  {
    if i > 0 && !IsStop(path[i - 1]) {
      ExtensionBeforeSpec(path, i - 1);
    } else if i > 0 && path[i - 1] == '.' && i < |path| {
      var ext := path[i - 1..];
      assert forall j :: 1 <= j < |ext| ==> ext[j] == path[i - 1 + j];
    } else if i > 0 {
      assert IsStop(path[i - 1]);
      forall k | 0 <= k < i && k < |path| - 1 && path[k] == '.'
        ensures exists j :: k < j < |path| && IsStop(path[j])
      {
        assert k < i - 1;
        assert IsStop(path[i - 1]);
      }
    }
  }

  /** The extension is a final `.` plus at least one character, none of
      which is a `.` or a separator; it is empty exactly when every `.`
      before the last character is followed by another `.` or a
      separator. */
  lemma GetExtensionSpec(path: string)
    ensures var ext := GetExtension(path);
      ext != "" ==> (
        && 2 <= |ext| <= |path| && ext[0] == '.' && ext == path[|path| - |ext|..]
        && forall j :: 1 <= j < |ext| ==> !IsStop(ext[j]))
    ensures GetExtension(path) == "" ==>
      forall k :: 0 <= k < |path| - 1 && path[k] == '.' ==> exists j :: k < j < |path| && IsStop(path[j])
  {
    ExtensionBeforeSpec(path, |path|);
  }

  lemma ExtensionExamples()
    ensures GetExtension("photo.JPG") == ".JPG"
    ensures GetExtension("archive.tar.gz") == ".gz"
    ensures GetExtension("name.") == ""
    ensures GetExtension("dir.d\\file") == ""
    ensures GetExtension("README") == ""
  {
    assert GetExtension("photo.JPG") == ExtensionBefore("photo.JPG", 9);
    assert GetExtension("archive.tar.gz") == ExtensionBefore("archive.tar.gz", 14);
    assert GetExtension("name.") == ExtensionBefore("name.", 5);
    assert GetExtension("dir.d\\file") == ExtensionBefore("dir.d\\file", 10);
    assert GetExtension("README") == ExtensionBefore("README", 6);
  }

  /** `$"{Guid.NewGuid()}{ext}"`. */
  function BlobName(g: Guid, fileName: string): (name: string)
    ensures |name| >= 36 && name[..36] == GuidText(g)
  {
    GuidText(g) + GetExtension(fileName)
  }

  /** Two uploads with different GUIDs never share a name. */
  lemma BlobNamesDistinct(g: Guid, h: Guid, f1: string, f2: string)
    requires g != h
    ensures BlobName(g, f1) != BlobName(h, f2)
  {
    if BlobName(g, f1) == BlobName(h, f2) {
      GuidTextInjective(g, h);
    }
  }

  // ---------------------------------------------------------------------
  // Upload

  datatype FormFile = FormFile(fileName: string, contentType: string, content: seq<byte>)

  /** The form's single field; binding leaves it missing when no file was
      posted, which is what makes the model state invalid. */
  datatype UploadDto = UploadDto(file: Option<FormFile>)

  /** What the action puts in `TempData` for the next page. */
  datatype Notice = Error(text: string) | Message(text: string)

  const NoFileUploaded: string := "No file uploaded."
  const UploadAccepted: string := "Image uploaded. Analysis will run shortly."

  /** Which storage calls throw. */
  datatype WebOutages = WebOutages(upload: bool, enqueue: bool)

  datatype Step = UploadStep | EnqueueStep

  /** A redirect to `Index` with a notice, or an exception out of the
      action after the stores were changed as far as it got. */
  datatype UploadResult = Redirected(stores: Stores, notice: Notice) | Threw(stores: Stores, step: Step)

  function Upload(st: Stores, dto: UploadDto, guid: Guid, now: int, out: WebOutages): (r: UploadResult)
    ensures dto.file.None? <==> r == Redirected(st, Error(NoFileUploaded))
    ensures r.Redirected? && dto.file.Some? ==> r.notice == Message(UploadAccepted)
    ensures r.stores.metadata == st.metadata
  {
    if dto.file.None? then Redirected(st, Error(NoFileUploaded))
    else
      var f := dto.file.value;
      var name := BlobName(guid, f.fileName);
      if out.upload then Threw(st, UploadStep)
      else
        var (st1, _) := UploadFile(st, name, f.content, f.contentType, now);
        if out.enqueue then Threw(st1, EnqueueStep)
        else Redirected(EnqueueMessage(st1, name), Message(UploadAccepted))
  }

  /** A successful upload stores the file under the generated name and
      queues a message for that same name. */
  lemma UploadStoresAndQueues(st: Stores, file: FormFile, guid: Guid, now: int)
    ensures var name := BlobName(guid, file.fileName);
      var r := Upload(st, UploadDto(Some(file)), guid, now, WebOutages(false, false));
      && r == Redirected(r.stores, Message(UploadAccepted))
      && r.stores.images == st.images[name := Image(file.content, file.contentType, Some(now))]
      && r.stores.queue == st.queue + [QueueMessage.Encode(name)]
  {
  }

  /** The image is stored before the message is queued: when queueing
      fails the image is already there, and when storing fails nothing
      changed. */
  lemma UploadBeforeEnqueue(st: Stores, file: FormFile, guid: Guid, now: int)
    ensures var name := BlobName(guid, file.fileName);
      var r := Upload(st, UploadDto(Some(file)), guid, now, WebOutages(false, true));
      && r.Threw? && r.step == EnqueueStep
      && name in r.stores.images && r.stores.queue == st.queue
    ensures Upload(st, UploadDto(Some(file)), guid, now, WebOutages(true, false)) == Threw(st, UploadStep)
  {
  }

  // ---------------------------------------------------------------------
  // Index

  /** The items listed and the query echoed to the view. Glue that
      forwards to the listing; `IndexEmptyQuery` and `NoSearchCollectsAll`
      say what the forwarding means. */
  function Index(blobs: seq<Listing.BlobEntry>, metadata: map<string, MetaBlob>, q: Option<string>, now: int, urlOf: Listing.UrlOf): (r: (seq<Listing.ImageItem>, string))
    ensures q.Some? ==> r.1 == q.value
    ensures q.None? ==> r.1 == ""
    ensures r.0 == Listing.ListImages(blobs, metadata, q, now, urlOf)
  {
    (Listing.ListImages(blobs, metadata, q, now, urlOf), q.GetOr(""))
  }

  /** A missing query and an empty one show the same page. */
  lemma IndexEmptyQuery(blobs: seq<Listing.BlobEntry>, metadata: map<string, MetaBlob>, now: int, urlOf: Listing.UrlOf)
    ensures Index(blobs, metadata, None, now, urlOf) == Index(blobs, metadata, Some(""), now, urlOf)
  {
    NoSearchCollectsAll(blobs, metadata, now, urlOf);
  }

  lemma {:induction false} NoSearchCollectsAll(blobs: seq<Listing.BlobEntry>, metadata: map<string, MetaBlob>, now: int, urlOf: Listing.UrlOf)
    ensures Listing.Collect(blobs, metadata, None, now, urlOf) == Listing.Collect(blobs, metadata, Some(""), now, urlOf)
  {
    if |blobs| > 0 {
      NoSearchCollectsAll(blobs[1..], metadata, now, urlOf);
    }
  }
}
