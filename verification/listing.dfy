/** `ListImagesAsync`: the images, filtered by a search string, each with
    what its metadata says, newest first. */
module Listing {
  import opened Wrappers
  import Json
  import Analysis
  import opened Storage

  /** One entry of the images container's listing. */
  datatype BlobEntry = BlobEntry(name: string, createdOn: Option<int>)

  datatype ImageItem = ImageItem(blobName: string, url: string, analyzed: bool, description: Option<string>, uploadedAt: int)

  /** The address of a blob, which the storage client derives from its
      account and container. */
  type UrlOf = string -> string

  /** A listing of the images container: every image exactly once, with
      the creation time the store holds for it. */
  predicate Enumerates(blobs: seq<BlobEntry>, images: map<string, Image>) {
    && (forall i, j :: 0 <= i < j < |blobs| ==> blobs[i].name != blobs[j].name)
    && (forall i :: 0 <= i < |blobs| ==> blobs[i].name in images && blobs[i].createdOn == images[blobs[i].name].createdOn)
    && (forall n :: n in images ==> exists i :: 0 <= i < |blobs| && blobs[i].name == n)
  }

  // ---------------------------------------------------------------------
  // Search

  /** ASCII letters compared without regard to case. */
  function FoldCase(c: char): (d: char)
    ensures 'a' <= c <= 'z' ==> 'A' <= d <= 'Z' && d as int == c as int - 32
    ensures !('a' <= c <= 'z') ==> d == c
  {
    if 'a' <= c <= 'z' then (c as int - 32) as char else c
  }

  predicate EqualsIgnoreCase(a: string, b: string) {
    |a| == |b| && forall j :: 0 <= j < |a| ==> FoldCase(a[j]) == FoldCase(b[j])
  }

  /** Whether `sub` occurs in `s` at offset `i`, ignoring case. */
  predicate OccursAt(s: string, sub: string, i: int) {
    0 <= i && i + |sub| <= |s| && EqualsIgnoreCase(s[i..i + |sub|], sub)
  }

  /** `s.Contains(sub, StringComparison.OrdinalIgnoreCase)`, scanning the
      offsets from the left. */
  function ContainsIgnoreCase(s: string, sub: string): bool
    decreases |s|
  {
    if |sub| > |s| then false
    else if EqualsIgnoreCase(s[..|sub|], sub) then true
    else ContainsIgnoreCase(s[1..], sub)
  }

  lemma OccursShift(s: string, sub: string, i: int)
    requires |s| > 0 && 0 <= i
    ensures OccursAt(s[1..], sub, i) <==> OccursAt(s, sub, i + 1)
  {
    if i + |sub| <= |s[1..]| {
      assert s[1..][i..i + |sub|] == s[i + 1..i + 1 + |sub|];
    }
  }

  /** The scan finds an occurrence exactly when there is one. */
  lemma {:induction false} ContainsIgnoreCaseIff(s: string, sub: string)
    ensures ContainsIgnoreCase(s, sub) <==> exists i :: OccursAt(s, sub, i)
    decreases |s|
  {
    if |sub| > |s| {
      assert forall i :: !OccursAt(s, sub, i);
    } else if EqualsIgnoreCase(s[..|sub|], sub) {
      assert s[0..0 + |sub|] == s[..|sub|];
      assert OccursAt(s, sub, 0);
    } else {
      ContainsIgnoreCaseIff(s[1..], sub);
      if ContainsIgnoreCase(s, sub) {
        var i :| OccursAt(s[1..], sub, i);
        OccursShift(s, sub, i);
      } else {
        forall i | OccursAt(s, sub, i)
          ensures false
        {
          assert i != 0 by {
            assert s[0..0 + |sub|] == s[..|sub|];
          }
          OccursShift(s, sub, i - 1);
        }
      }
    }
  }

  /** The filter: no search, an empty one, or a case-insensitive substring
      of the name. */
  predicate Matches(search: Option<string>, name: string) {
    search.None? || search.value == "" || ContainsIgnoreCase(name, search.value)
  }

  // ---------------------------------------------------------------------
  // Metadata

  const DescriptionKey: string := "description"

  /** The try block: `(Analyzed, Description)` from the metadata blob, if
      there is one. Anything that throws leaves both at their defaults. */
  function ReadMetadata(meta: Option<MetaBlob>): (r: (bool, Option<string>))
    ensures r.1.Some? ==> r.0
    ensures r.0 <==> (
      && meta.Some? && meta.value.Parsed? && meta.value.doc.Obj?
      && var d := Json.LastMember(meta.value.doc.members, DescriptionKey);
         d.None? || d.value.Str? || d.value.Null?)
    ensures r.1.Some? ==> (
      && meta.Some? && meta.value.Parsed? && meta.value.doc.Obj?
      && Json.LastMember(meta.value.doc.members, DescriptionKey) == Some(Json.Str(r.1.value)))
    ensures (
      && meta.Some? && meta.value.Parsed? && meta.value.doc.Obj?
      && Json.LastMember(meta.value.doc.members, DescriptionKey).Some?
      && Json.LastMember(meta.value.doc.members, DescriptionKey).value.Str?) ==> r.1.Some?
  {
    match meta
    case None => (false, None)
    case Some(Malformed) => (false, None)
    case Some(Parsed(doc)) =>
      match Json.GetProperty(doc, DescriptionKey)
      case Failure(_) => (false, None)
      case Success(None) => (true, None)
      case Success(Some(d)) =>
        match Json.GetString(d)
        case Failure(_) => (false, None)
        case Success(t) => (true, t)
  }

  /** What the worker stored reads back as analysed, with its caption. */
  lemma ReadStoredRecord(rec: Analysis.AnalysisRecord)
    ensures ReadMetadata(Some(Parsed(Analysis.RecordJson(rec)))) == (true, rec.description)
  {
    Analysis.ReadDescription(rec);
  }

  /** The metadata blob at the image's key, if any. */
  function MetadataOf(metadata: map<string, MetaBlob>, name: string): (m: Option<MetaBlob>)
    ensures m.Some? <==> MetadataKey(name) in metadata
    ensures m.Some? ==> m.value == metadata[MetadataKey(name)]
  {
    if MetadataKey(name) in metadata then Some(metadata[MetadataKey(name)]) else None
  }

  function ItemOf(b: BlobEntry, metadata: map<string, MetaBlob>, now: int, urlOf: UrlOf): ImageItem {
    var meta := ReadMetadata(MetadataOf(metadata, b.name));
    ImageItem(b.name, urlOf(b.name), meta.0, meta.1, b.createdOn.GetOr(now))
  }

  // ---------------------------------------------------------------------
  // Collecting and ordering

  /** The loop body over the listing, in listing order. */
  function Collect(blobs: seq<BlobEntry>, metadata: map<string, MetaBlob>, search: Option<string>, now: int, urlOf: UrlOf): (r: seq<ImageItem>)
    ensures |r| <= |blobs|
  {
    if |blobs| == 0 then []
    else
      var rest := Collect(blobs[1..], metadata, search, now, urlOf);
      if Matches(search, blobs[0].name) then [ItemOf(blobs[0], metadata, now, urlOf)] + rest else rest
  }

  /** `item` is the item of a blob the search lets through. */
  predicate FromMatchingBlob(item: ImageItem, blobs: seq<BlobEntry>, metadata: map<string, MetaBlob>, search: Option<string>, now: int, urlOf: UrlOf) {
    exists i :: 0 <= i < |blobs| && Matches(search, blobs[i].name) && item == ItemOf(blobs[i], metadata, now, urlOf)
  }

  /** Every item comes from a blob the search lets through, and every such
      blob has its item. */
  lemma {:induction false} CollectMembers(blobs: seq<BlobEntry>, metadata: map<string, MetaBlob>, search: Option<string>, now: int, urlOf: UrlOf)
    ensures forall item :: item in Collect(blobs, metadata, search, now, urlOf) ==>
      FromMatchingBlob(item, blobs, metadata, search, now, urlOf)
    ensures forall i :: 0 <= i < |blobs| && Matches(search, blobs[i].name) ==>
      ItemOf(blobs[i], metadata, now, urlOf) in Collect(blobs, metadata, search, now, urlOf)
  {
    if |blobs| > 0 {
      CollectMembers(blobs[1..], metadata, search, now, urlOf);
      var rest := Collect(blobs[1..], metadata, search, now, urlOf);
      var r := Collect(blobs, metadata, search, now, urlOf);
      var first := ItemOf(blobs[0], metadata, now, urlOf);
      assert r == if Matches(search, blobs[0].name) then [first] + rest else rest;
      forall item | item in r
        ensures FromMatchingBlob(item, blobs, metadata, search, now, urlOf)
      {
        if item in rest {
          assert FromMatchingBlob(item, blobs[1..], metadata, search, now, urlOf);
          var i :| 0 <= i < |blobs[1..]| && Matches(search, blobs[1..][i].name) && item == ItemOf(blobs[1..][i], metadata, now, urlOf);
          assert blobs[i + 1] == blobs[1..][i];
        } else {
          assert item == first;
        }
      }
      forall i | 0 <= i < |blobs| && Matches(search, blobs[i].name)
        ensures ItemOf(blobs[i], metadata, now, urlOf) in r
      {
        if i > 0 {
          assert blobs[1..][i - 1] == blobs[i];
        }
      }
    }
  }

  function ItemNames(items: seq<ImageItem>): (r: seq<string>)
    ensures |r| == |items|
    ensures forall k :: 0 <= k < |items| ==> r[k] == items[k].blobName
  {
    if |items| == 0 then [] else [items[0].blobName] + ItemNames(items[1..])
  }

  /** The names of the blobs the search lets through, in listing order. */
  function MatchingNames(blobs: seq<BlobEntry>, search: Option<string>): seq<string> {
    if |blobs| == 0 then []
    else (if Matches(search, blobs[0].name) then [blobs[0].name] else []) + MatchingNames(blobs[1..], search)
  }

  lemma {:induction false} CollectNames(blobs: seq<BlobEntry>, metadata: map<string, MetaBlob>, search: Option<string>, now: int, urlOf: UrlOf)
    ensures ItemNames(Collect(blobs, metadata, search, now, urlOf)) == MatchingNames(blobs, search)
  {
    if |blobs| > 0 {
      CollectNames(blobs[1..], metadata, search, now, urlOf);
      var rest := Collect(blobs[1..], metadata, search, now, urlOf);
      if Matches(search, blobs[0].name) {
        assert ItemNames([ItemOf(blobs[0], metadata, now, urlOf)] + rest) == [blobs[0].name] + ItemNames(rest);
      }
    }
  }

  /** `x` placed before every item no newer than it. */
  function Insert(x: ImageItem, sorted: seq<ImageItem>): (r: seq<ImageItem>)
    ensures |r| == |sorted| + 1
  {
    if |sorted| == 0 || x.uploadedAt >= sorted[0].uploadedAt then [x] + sorted
    else [sorted[0]] + Insert(x, sorted[1..])
  }

  /** `OrderByDescending(i => i.UploadedAt)`, which is stable. */
  function SortNewestFirst(items: seq<ImageItem>): (r: seq<ImageItem>)
    ensures |r| == |items|
  {
    if |items| == 0 then [] else Insert(items[0], SortNewestFirst(items[1..]))
  }

  lemma {:induction false} InsertPermutes(x: ImageItem, sorted: seq<ImageItem>)
    ensures multiset(Insert(x, sorted)) == multiset(sorted) + multiset{x}
  {
    if |sorted| > 0 && x.uploadedAt < sorted[0].uploadedAt {
      InsertPermutes(x, sorted[1..]);
      assert sorted == [sorted[0]] + sorted[1..];
    }
  }

  lemma {:induction false} SortPermutes(items: seq<ImageItem>)
    ensures multiset(SortNewestFirst(items)) == multiset(items)
  {
    if |items| > 0 {
      SortPermutes(items[1..]);
      InsertPermutes(items[0], SortNewestFirst(items[1..]));
      assert items == [items[0]] + items[1..];
    }
  }

  predicate NewestFirst(items: seq<ImageItem>) {
    forall i, j :: 0 <= i < j < |items| ==> items[i].uploadedAt >= items[j].uploadedAt
  }

  /** Items no newer than `t` stay so after one more is inserted. */
  lemma {:induction false} InsertBounded(x: ImageItem, sorted: seq<ImageItem>, t: int)
    requires x.uploadedAt <= t
    requires forall k :: 0 <= k < |sorted| ==> sorted[k].uploadedAt <= t
    ensures forall k :: 0 <= k < |Insert(x, sorted)| ==> Insert(x, sorted)[k].uploadedAt <= t
  {
    if |sorted| > 0 && x.uploadedAt < sorted[0].uploadedAt {
      InsertBounded(x, sorted[1..], t);
      assert Insert(x, sorted) == [sorted[0]] + Insert(x, sorted[1..]);
    } else {
      assert Insert(x, sorted) == [x] + sorted;
    }
  }

  lemma ConsNewestFirst(x: ImageItem, rest: seq<ImageItem>)
    requires NewestFirst(rest)
    requires forall k :: 0 <= k < |rest| ==> rest[k].uploadedAt <= x.uploadedAt
    ensures NewestFirst([x] + rest)
  {
    var s := [x] + rest;
    forall i, j | 0 <= i < j < |s|
      ensures s[i].uploadedAt >= s[j].uploadedAt
    {
      assert s[j] == rest[j - 1];
      if i > 0 {
        assert s[i] == rest[i - 1];
      }
    }
  }

  lemma {:induction false} InsertSorted(x: ImageItem, sorted: seq<ImageItem>)
    requires NewestFirst(sorted)
    ensures NewestFirst(Insert(x, sorted))
  {
    if |sorted| > 0 && x.uploadedAt < sorted[0].uploadedAt {
      var s0, tail := sorted[0], sorted[1..];
      assert NewestFirst(tail) by {
        forall i, j | 0 <= i < j < |tail|
          ensures tail[i].uploadedAt >= tail[j].uploadedAt
        {
          assert tail[i] == sorted[i + 1] && tail[j] == sorted[j + 1];
        }
      }
      assert forall k :: 0 <= k < |tail| ==> tail[k].uploadedAt <= s0.uploadedAt by {
        forall k | 0 <= k < |tail|
          ensures tail[k].uploadedAt <= s0.uploadedAt
        {
          assert tail[k] == sorted[k + 1];
        }
      }
      InsertSorted(x, tail);
      InsertBounded(x, tail, s0.uploadedAt);
      assert Insert(x, sorted) == [s0] + Insert(x, tail);
      ConsNewestFirst(s0, Insert(x, tail));
    } else {
      assert Insert(x, sorted) == [x] + sorted;
      ConsNewestFirst(x, sorted);
    }
  }

  lemma {:induction false} SortNewestFirstSorted(items: seq<ImageItem>)
    ensures NewestFirst(SortNewestFirst(items))
  {
    if |items| > 0 {
      SortNewestFirstSorted(items[1..]);
      InsertSorted(items[0], SortNewestFirst(items[1..]));
    }
  }

  /** The items uploaded at time `t`, in order. */
  function UploadedAtTime(items: seq<ImageItem>, t: int): seq<ImageItem> {
    if |items| == 0 then []
    else (if items[0].uploadedAt == t then [items[0]] else []) + UploadedAtTime(items[1..], t)
  }

  lemma UploadedAtTimeCons(x: ImageItem, rest: seq<ImageItem>, t: int)
    ensures UploadedAtTime([x] + rest, t) == (if x.uploadedAt == t then [x] else []) + UploadedAtTime(rest, t)
  {
    assert ([x] + rest)[1..] == rest;
  }

  lemma {:induction false} InsertStable(x: ImageItem, sorted: seq<ImageItem>, t: int)
    ensures UploadedAtTime(Insert(x, sorted), t)
      == (if x.uploadedAt == t then [x] else []) + UploadedAtTime(sorted, t)
  {
    if |sorted| == 0 || x.uploadedAt >= sorted[0].uploadedAt {
      UploadedAtTimeCons(x, sorted, t);
    } else {
      var s0, tail := sorted[0], sorted[1..];
      InsertStable(x, tail, t);
      UploadedAtTimeCons(s0, Insert(x, tail), t);
      assert sorted == [s0] + tail;
      UploadedAtTimeCons(s0, tail, t);
      if x.uploadedAt == t {
        assert s0.uploadedAt != t;
      } else if s0.uploadedAt == t {
        assert UploadedAtTime(Insert(x, sorted), t) == [s0] + UploadedAtTime(tail, t);
      }
    }
  }

  /** Items with equal upload times keep their listing order. */
  lemma {:induction false} SortNewestFirstStable(items: seq<ImageItem>, t: int)
    ensures UploadedAtTime(SortNewestFirst(items), t) == UploadedAtTime(items, t)
  {
    if |items| > 0 {
      SortNewestFirstStable(items[1..], t);
      InsertStable(items[0], SortNewestFirst(items[1..]), t);
    }
  }

  lemma ItemNamesCons(x: ImageItem, rest: seq<ImageItem>)
    ensures ItemNames([x] + rest) == [x.blobName] + ItemNames(rest)
  {
  }

  lemma NamesConsMultiset(x: ImageItem, rest: seq<ImageItem>)
    ensures multiset(ItemNames([x] + rest)) == multiset{x.blobName} + multiset(ItemNames(rest))
  {
    ItemNamesCons(x, rest);
  }

  lemma {:induction false} SortKeepsNames(items: seq<ImageItem>)
    ensures multiset(ItemNames(SortNewestFirst(items))) == multiset(ItemNames(items))
  {
    if |items| > 0 {
      SortKeepsNames(items[1..]);
      InsertKeepsNames(items[0], SortNewestFirst(items[1..]));
      ItemNamesCons(items[0], items[1..]);
      assert items == [items[0]] + items[1..];
    }
  }

  lemma {:induction false} InsertKeepsNames(x: ImageItem, sorted: seq<ImageItem>)
    ensures multiset(ItemNames(Insert(x, sorted))) == multiset(ItemNames(sorted)) + multiset{x.blobName}
  {
    if |sorted| > 0 && x.uploadedAt < sorted[0].uploadedAt {
      var s0, tail := sorted[0], sorted[1..];
      assert Insert(x, sorted) == [s0] + Insert(x, tail);
      InsertKeepsNames(x, tail);
      assert sorted == [s0] + tail;
      NamesConsMultiset(s0, tail);
      NamesConsMultiset(s0, Insert(x, tail));
    } else {
      assert Insert(x, sorted) == [x] + sorted;
      NamesConsMultiset(x, sorted);
    }
  }

  /** `ListImagesAsync`. */
  function ListImages(blobs: seq<BlobEntry>, metadata: map<string, MetaBlob>, search: Option<string>, now: int, urlOf: UrlOf): (r: seq<ImageItem>)
    ensures NewestFirst(r)
    ensures multiset(r) == multiset(Collect(blobs, metadata, search, now, urlOf))
  {
    var items := Collect(blobs, metadata, search, now, urlOf);
    SortNewestFirstSorted(items);
    SortPermutes(items);
    SortNewestFirst(items)
  }

  lemma {:induction false} MatchingNamesMembers(blobs: seq<BlobEntry>, search: Option<string>, name: string)
    ensures name in MatchingNames(blobs, search) <==>
      exists i :: 0 <= i < |blobs| && blobs[i].name == name && Matches(search, name)
  {
    if |blobs| > 0 {
      MatchingNamesMembers(blobs[1..], search, name);
      if exists i :: 0 <= i < |blobs| && blobs[i].name == name && Matches(search, name) {
        var i :| 0 <= i < |blobs| && blobs[i].name == name && Matches(search, name);
        if i > 0 {
          assert blobs[1..][i - 1] == blobs[i];
        }
      }
      if name in MatchingNames(blobs[1..], search) {
        var i :| 0 <= i < |blobs[1..]| && blobs[1..][i].name == name && Matches(search, name);
        assert blobs[i + 1] == blobs[1..][i];
      }
    }
  }

  /** Names that are distinct in the listing occur at most once among the
      matching names. */
  lemma {:induction false} MatchingNamesOnce(blobs: seq<BlobEntry>, search: Option<string>, name: string)
    requires forall i, j :: 0 <= i < j < |blobs| ==> blobs[i].name != blobs[j].name
    ensures multiset(MatchingNames(blobs, search))[name] <= 1
  {
    if |blobs| > 0 {
      MatchingNamesOnce(blobs[1..], search, name);
      if blobs[0].name == name {
        MatchingNamesMembers(blobs[1..], search, name);
        assert name !in MatchingNames(blobs[1..], search);
      }
    }
  }

  /** The listing holds one item for each blob the search lets through and
      no other: an image is listed exactly when its name matches, and,
      as blob names are unique, then exactly once. */
  lemma ListedExactlyOnce(blobs: seq<BlobEntry>, metadata: map<string, MetaBlob>, search: Option<string>, now: int, urlOf: UrlOf, name: string)
    requires forall i, j :: 0 <= i < j < |blobs| ==> blobs[i].name != blobs[j].name
    ensures var names := ItemNames(ListImages(blobs, metadata, search, now, urlOf));
      && (name in names <==> exists i :: 0 <= i < |blobs| && blobs[i].name == name && Matches(search, name))
      && multiset(names)[name] == if name in names then 1 else 0
  {
    var items := Collect(blobs, metadata, search, now, urlOf);
    CollectNames(blobs, metadata, search, now, urlOf);
    SortKeepsNames(items);
    MatchingNamesMembers(blobs, search, name);
    MatchingNamesOnce(blobs, search, name);
    var names := ItemNames(ListImages(blobs, metadata, search, now, urlOf));
    assert multiset(names) == multiset(MatchingNames(blobs, search));
    assert name in names <==> name in multiset(names);
  }

  /** Every listed item is what `ItemOf` makes of a matching blob: its
      metadata read at `name + ".json"`, its time the creation time or
      `now`. */
  lemma ListedItems(blobs: seq<BlobEntry>, metadata: map<string, MetaBlob>, search: Option<string>, now: int, urlOf: UrlOf)
    ensures forall item :: item in ListImages(blobs, metadata, search, now, urlOf) ==>
      FromMatchingBlob(item, blobs, metadata, search, now, urlOf)
    ensures forall i :: 0 <= i < |blobs| && Matches(search, blobs[i].name) ==>
      ItemOf(blobs[i], metadata, now, urlOf) in ListImages(blobs, metadata, search, now, urlOf)
  {
    CollectMembers(blobs, metadata, search, now, urlOf);
    var items := Collect(blobs, metadata, search, now, urlOf);
    var r := ListImages(blobs, metadata, search, now, urlOf);
    forall item | item in r
      ensures item in items
    {
      assert item in multiset(r);
    }
    forall i | 0 <= i < |blobs| && Matches(search, blobs[i].name)
      ensures ItemOf(blobs[i], metadata, now, urlOf) in r
    {
      assert ItemOf(blobs[i], metadata, now, urlOf) in multiset(items);
    }
  }
}
