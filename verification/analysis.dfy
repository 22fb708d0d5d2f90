/** The metadata record the worker stores for an analysed image, how it is
    derived from the service's response, and the JSON document the
    serializer writes for it. */
module Analysis {
  import opened Wrappers
  import opened Vision
  import Json
  import Decimal

  /** One detected object as stored: its first tag's name and confidence,
      both absent when it has no tags, and its box. */
  datatype ObjectRecord = ObjectRecord(name: Option<string>, confidence: Option<Score>, boundingBox: BoundingBox)

  datatype AnalysisRecord = AnalysisRecord(
    blob: string,
    description: Option<string>,
    tags: Option<seq<string>>,
    objects: Option<seq<ObjectRecord>>,
    text: Option<string>)

  // ---------------------------------------------------------------------
  // Mapping the response

  function TagNames(tags: seq<DetectedTag>): (r: seq<string>)
    ensures |r| == |tags|
    ensures forall i :: 0 <= i < |tags| ==> r[i] == tags[i].name
  {
    if |tags| == 0 then [] else [tags[0].name] + TagNames(tags[1..])
  }

  function ObjectOf(o: DetectedObject): ObjectRecord {
    if |o.tags| == 0 then ObjectRecord(None, None, o.boundingBox)
    else ObjectRecord(Some(o.tags[0].name), Some(o.tags[0].confidence), o.boundingBox)
  }

  function ObjectRecords(objects: seq<DetectedObject>): (r: seq<ObjectRecord>)
    ensures |r| == |objects|
    ensures forall i :: 0 <= i < |objects| ==> r[i] == ObjectOf(objects[i])
  {
    if |objects| == 0 then [] else [ObjectOf(objects[0])] + ObjectRecords(objects[1..])
  }

  function LineTexts(lines: seq<Line>): (r: seq<string>)
    ensures |r| == |lines|
    ensures forall i :: 0 <= i < |lines| ==> r[i] == lines[i].text
  {
    if |lines| == 0 then [] else [lines[0].text] + LineTexts(lines[1..])
  }

  /** The text of every line of every block, in reading order. */
  function Lines(blocks: seq<Block>): seq<string> {
    if |blocks| == 0 then [] else LineTexts(blocks[0].lines) + Lines(blocks[1..])
  }

  /** Flattening distributes over consecutive runs of blocks. */
  lemma {:induction false} LinesAppend(a: seq<Block>, b: seq<Block>)
    ensures Lines(a + b) == Lines(a) + Lines(b)
  {
    if |a| > 0 {
      assert (a + b)[0] == a[0];
      assert (a + b)[1..] == a[1..] + b;
      LinesAppend(a[1..], b);
      var head := LineTexts(a[0].lines);
      assert Lines(a + b) == head + (Lines(a[1..]) + Lines(b));
      assert head + (Lines(a[1..]) + Lines(b)) == (head + Lines(a[1..])) + Lines(b);
    } else {
      assert a + b == b;
    }
  }

  /** `string.Join(" ", xs)`. */
  function JoinSpace(xs: seq<string>): (r: string)
    ensures |xs| == 0 ==> r == ""
    ensures |xs| == 1 ==> r == xs[0]
  {
    if |xs| == 0 then ""
    else if |xs| == 1 then xs[0]
    else xs[0] + " " + JoinSpace(xs[1..])
  }

  /** Splitting at every space: the inverse of `JoinSpace` on words that
      hold no space. */
  function SplitSpace(s: string): (r: seq<string>)
    ensures |r| > 0
  {
    if |s| == 0 then [""]
    else
      var t := SplitSpace(s[1..]);
      if s[0] == ' ' then [""] + t else [[s[0]] + t[0]] + t[1..]
  }

  predicate NoSpace(w: string) {
    forall i :: 0 <= i < |w| ==> w[i] != ' '
  }

  lemma {:induction false} SplitWord(w: string, rest: string)
    requires NoSpace(w)
    ensures SplitSpace(w + rest) == [w + SplitSpace(rest)[0]] + SplitSpace(rest)[1..]
  {
    if |w| > 0 {
      assert (w + rest)[0] == w[0];
      assert (w + rest)[1..] == w[1..] + rest;
      SplitWord(w[1..], rest);
      assert [w[0]] + (w[1..] + SplitSpace(rest)[0]) == w + SplitSpace(rest)[0];
    } else {
      var t := SplitSpace(rest);
      assert w + rest == rest;
      assert w + t[0] == t[0];
      assert t == [t[0]] + t[1..];
    }
  }

  /** Joined words with no space in them split back into the same words. */
  lemma {:induction false} SplitJoin(xs: seq<string>)
    requires |xs| > 0
    requires forall i :: 0 <= i < |xs| ==> NoSpace(xs[i])
    ensures SplitSpace(JoinSpace(xs)) == xs
  {
    if |xs| == 1 {
      SplitWord(xs[0], "");
      assert xs[0] + "" == xs[0];
    } else {
      var rest := JoinSpace(xs[1..]);
      SplitJoin(xs[1..]);
      assert xs[0] + " " + rest == xs[0] + (" " + rest);
      SplitWord(xs[0], " " + rest);
      assert (" " + rest)[1..] == rest;
      assert SplitSpace(" " + rest) == [""] + xs[1..];
      assert xs[0] + "" == xs[0];
      assert xs == [xs[0]] + xs[1..];
    }
  }

  /** The length of a join: every word plus one separator between each
      two. */
  lemma {:induction false} JoinSpaceLength(xs: seq<string>)
    requires |xs| > 0
    ensures |JoinSpace(xs)| == TotalLength(xs) + |xs| - 1
  {
    if |xs| > 1 {
      JoinSpaceLength(xs[1..]);
    }
  }

  function TotalLength(xs: seq<string>): nat {
    if |xs| == 0 then 0 else |xs[0]| + TotalLength(xs[1..])
  }

  /** `ProcessMessageAsync`'s projection of the response onto the record:
      the caption's text, the tag names in order, one entry per detected
      object, and the read lines joined by single spaces. */
  function MapResult(blob: string, res: AnalysisResult): (r: AnalysisRecord)
    ensures r.blob == blob
    ensures r.description.Some? <==> res.caption.Some?
    ensures res.caption.Some? ==> r.description == Some(res.caption.value.text)
    ensures r.tags.Some? <==> res.tags.Some?
    ensures res.tags.Some? ==>
      |r.tags.value| == |res.tags.value| && forall i :: 0 <= i < |res.tags.value| ==> r.tags.value[i] == res.tags.value[i].name
    ensures r.objects.Some? <==> res.objects.Some?
    ensures res.objects.Some? ==> |r.objects.value| == |res.objects.value|
    ensures r.text.Some? <==> res.read.Some?
  {
    AnalysisRecord(
      blob,
      if res.caption.Some? then Some(res.caption.value.text) else None,
      if res.tags.Some? then Some(TagNames(res.tags.value)) else None,
      if res.objects.Some? then Some(ObjectRecords(res.objects.value)) else None,
      if res.read.Some? then Some(JoinSpace(Lines(res.read.value.blocks))) else None)
  }

  /** Every stored object keeps its box and takes name and confidence from
      the first of its tags, or has neither when it has no tags. */
  lemma MappedObject(blob: string, res: AnalysisResult, i: int)
    requires res.objects.Some? && 0 <= i < |res.objects.value|
    ensures var o, r := res.objects.value[i], MapResult(blob, res).objects.value[i];
      && r.boundingBox == o.boundingBox
      && (|o.tags| == 0 <==> r.name.None?)
      && (|o.tags| == 0 ==> r.confidence.None?)
      && (|o.tags| > 0 ==> r.name == Some(o.tags[0].name) && r.confidence == Some(o.tags[0].confidence))
  {
  }

  /** The stored text is the read result's lines, in order, separated by one
      space each: lines without spaces can be recovered from it. */
  lemma MappedText(blob: string, res: AnalysisResult)
    requires res.read.Some?
    ensures MapResult(blob, res).text == Some(JoinSpace(Lines(res.read.value.blocks)))
    ensures var lines := Lines(res.read.value.blocks);
      |lines| > 0 && (forall i :: 0 <= i < |lines| ==> NoSpace(lines[i])) ==>
        SplitSpace(MapResult(blob, res).text.value) == lines
  {
    var lines := Lines(res.read.value.blocks);
    if |lines| > 0 && forall i :: 0 <= i < |lines| ==> NoSpace(lines[i]) {
      SplitJoin(lines);
    }
  }

  /** Two lines in one block become "HELLO WORLD". */
  lemma HelloWorld(blob: string)
    ensures var res := AnalysisResult(None, None, None, Some(ReadResult([Block([Line("HELLO"), Line("WORLD")])])));
      MapResult(blob, res).text == Some("HELLO WORLD")
  {
    var blocks := [Block([Line("HELLO"), Line("WORLD")])];
    var res := AnalysisResult(None, None, None, Some(ReadResult(blocks)));
    assert LineTexts(blocks[0].lines) == ["HELLO", "WORLD"];
    assert Lines(blocks[1..]) == [];
    assert Lines(blocks) == ["HELLO", "WORLD"];
    assert JoinSpace(["HELLO", "WORLD"]) == "HELLO" + " " + "WORLD";
    assert "HELLO" + " " + "WORLD" == "HELLO WORLD";
    assert MapResult(blob, res).text == Some(JoinSpace(Lines(blocks)));
  }

  /** A read result without lines gives the empty text, not an absent one. */
  lemma EmptyRead(blob: string, blocks: seq<Block>)
    requires forall i :: 0 <= i < |blocks| ==> blocks[i].lines == []
    ensures MapResult(blob, AnalysisResult(None, None, None, Some(ReadResult(blocks)))).text == Some("")
  {
    EmptyLines(blocks);
  }

  lemma {:induction false} EmptyLines(blocks: seq<Block>)
    requires forall i :: 0 <= i < |blocks| ==> blocks[i].lines == []
    ensures Lines(blocks) == []
  {
    if |blocks| > 0 {
      EmptyLines(blocks[1..]);
    }
  }

  // ---------------------------------------------------------------------
  // The serialized record

  function OptionalText(o: Option<string>): (j: Json.Json)
    ensures j.Null? <==> o.None?
  {
    if o.Some? then Json.Str(o.value) else Json.Null
  }

  function Texts(xs: seq<string>): (r: seq<Json.Json>)
    ensures |r| == |xs|
    ensures forall i :: 0 <= i < |xs| ==> r[i] == Json.Str(xs[i])
  {
    if |xs| == 0 then [] else [Json.Str(xs[0])] + Texts(xs[1..])
  }

  /** The box as four integer members, each written so that it reads back
      as its coordinate. */
  function BoxJson(b: BoundingBox): (j: Json.Json)
    ensures j.Obj? && |j.members| == 4
    ensures j.members[0].0 == "X" && j.members[1].0 == "Y" && j.members[2].0 == "Width" && j.members[3].0 == "Height"
    ensures forall i :: 0 <= i < 4 ==> j.members[i].1.Number?
    ensures Decimal.Denotes(j.members[0].1.lexeme, b.x) && Decimal.Denotes(j.members[1].1.lexeme, b.y)
    ensures Decimal.Denotes(j.members[2].1.lexeme, b.width) && Decimal.Denotes(j.members[3].1.lexeme, b.height)
  {
    Decimal.IntRoundTrip(b.x);
    Decimal.IntRoundTrip(b.y);
    Decimal.IntRoundTrip(b.width);
    Decimal.IntRoundTrip(b.height);
    Json.Obj([
      ("X", Json.Number(Decimal.IntText(b.x))),
      ("Y", Json.Number(Decimal.IntText(b.y))),
      ("Width", Json.Number(Decimal.IntText(b.width))),
      ("Height", Json.Number(Decimal.IntText(b.height)))])
  }

  /** One stored object: its name or null, its confidence as the service's
      number or null, and its box. */
  function ObjectJson(o: ObjectRecord): (j: Json.Json)
    ensures j.Obj? && |j.members| == 3
    ensures j.members[0] == ("Name", OptionalText(o.name))
    ensures j.members[1].0 == "Confidence"
    ensures j.members[1].1.Null? <==> o.confidence.None?
    ensures o.confidence.Some? ==> j.members[1].1 == Json.Number(o.confidence.value.lexeme)
    ensures j.members[2] == ("BoundingBox", BoxJson(o.boundingBox))
  {
    Json.Obj([
      ("Name", OptionalText(o.name)),
      ("Confidence", if o.confidence.Some? then Json.Number(o.confidence.value.lexeme) else Json.Null),
      ("BoundingBox", BoxJson(o.boundingBox))])
  }

  function ObjectsJson(os: seq<ObjectRecord>): (r: seq<Json.Json>)
    ensures |r| == |os|
    ensures forall i :: 0 <= i < |os| ==> r[i] == ObjectJson(os[i])
  {
    if |os| == 0 then [] else [ObjectJson(os[0])] + ObjectsJson(os[1..])
  }

  /** The document `JsonSerializer.Serialize` writes for the record: the
      anonymous type's properties in declaration order, each name once,
      and a missing field written as a JSON null rather than left out. */
  function RecordJson(r: AnalysisRecord): (j: Json.Json)
    ensures j.Obj? && |j.members| == 5
    ensures j.members[0].0 == "blob" && j.members[1].0 == "description" && j.members[2].0 == "tags"
         && j.members[3].0 == "objects" && j.members[4].0 == "text"
    ensures j.members[0].1 == Json.Str(r.blob)
    ensures j.members[1].1.Null? <==> r.description.None?
    ensures j.members[2].1.Null? <==> r.tags.None?
    ensures j.members[3].1.Null? <==> r.objects.None?
    ensures j.members[4].1.Null? <==> r.text.None?
    ensures r.tags.Some? ==> j.members[2].1 == Json.Arr(Texts(r.tags.value))
    ensures r.objects.Some? ==> j.members[3].1 == Json.Arr(ObjectsJson(r.objects.value))
    ensures r.text.Some? ==> j.members[4].1 == Json.Str(r.text.value)
  {
    Json.Obj([
      ("blob", Json.Str(r.blob)),
      ("description", OptionalText(r.description)),
      ("tags", if r.tags.Some? then Json.Arr(Texts(r.tags.value)) else Json.Null),
      ("objects", if r.objects.Some? then Json.Arr(ObjectsJson(r.objects.value)) else Json.Null),
      ("text", OptionalText(r.text))])
  }

  /** Reading `description` back from the stored document gives the
      record's description, a JSON null when it has none. */
  lemma ReadDescription(r: AnalysisRecord)
    ensures Json.GetProperty(RecordJson(r), "description") == Success(Some(OptionalText(r.description)))
    ensures Json.GetString(OptionalText(r.description)) == Success(r.description)
  {
    var ms := RecordJson(r).members;
    assert ms[..4][..3] == ms[..3];
    assert Json.LastMember(ms, "description") == Json.LastMember(ms[..4], "description");
    assert Json.LastMember(ms[..4], "description") == Json.LastMember(ms[..3], "description");
    assert Json.LastMember(ms[..3], "description") == Json.LastMember(ms[..2], "description");
  }

  /** Reading `blob` back gives the blob's name. */
  lemma ReadBlob(r: AnalysisRecord)
    ensures Json.GetProperty(RecordJson(r), "blob") == Success(Some(Json.Str(r.blob)))
  {
    var ms := RecordJson(r).members;
    assert ms[..4][..3] == ms[..3];
    assert ms[..3][..2] == ms[..2];
    assert ms[..2][..1] == ms[..1];
    assert Json.LastMember(ms, "blob") == Json.LastMember(ms[..4], "blob");
    assert Json.LastMember(ms[..4], "blob") == Json.LastMember(ms[..3], "blob");
    assert Json.LastMember(ms[..3], "blob") == Json.LastMember(ms[..2], "blob");
    assert Json.LastMember(ms[..2], "blob") == Json.LastMember(ms[..1], "blob");
  }
}
