/** What FETCH of a part sends, said of the fields of the message. */
module FetchMeaning {
  import opened Text
  import opened Fields
  import opened Summary
  import opened Batch
  import opened Agreement
  import opened Archive
  import Fetch

  /** Where a path leads among the fields: nowhere, to a part without any field, or to a part. */
  datatype Place = Nowhere | NoFields | Found(fields: seq<string>)

  /** The sub-parts of a part are the ranges of its body. Numbers that are not positive are skipped. */
  function PlaceOf(d: Decoder, fields: seq<string>, path: seq<int>): Place
    decreases |path|
  {
    if path != [] && path[0] <= 0 then PlaceOf(d, fields, path[1..])
    else if fields == [] then NoFields
    else if path == [] then Found(fields)
    else
      var k := FirstBlank(fields);
      if k + 1 >= |fields| then Nowhere
      else
        var body := fields[k + 1..];
        var rs := StreamScan(BoundaryIn(LastType(d, fields[..k])), body).ranges;
        if |rs| < path[0] then Nowhere
        else PlaceOf(d, body[rs[path[0] - 1].0..rs[path[0] - 1].1], path[1..])
  }

  /** What stands behind the header. */
  function BodyText(fields: seq<string>): string {
    var k := FirstBlank(fields);
    if k < |fields| then Concat(fields[k + 1..]) else ""
  }

  function Loaded(d: Decoder, off: nat, fields: seq<string>): LoadedPart {
    LoadPart(SavePart(Feed(d, NewPart(off), fields)))
  }

  // ---- one part ----

  lemma NothingLoaded(d: Decoder, off: nat)
    ensures Loaded(d, off, []).data == None
  {
    hide LoadPart, SavePart;
    ShapeOfSaved(NewPart(off));
  }

  lemma HeaderLoaded(d: Decoder, off: nat, fields: seq<string>)
    requires fields != [] && FirstBlank(fields) + 1 >= |fields|
    ensures var p := Loaded(d, off, fields);
            p.data.Some? && p.data.value.blk.beg == p.data.value.blk.end && p.data.value.parts == []
  {
    hide LoadPart, SavePart, LoadHeader, SaveHeader, Feed, Wrap32, FirstBlank;
    HeaderRun(d, off, fields);
    ShapeOfSaved(Feed(d, NewPart(off), fields));
  }

  lemma SubLoaded(d: Decoder, off: nat, body: seq<string>, r: (nat, nat))
    requires r.0 <= r.1 <= |body|
    ensures LoadPart(SavePart(PartAt(d, off, body, r))) == Loaded(d, off + |Concat(body[..r.0])|, body[r.0..r.1])
  {
    hide LoadPart, SavePart, Feed, Concat;
  }

  lemma SubsLoaded(d: Decoder, off: nat, body: seq<string>, rs: seq<(nat, nat)>)
    requires forall r | r in rs :: r.0 <= r.1 <= |body|
    ensures var loaded := LoadParts(From(SaveParts(Parts(d, off, body, rs)), "MIME"));
            && |loaded| == |rs|
            && forall i | 0 <= i < |rs| ::
                 loaded[i] == Loaded(d, off + |Concat(body[..rs[i].0])|, body[rs[i].0..rs[i].1])
  {
    hide LoadPart, SavePart, LoadParts, SaveParts, From, Parts, PartAt, Loaded, Concat;
    PartsCount(d, off, body, rs);
    Fetch.LoadedParts(Parts(d, off, body, rs));
    forall i | 0 <= i < |rs|
      ensures LoadParts(From(SaveParts(Parts(d, off, body, rs)), "MIME"))[i]
           == Loaded(d, off + |Concat(body[..rs[i].0])|, body[rs[i].0..rs[i].1])
    {
      SubLoaded(d, off, body, rs[i]);
    }
  }

  lemma DataLoaded(d: Decoder, off: nat, fields: seq<string>)
    ensures var data := Feed(d, NewPart(off), fields).data;
            data.Some? ==>
              Loaded(d, off, fields).data ==
              Some(LoadedData(Stored(data.value.blk), LoadParts(From(SaveParts(data.value.closed), "MIME"))))
  {
    hide LoadPart, SavePart, LoadHeader, SaveHeader, LoadParts, SaveParts, From, Feed, Stored;
    ShapeOfSaved(Feed(d, NewPart(off), fields));
  }

  lemma BodyLoaded(d: Decoder, off: nat, fields: seq<string>, k: nat, body: seq<string>)
    requires k == FirstBlank(fields) && k + 1 < |fields| && body == fields[k + 1..]
    ensures var data, head := Loaded(d, off, fields).data, off + |Concat(fields[..k + 1])|;
            var rs := StreamScan(BoundaryIn(LastType(d, fields[..k])), body).ranges;
            && data.Some? && data.value.blk == Stored(BlockAt(head, body))
            && |data.value.parts| == |rs|
            && forall i | 0 <= i < |rs| ::
                 data.value.parts[i] == Loaded(d, head + |Concat(body[..rs[i].0])|, body[rs[i].0..rs[i].1])
  {
    hide Loaded, LoadParts, SaveParts, From, Feed, Parts, Concat, Stored, FirstBlank, StreamScan, LastType, BoundaryIn;
    DataShape(d, off, fields, k, body);
    DataLoaded(d, off, fields);
    var rs := StreamScan(BoundaryIn(LastType(d, fields[..k])), body).ranges;
    SubsLoaded(d, off + |Concat(fields[..k + 1])|, body, rs);
  }

  /** Where the fields [lo, hi) of a body stand in the text. */
  lemma RangeStands(text: string, off: nat, body: seq<string>, lo: nat, hi: nat)
    requires lo <= hi <= |body| && At(text, off, Concat(body))
    ensures At(text, off + |Concat(body[..lo])|, Concat(body[lo..hi]))
    ensures off + |Concat(body[..lo])| + |Concat(body[lo..hi])| <= |text|
  {
    hide Concat, At;
    var before, range, after := body[..lo], body[lo..hi], body[hi..];
    assert body == before + (range + after);
    ConcatAppend(before, range + after);
    ConcatAppend(range, after);
    AtHalves(text, off, Concat(before), Concat(range) + Concat(after));
    AtHalves(text, off + |Concat(before)|, Concat(range), Concat(after));
    AtSlice(text, off + |Concat(before)|, Concat(range));
  }

  lemma HeaderStands(text: string, off: nat, fields: seq<string>, k: nat)
    requires k < |fields| && At(text, off, Concat(fields))
    ensures At(text, off + |Concat(fields[..k + 1])|, Concat(fields[k + 1..]))
    ensures off + |Concat(fields)| <= |text|
  {
    hide Concat, At;
    AtSlice(text, off, Concat(fields));
    RangeStands(text, off, fields, k + 1, |fields|);
    assert fields[k + 1..|fields|] == fields[k + 1..];
  }

  lemma RangeSliced(text: string, head: nat, body: seq<string>)
    requires At(text, head, Concat(body)) && |text| < TWO_32
    ensures var b := Stored(BlockAt(head, body));
            b.beg <= b.end && Fetch.Slice(text, b.beg, b.end) == Concat(body)
  {
    hide Concat;
    AtSlice(text, head, Concat(body));
  }

  // ---- the part at a path ----

  /** What the walk through the loaded summary has to find at a place. */
  ghost predicate Finds(text: string, place: Place, found: Fetch.Found) {
    match place
    case Nowhere => found == Fetch.Missing
    case NoFields => found == Fetch.NullData
    case Found(fields) =>
      found.At? && found.part.data.Some? &&
      var blk := found.part.data.value.blk;
      blk.beg <= blk.end && Fetch.Slice(text, blk.beg, blk.end) == BodyText(fields)
  }

  lemma HeaderOnly(text: string, fields: seq<string>, blk: Block)
    requires FirstBlank(fields) + 1 >= |fields| && blk.beg == blk.end
    ensures Fetch.Slice(text, blk.beg, blk.end) == BodyText(fields)
  {
    hide FirstBlank;
    assert Concat([]) == "";
  }

  lemma {:induction false} WalkFinds(d: Decoder, text: string, off: nat, fields: seq<string>, path: seq<int>)
    requires At(text, off, Concat(fields)) && |text| < TWO_32
    ensures Finds(text, PlaceOf(d, fields, path), Fetch.Walk(Loaded(d, off, fields), path))
    decreases |path|
  {
    hide Concat, At, Loaded, LastType, StreamScan, FirstBlank, Fetch.Slice;
    var k := FirstBlank(fields);
    if path != [] && path[0] <= 0 {
      WalkFinds(d, text, off, fields, path[1..]);
    } else if fields == [] {
      NothingLoaded(d, off);
    } else if k + 1 >= |fields| {
      HeaderLoaded(d, off, fields);
      HeaderOnly(text, fields, Loaded(d, off, fields).data.value.blk);
    } else {
      var body, head := fields[k + 1..], off + |Concat(fields[..k + 1])|;
      var rs := StreamScan(BoundaryIn(LastType(d, fields[..k])), body).ranges;
      BodyLoaded(d, off, fields, k, body);
      HeaderStands(text, off, fields, k);
      if path == [] {
        RangeSliced(text, head, body);
      } else if path[0] <= |rs| {
        var r := rs[path[0] - 1];
        RangeStands(text, head, body, r.0, r.1);
        WalkFinds(d, text, head + |Concat(body[..r.0])|, body[r.0..r.1], path[1..]);
      }
    }
  }

  /** For every letter and path: the walk through the loaded summary finds exactly the part of that
      place among the fields, and its data range is the text behind that part's header. */
  lemma LetterFinds(d: Decoder, text: string, path: seq<int>)
    requires |text| < TWO_32
    ensures Finds(text, PlaceOf(d, Cut(text), path), Fetch.Walk(Loaded(d, 0, Cut(text)), path))
  {
    hide Loaded, Finds, PlaceOf, Cut, Concat;
    CutTiles(text);
    assert text[0..0 + |text|] == text;
    WalkFinds(d, text, 0, Cut(text), path);
  }

  lemma LoadedInside(d: Decoder, text: string)
    requires |text| < TWO_32 - 1
    ensures Fetch.RangesInside(Loaded(d, 0, Cut(text)), |text|)
  {
    hide Fetch.RangesInside, LoadPart, SavePart, Feed, Cut;
    Fetch.LettersAreInside(d, text);
  }

  /** FETCH of a part of a letter: NIL where there is no such part, a null pointer where the part has no
      field, and otherwise the text behind the part's header, each chunk up to its first NUL. */
  method FetchLetter(d: Decoder, text: string, path: seq<int>, accepts: nat -> bool)
    returns (found: Fetch.Found, announced: nat, sent: string, done: nat)
    requires |text| < 0x8000_0000
    ensures match PlaceOf(d, Cut(text), path)
            case Nowhere => found == Fetch.Missing
            case NoFields => found == Fetch.NullData
            case Found(fields) =>
              var t := BodyText(fields);
              && found.At? && announced == |t| && Fetch.Sent(t, accepts, sent, done)
              && ((forall k | 0 <= k < Fetch.Chunks(|t|) :: accepts(k)) ==>
                    (|sent| == announced <==> '\0' !in t) && ('\0' !in t ==> sent == t))
  {
    hide Loaded, PlaceOf, Cut, BodyText, Fetch.Sent, Fetch.Walk, Fetch.RangesInside, Fetch.Slice, Fetch.Chunks;
    var lbuf := new Fetch.DynamicMmap(text);
    var root := Loaded(d, 0, Cut(text));
    LoadedInside(d, text);
    LetterFinds(d, text, path);
    found, announced, sent, done := Fetch.FetchPart(lbuf, root, path, accepts);
  }

  // ---- two markers in a row ----

  const TWICE: seq<string> := [TYPE_FIELD, "\r\n", "--b\r\n", "--b\r\n"]

  lemma TwiceFields()
    ensures Cut(Concat(TWICE)) == TWICE
  {
    hide Cut, Concat;
    forall p | p in TWICE ensures Solid(p) {
      assert p in [TYPE_FIELD, "\r\n", "--b\r\n"];
    }
    FoldingIsUnique(Concat(TWICE), TWICE);
  }

  lemma TwiceScan(d: Decoder)
    requires ReadsMultipart(d)
    ensures FirstBlank(TWICE) == 1 && BoundaryIn(LastType(d, TWICE[..1])) == "b"
    ensures TWICE[2..] == ["--b\r\n", "--b\r\n"]
    ensures StreamScan("b", ["--b\r\n", "--b\r\n"]).ranges == [(1, 1)]
  {
    hide EqualsIgnoreCase, StreamScan, BatchScan, BeginMarker, EndMarker;
    assert |TYPE_FIELD| == 17 && |"\r\n"| == 2;
    FirstBlankUnique(TWICE, 1);
    TypeIs();
    assert TWICE[..1] == [TYPE_FIELD] && TWICE[..1][..0] == [];
    LateMarks();
    EmptyScans();
    ScanSnoc("b", [], "--b\r\n");
    ScanSnoc("b", ["--b\r\n"], "--b\r\n");
    assert [] + ["--b\r\n"] == ["--b\r\n"] && ["--b\r\n"] + ["--b\r\n"] == ["--b\r\n", "--b\r\n"];
  }

  lemma TwicePlace(d: Decoder)
    requires ReadsMultipart(d)
    ensures PlaceOf(d, TWICE, [1]) == NoFields
  {
    hide FirstBlank, LastType, StreamScan, ReadsMultipart, BoundaryIn;
    TwiceScan(d);
    var body: seq<string> := ["--b\r\n", "--b\r\n"];
    var path := [1];
    assert body[1..1] == [] && path[1..] == [];
  }

  lemma TwiceIsShort()
    ensures |Concat(TWICE)| < TWO_32
  {
    ConcatCons(TYPE_FIELD, TWICE[1..]);
    ConcatCons("\r\n", TWICE[2..]);
    ConcatCons("--b\r\n", TWICE[3..]);
    ConcatCons("--b\r\n", []);
  }

  /** For any decoder that takes the type field for a multipart with boundary "b": the part between two
      markers in a row is met as a null pointer. */
  lemma MarkersInARow(d: Decoder)
    requires ReadsMultipart(d)
    ensures Fetch.Walk(Loaded(d, 0, Cut(Concat(TWICE))), [1]).NullData?
  {
    hide Loaded, Cut, Concat, PlaceOf, ReadsMultipart, Fetch.Walk;
    TwiceFields();
    TwicePlace(d);
    TwiceIsShort();
    LetterFinds(d, Concat(TWICE), [1]);
  }
}
