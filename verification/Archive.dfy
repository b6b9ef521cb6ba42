/** Saving the MIME summary as XML and loading it again (src/letter.cpp): the destructors
    write elements, loadXML reads them back. */
module Archive {
  import opened Text
  import opened Summary

  /** A TinyXML element; attribute values are text. */
  datatype Xml = Xml(name: string, attrs: map<string, string>, children: seq<Xml>)

  // ---- integers as attribute text ----

  /** `(int)u` for an `unsigned int` u, and the way back. */
  function ToInt(u: nat): int {
    if u >= 0x8000_0000 then u - TWO_32 else u
  }

  function ToUnsigned(i: int): nat { Wrap32(i) }

  function Digits(n: nat): string {
    if n < 10 then [n as char + '0'] else Digits(n / 10) + [(n % 10) as char + '0']
  }

  /** "%d". */
  function PrintInt(i: int): string {
    if i < 0 then "-" + Digits(-i) else Digits(i)
  }

  function ReadDigits(s: string, acc: nat): nat {
    if s == "" || !('0' <= s[0] <= '9') then acc
    else ReadDigits(s[1..], 10 * acc + (s[0] - '0') as nat)
  }

  /** atoi, behind the white space. */
  function ParseInt(s: string): int {
    if s == "" then 0
    else if s[0] == '-' then 0 - ReadDigits(s[1..], 0)
    else if s[0] == '+' then ReadDigits(s[1..], 0)
    else ReadDigits(s, 0)
  }

  lemma {:induction false} ReadPrinted(n: nat, rest: string)
    ensures ReadDigits(Digits(n) + rest, 0) == ReadDigits(rest, n)
    ensures Digits(n) != "" && '0' <= Digits(n)[0] <= '9'
  {
    if n < 10 {
      assert (Digits(n) + rest)[1..] == rest;
    } else {
      var last := [(n % 10) as char + '0'];
      assert Digits(n) + rest == Digits(n / 10) + (last + rest);
      ReadPrinted(n / 10, last + rest);
      assert (last + rest)[1..] == rest;
    }
  }

  lemma PrintParse(i: int)
    ensures ParseInt(PrintInt(i)) == i
  {
    var n := if i < 0 then -i else i;
    ReadPrinted(n, "");
    assert Digits(n) + "" == Digits(n);
    if i < 0 {
      assert ("-" + Digits(n))[1..] == Digits(n);
    }
  }

  /** Every 32-bit counter survives, also beyond 2^31. */
  lemma CounterSurvives(u: nat)
    requires u < TWO_32
    ensures ToUnsigned(ParseInt(PrintInt(ToInt(u)))) == u
    ensures -0x8000_0000 <= ToInt(u) < 0x8000_0000 && (ToInt(u) - u) % 0x1_0000_0000 == 0
  {
    PrintParse(ToInt(u));
  }

  // ---- saving ----

  function SaveBlock(b: Block): map<string, string> {
    map["beg" := PrintInt(ToInt(Wrap32(b.beg))),
        "end" := PrintInt(ToInt(Wrap32(b.end))),
        "linenumber" := PrintInt(ToInt(Wrap32(b.lines)))]
  }

  function ElementName(k: Kind): string {
    match k
    case ContentType => "contentType"
    case ContentID => "contentID"
    case ContentClass => "contentClass"
    case TransferEncoding => "contentTransferEncoding"
    case ContentDisposition => "contentDisposition"
  }

  function SaveAttr(k: Kind, v: Value): Xml {
    Xml(ElementName(k),
        match v
        case TypeValue(t1, t2, b, c, n) =>
          map["type1" := t1, "type2" := t2, "boundary" := b, "charset" := c, "filename" := n]
        case TextValue(t) => map["value" := t]
        case DispositionValue(t, n) => map["disposition" := t, "filename" := n],
        [])
  }

  function SaveAttrs(seen: seq<(Kind, Value)>): seq<Xml> {
    if seen == [] then [] else [SaveAttr(seen[0].0, seen[0].1)] + SaveAttrs(seen[1..])
  }

  function SaveHeader(h: Header): Xml {
    Xml("MIMEHeader", SaveBlock(h.blk), SaveAttrs(h.seen))
  }

  /** A header without data is given an empty data block behind its end. */
  function SavePart(p: Part): Xml
    decreases p
  {
    var header := match p.header case None => [] case Some(h) => [SaveHeader(h)];
    var data :=
      match p.data
      case Some(s) => [Xml("MIMEData", SaveBlock(s.blk), SaveParts(s.closed))]
      case None =>
        match p.header
        case None => []
        case Some(h) => [Xml("MIMEData", SaveBlock(NewBlock(h.blk.end + 1)), [])];
    Xml("MIME", SaveBlock(p.blk), header + data)
  }

  /** Only closed parts are deleted, and so written. */
  function SaveParts(ps: seq<Part>): seq<Xml>
    decreases ps
  {
    if ps == [] then [] else [SavePart(ps[0])] + SaveParts(ps[1..])
  }

  // ---- loading ----

  datatype LoadedHeader = LoadedHeader(blk: Block, attrs: map<Kind, Value>)

  datatype LoadedData = LoadedData(blk: Block, parts: seq<LoadedPart>)

  datatype LoadedPart = LoadedPart(blk: Block, header: Option<LoadedHeader>, data: Option<LoadedData>)

  function TextAttr(x: Xml, name: string): string {
    if name in x.attrs then x.attrs[name] else ""
  }

  function IntAttr(x: Xml, name: string): nat {
    if name in x.attrs then ToUnsigned(ParseInt(x.attrs[name])) else 0
  }

  function LoadBlock(x: Xml): Block {
    Block(IntAttr(x, "beg"), IntAttr(x, "end"), IntAttr(x, "linenumber"))
  }

  /** The children from the first one of that name on. */
  function From(children: seq<Xml>, name: string): (r: seq<Xml>)
    ensures |r| <= |children| && r == children[|children| - |r|..]
  {
    if children == [] || children[0].name == name then children else From(children[1..], name)
  }

  function FirstChild(x: Xml, name: string): Option<Xml> {
    var cs := From(x.children, name);
    if cs == [] then None else Some(cs[0])
  }

  function LoadAttr(k: Kind, x: Xml): Value {
    match k
    case ContentType =>
      TypeValue(TextAttr(x, "type1"), TextAttr(x, "type2"), TextAttr(x, "boundary"),
                TextAttr(x, "charset"), TextAttr(x, "filename"))
    case ContentDisposition => DispositionValue(TextAttr(x, "disposition"), TextAttr(x, "filename"))
    case _ => TextValue(TextAttr(x, "value"))
  }

  const KINDS := {ContentType, ContentID, ContentClass, TransferEncoding, ContentDisposition}

  function LoadHeader(x: Xml): LoadedHeader {
    LoadedHeader(LoadBlock(x), map k | k in KINDS && FirstChild(x, ElementName(k)).Some? ::
                                 LoadAttr(k, FirstChild(x, ElementName(k)).value))
  }

  function LoadPart(x: Xml): LoadedPart
    decreases x
  {
    LoadedPart(LoadBlock(x),
      (match FirstChild(x, "MIMEHeader") case None => None case Some(h) => Some(LoadHeader(h))),
      (match FirstChild(x, "MIMEData")
       case None => None
       case Some(s) => assert s in x.children; Some(LoadedData(LoadBlock(s), LoadParts(From(s.children, "MIME"))))))
  }

  function LoadParts(xs: seq<Xml>): seq<LoadedPart>
    decreases xs
  {
    if xs == [] then [] else [LoadPart(xs[0])] + LoadParts(xs[1..])
  }

  // ---- what loading ought to give back ----

  /** The summary as a reader sees it: counters as stored, parts never closed dropped, and an
      empty data block for a part that is only a header. */
  function View(p: Part): LoadedPart
    decreases p
  {
    LoadedPart(Stored(p.blk),
      (match p.header case None => None case Some(h) => Some(LoadedHeader(Stored(h.blk), h.attrs))),
      (match p.data
       case Some(s) => Some(LoadedData(Stored(s.blk), Views(s.closed)))
       case None =>
         match p.header
         case None => None
         case Some(h) => Some(LoadedData(Stored(NewBlock(h.blk.end + 1)), []))))
  }

  function Views(ps: seq<Part>): seq<LoadedPart>
    decreases ps
  {
    if ps == [] then [] else [View(ps[0])] + Views(ps[1..])
  }

  function FirstOf(seen: seq<(Kind, Value)>, k: Kind): Option<Value> {
    if seen == [] then None
    else if seen[0].0 == k then Some(seen[0].1)
    else FirstOf(seen[1..], k)
  }

  function LastOf(seen: seq<(Kind, Value)>, k: Kind): Option<Value> {
    if seen == [] then None
    else if seen[|seen| - 1].0 == k then Some(seen[|seen| - 1].1)
    else LastOf(seen[..|seen| - 1], k)
  }

  /** A repeated attribute field says last what it said first. */
  predicate Steady(h: Header) {
    forall k | k in KINDS :: FirstOf(h.seen, k) == LastOf(h.seen, k)
  }

  predicate SteadyPart(p: Part)
    decreases p
  {
    && (p.header.Some? ==> Steady(p.header.value))
    && (p.data.Some? ==> forall q | q in p.data.value.closed :: SteadyPart(q))
  }

  // ---- what every run keeps: attrs are the last of what was seen ----

  predicate Shaped(k: Kind, v: Value) {
    match k
    case ContentType => v.TypeValue?
    case ContentDisposition => v.DispositionValue?
    case _ => v.TextValue?
  }

  ghost predicate Tracked(h: Header) {
    && (forall x | x in h.seen :: Shaped(x.0, x.1))
    && forall k :: if LastOf(h.seen, k).Some? then k in h.attrs && h.attrs[k] == LastOf(h.seen, k).value
                   else k !in h.attrs
  }

  ghost predicate TrackedPart(p: Part)
    decreases p, 0
  {
    && (p.header.Some? ==> Tracked(p.header.value))
    && (p.data.Some? ==> TrackedData(p.data.value))
  }

  ghost predicate TrackedData(s: Data)
    decreases s, 0
  {
    && (forall q | q in s.closed :: TrackedPart(q))
    && (s.open.Some? ==> TrackedPart(s.open.value))
  }

  lemma HeaderStepTracked(d: Decoder, h: Header, field: string)
    requires Tracked(h)
    ensures Tracked(HeaderStep(d, h, field))
  {
    hide KindOf;
    var kind := KindOf(field);
    if kind.Some? {
      var x := (kind.value, Decode(d, kind.value, field));
      assert (h.seen + [x])[..|h.seen|] == h.seen;
    }
  }

  lemma FreshTracked(p: Part)
    requires TrackedPart(p)
    ensures Tracked(HeaderOf(p)) && TrackedData(DataOf(p))
  {
  }

  lemma {:induction false} PartStepTracked(d: Decoder, p: Part, field: string)
    requires TrackedPart(p)
    ensures TrackedPart(PartStep(d, p, field))
    decreases PartDepth(p), 0
  {
    hide HeaderStep, Tracked;
    FreshTracked(p);
    if p.inHeader {
      HeaderStepTracked(d, HeaderOf(p), field);
    } else {
      DataStepTracked(d, DataOf(p), field);
    }
  }

  lemma {:induction false} DataStepTracked(d: Decoder, s: Data, field: string)
    requires TrackedData(s)
    ensures TrackedData(DataStep(d, s, field))
    decreases DataDepth(s), 1
  {
    if s.boundary != "" && !IsMarker(s.boundary, field) && s.open.Some? {
      PartStepTracked(d, s.open.value, field);
    }
  }

  lemma {:induction false} FeedTracked(d: Decoder, p: Part, fields: seq<string>)
    requires TrackedPart(p)
    ensures TrackedPart(Feed(d, p, fields))
    decreases |fields|
  {
    hide PartStep, TrackedPart;
    if fields != [] {
      PartStepTracked(d, p, fields[0]);
      FeedTracked(d, PartStep(d, p, fields[0]), fields[1..]);
    }
  }

  // ---- the round trip ----

  lemma BlockRoundTrip(name: string, b: Block, children: seq<Xml>)
    ensures LoadBlock(Xml(name, SaveBlock(b), children)) == Stored(b)
  {
    hide PrintInt, ParseInt, ToUnsigned, ToInt;
    CounterSurvives(Wrap32(b.beg));
    CounterSurvives(Wrap32(b.end));
    CounterSurvives(Wrap32(b.lines));
  }

  lemma NamesDiffer(j: Kind, k: Kind)
    ensures ElementName(j) == ElementName(k) ==> j == k
  {
    assert |"contentType"| == 11 && |"contentID"| == 9 && |"contentClass"| == 12;
    assert |"contentTransferEncoding"| == 23 && |"contentDisposition"| == 18;
  }

  lemma AttrRoundTrip(k: Kind, v: Value)
    requires Shaped(k, v)
    ensures LoadAttr(k, SaveAttr(k, v)) == v
  {
  }

  lemma NothingFrom(name: string)
    ensures From([], name) == []
  {
  }

  lemma FromCons(c: Xml, cs: seq<Xml>, name: string)
    ensures From([c] + cs, name) == if c.name == name then [c] + cs else From(cs, name)
  {
    assert ([c] + cs)[1..] == cs;
  }

  lemma SavedName(k: Kind, v: Value)
    ensures SaveAttr(k, v).name == ElementName(k)
  {
  }

  /** loadXML takes the first child of each name. */
  lemma {:induction false} FirstSaved(seen: seq<(Kind, Value)>, k: Kind)
    ensures var cs := From(SaveAttrs(seen), ElementName(k));
            match FirstOf(seen, k) case None => cs == [] case Some(v) => cs != [] && cs[0] == SaveAttr(k, v)
  {
    hide ElementName, SaveAttr, From;
    if seen == [] {
      NothingFrom(ElementName(k));
    } else {
      NamesDiffer(seen[0].0, k);
      SavedName(seen[0].0, seen[0].1);
      FirstSaved(seen[1..], k);
      FromCons(SaveAttr(seen[0].0, seen[0].1), SaveAttrs(seen[1..]), ElementName(k));
    }
  }

  lemma {:induction false} FirstSome(seen: seq<(Kind, Value)>, k: Kind)
    ensures FirstOf(seen, k).Some? <==> exists x :: x in seen && x.0 == k
    ensures FirstOf(seen, k).Some? ==> (k, FirstOf(seen, k).value) in seen
  {
    if seen != [] {
      FirstSome(seen[1..], k);
      assert seen == [seen[0]] + seen[1..];
    }
  }

  lemma {:induction false} LastSome(seen: seq<(Kind, Value)>, k: Kind)
    ensures LastOf(seen, k).Some? <==> exists x :: x in seen && x.0 == k
  {
    if seen != [] {
      var n := |seen| - 1;
      LastSome(seen[..n], k);
      assert seen == seen[..n] + [seen[n]];
    }
  }

  lemma {:induction false} FirstIsSeen(seen: seq<(Kind, Value)>, k: Kind)
    ensures FirstOf(seen, k).Some? ==> (k, FirstOf(seen, k).value) in seen
    ensures FirstOf(seen, k).Some? <==> LastOf(seen, k).Some?
  {
    FirstSome(seen, k);
    LastSome(seen, k);
  }

  lemma AllKinds(k: Kind)
    ensures k in KINDS
  {
    match k {
      case ContentType =>
      case ContentID =>
      case ContentClass =>
      case TransferEncoding =>
      case ContentDisposition =>
    }
  }

  /** For each kind, what is loaded is the first that was seen. */
  lemma LoadedAttr(h: Header, k: Kind)
    requires Tracked(h)
    ensures var loaded := LoadHeader(SaveHeader(h)).attrs;
            if FirstOf(h.seen, k).Some? then k in loaded && loaded[k] == FirstOf(h.seen, k).value
            else k !in loaded
    ensures FirstOf(h.seen, k).Some? <==> k in h.attrs
  {
    hide SaveBlock, LoadBlock, ElementName, SaveAttr, LoadAttr, From, FirstOf, LastOf;
    AllKinds(k);
    FirstSaved(h.seen, k);
    FirstIsSeen(h.seen, k);
    if FirstOf(h.seen, k).Some? {
      AttrRoundTrip(k, FirstOf(h.seen, k).value);
    }
  }

  lemma LoadedBlock(h: Header)
    ensures LoadHeader(SaveHeader(h)).blk == Stored(h.blk)
  {
    hide SaveBlock, LoadBlock;
    BlockRoundTrip("MIMEHeader", h.blk, SaveAttrs(h.seen));
  }

  lemma HeaderRoundTrip(h: Header)
    requires Tracked(h)
    ensures LoadHeader(SaveHeader(h)) == LoadedHeader(Stored(h.blk), h.attrs) <==> Steady(h)
  {
    hide LoadHeader, SaveHeader, FirstOf, LastOf;
    LoadedBlock(h);
    var loaded := LoadHeader(SaveHeader(h)).attrs;
    forall k
      ensures if FirstOf(h.seen, k).Some? then k in loaded && loaded[k] == FirstOf(h.seen, k).value
              else k !in loaded
      ensures FirstOf(h.seen, k).Some? <==> k in h.attrs
      ensures k in KINDS
    {
      LoadedAttr(h, k);
      AllKinds(k);
    }
    if Steady(h) {
      assert loaded == h.attrs;
    }
  }

  lemma NothingToLoad()
    ensures LoadParts(From([], "MIME")) == []
  {
  }

  lemma HeaderName(h: Header)
    ensures SaveHeader(h).name == "MIMEHeader"
  {
  }

  lemma {:induction false} NoneFrom(cs: seq<Xml>, name: string)
    requires forall c | c in cs :: c.name != name
    ensures From(cs, name) == []
  {
    if cs != [] {
      NoneFrom(cs[1..], name);
    }
  }

  lemma NoChild(x: Xml, name: string)
    requires forall c | c in x.children :: c.name != name
    ensures FirstChild(x, name).None?
  {
    NoneFrom(x.children, name);
  }

  lemma OneChild(x: Xml, name: string, c: Xml)
    requires x.children == [c] && c.name == name
    ensures FirstChild(x, name) == Some(c)
    ensures name == "MIMEData" ==> FirstChild(x, "MIMEHeader").None?
  {
    if name == "MIMEData" {
      assert |"MIMEHeader"| == 10 && |"MIMEData"| == 8;
      NoChild(x, "MIMEHeader");
    }
  }

  lemma TwoChildren(x: Xml, header: Xml, data: Xml)
    requires x.children == [header, data] && header.name == "MIMEHeader" && data.name == "MIMEData"
    ensures FirstChild(x, "MIMEHeader") == Some(header) && FirstChild(x, "MIMEData") == Some(data)
  {
    assert |"MIMEHeader"| == 10 && |"MIMEData"| == 8;
    assert x.children[1..] == [data];
    assert From([data], "MIMEData") == [data];
  }

  /** Loading a saved part, one level deep. */
  lemma ShapeOfSaved(p: Part)
    ensures LoadPart(SavePart(p)) == LoadedPart(Stored(p.blk),
      (match p.header case None => None case Some(h) => Some(LoadHeader(SaveHeader(h)))),
      (match p.data
       case Some(s) => Some(LoadedData(Stored(s.blk), LoadParts(From(SaveParts(s.closed), "MIME"))))
       case None =>
         match p.header
         case None => None
         case Some(h) => Some(LoadedData(Stored(NewBlock(h.blk.end + 1)), []))))
  {
    hide SaveBlock, LoadBlock, LoadHeader, LoadParts, SaveParts, SaveHeader, FirstChild;
    var x := SavePart(p);
    BlockRoundTrip("MIME", p.blk, x.children);
    if p.header.None? {
      NoChild(x, "MIMEHeader");
      if p.data.None? {
        NoChild(x, "MIMEData");
      } else {
        var s := p.data.value;
        BlockRoundTrip("MIMEData", s.blk, SaveParts(s.closed));
        OneChild(x, "MIMEData", Xml("MIMEData", SaveBlock(s.blk), SaveParts(s.closed)));
      }
    } else {
      var h := p.header.value;
      HeaderName(h);
      var data := if p.data.Some? then Xml("MIMEData", SaveBlock(p.data.value.blk), SaveParts(p.data.value.closed))
                  else Xml("MIMEData", SaveBlock(NewBlock(h.blk.end + 1)), []);
      TwoChildren(x, SaveHeader(h), data);
      if p.data.Some? {
        BlockRoundTrip("MIMEData", p.data.value.blk, SaveParts(p.data.value.closed));
      } else {
        BlockRoundTrip("MIMEData", NewBlock(h.blk.end + 1), []);
        NothingToLoad();
      }
    }
  }

  lemma SavedPartName(p: Part)
    ensures SavePart(p).name == "MIME"
  {
  }

  lemma LoadCons(x: Xml, xs: seq<Xml>)
    ensures LoadParts([x] + xs) == [LoadPart(x)] + LoadParts(xs)
  {
    hide LoadPart;
    assert ([x] + xs)[1..] == xs;
  }

  lemma {:induction false} PartRoundTrip(p: Part)
    requires TrackedPart(p)
    ensures LoadPart(SavePart(p)) == View(p) <==> SteadyPart(p)
    decreases p, 0
  {
    hide SaveHeader, LoadHeader, Tracked, Steady, LoadPart, SavePart, From, LoadParts, SaveParts, Views;
    ShapeOfSaved(p);
    if p.header.Some? {
      HeaderRoundTrip(p.header.value);
    }
    if p.data.Some? {
      PartsRoundTrip(p.data.value.closed);
    }
  }

  lemma {:induction false} PartsRoundTrip(ps: seq<Part>)
    requires forall p | p in ps :: TrackedPart(p)
    ensures LoadParts(From(SaveParts(ps), "MIME")) == Views(ps) <==> forall p | p in ps :: SteadyPart(p)
    ensures From(SaveParts(ps), "MIME") == SaveParts(ps)
    decreases ps, 1
  {
    hide LoadPart, SavePart, View, SteadyPart, TrackedPart, From;
    if ps == [] {
      NothingFrom("MIME");
    } else {
      var p, rest := ps[0], ps[1..];
      assert ps == [p] + rest;
      PartRoundTrip(p);
      PartsRoundTrip(rest);
      SavedPartName(p);
      FromCons(SavePart(p), SaveParts(rest), "MIME");
      LoadCons(SavePart(p), SaveParts(rest));
      ConsEqual(LoadPart(SavePart(p)), LoadParts(SaveParts(rest)), View(p), Views(rest));
    }
  }

  /** After any run, loading what was saved gives back ranges, line counts, nesting and header
      attributes if and only if no header repeats an attribute with another value. */
  lemma SaveLoad(d: Decoder, off: nat, fields: seq<string>)
    ensures var p := Feed(d, NewPart(off), fields);
            LoadPart(SavePart(p)) == View(p) <==> SteadyPart(p)
  {
    FeedTracked(d, NewPart(off), fields);
    PartRoundTrip(Feed(d, NewPart(off), fields));
  }

  lemma FeedNothing(d: Decoder, p: Part)
    ensures Feed(d, p, []) == p
  {
  }

  lemma IsId(field: string)
    requires StartsIgnoreCase(field, "Content-ID:")
    ensures KindOf(field) == Some(ContentID)
  {
    assert ToLower(field[..11][8]) == ToLower("Content-ID:"[8]) == 'i';
    if |field| >= 13 {
      assert field[..13][8] == field[..11][8];
      assert ToLower("Content-Type:"[8]) == 't';
    }
  }

  lemma IdStep(d: Decoder, p: Part, field: string)
    requires p.inHeader && StartsIgnoreCase(field, "Content-ID:")
    ensures var q := PartStep(d, p, field);
            && q.inHeader && q.header.Some?
            && HeaderOf(q).seen == HeaderOf(p).seen + [(ContentID, TextValue(d.textOf(ContentID, field)))]
  {
    IsId(field);
    assert |field| >= 11;
  }

  lemma BlankStep(d: Decoder, p: Part)
    requires p.inHeader
    ensures var q := PartStep(d, p, "\r\n"); q.header.Some? && HeaderOf(q).seen == HeaderOf(p).seen
  {
  }

  lemma NotSteady(p: Part, a: string, b: string)
    requires p.header.Some? && a != b
    requires p.header.value.seen == [(ContentID, TextValue(a)), (ContentID, TextValue(b))]
    ensures !SteadyPart(p)
  {
    var seen := p.header.value.seen;
    assert FirstOf(seen, ContentID) == Some(TextValue(a));
    assert LastOf(seen, ContentID) == Some(TextValue(b));
    assert ContentID in KINDS;
  }

  /** The failing case: any two Content-ID fields with different values. Memory holds the last
      of them, the loaded summary the first. */
  lemma RepeatedAttribute(d: Decoder, x: string, y: string)
    requires StartsIgnoreCase(x, "Content-ID:") && StartsIgnoreCase(y, "Content-ID:")
    requires d.textOf(ContentID, x) != d.textOf(ContentID, y)
    ensures var p := Feed(d, NewPart(0), [x, y, "\r\n"]);
            LoadPart(SavePart(p)) != View(p)
  {
    hide Feed, PartStep, KindOf, HeaderStep, SteadyPart, StartsIgnoreCase, LoadPart, SavePart, View;
    var blank := "\r\n";
    var p0 := NewPart(0);
    var p1 := PartStep(d, p0, x);
    var p2 := PartStep(d, p1, y);
    SaveLoad(d, 0, [x, y, blank]);
    assert [x, y, blank] == [x, y] + [blank] && [x, y] == [x] + [y] && [x] == [] + [x];
    FeedSnoc(d, p0, [], x);
    FeedSnoc(d, p0, [x], y);
    FeedSnoc(d, p0, [x, y], blank);
    FeedNothing(d, p0);
    IdStep(d, p0, x);
    IdStep(d, p1, y);
    BlankStep(d, p2);
    NotSteady(PartStep(d, p2, blank), d.textOf(ContentID, x), d.textOf(ContentID, y));
  }

  // ---- the file as it is written ----

  lemma OneAttr(x: (Kind, Value))
    ensures SaveAttrs([x]) == [SaveAttr(x.0, x.1)]
  {
    assert [x][1..] == [];
  }

  lemma SavedAs(d: Decoder, h: Header, f: string)
    requires h.seen == []
    ensures SaveHeader(HeaderStep(d, h, f)).children ==
            match KindOf(f) case None => [] case Some(k) => [SaveAttr(k, Decode(d, k, f))]
  {
    hide KindOf, Decode, SaveAttr;
    if KindOf(f).Some? {
      var x := (KindOf(f).value, Decode(d, KindOf(f).value, f));
      OneAttr(x);
      assert HeaderStep(d, h, f).seen == [x];
    }
  }

  /** No field has two of the names. */
  lemma OneName(f: string)
    ensures StartsIgnoreCase(f, "Content-Disposition:") ==>
              && !StartsIgnoreCase(f, "Content-Type:") && !StartsIgnoreCase(f, "Content-ID:")
              && !StartsIgnoreCase(f, "Content-class:") && !StartsIgnoreCase(f, "Content-Transfer-Encoding:")
    ensures StartsIgnoreCase(f, "Content-Transfer-Encoding:") ==>
              && !StartsIgnoreCase(f, "Content-Type:") && !StartsIgnoreCase(f, "Content-ID:")
              && !StartsIgnoreCase(f, "Content-class:")
    ensures StartsIgnoreCase(f, "Content-class:") ==>
              !StartsIgnoreCase(f, "Content-Type:") && !StartsIgnoreCase(f, "Content-ID:")
    ensures StartsIgnoreCase(f, "Content-ID:") ==> !StartsIgnoreCase(f, "Content-Type:")
  {
    hide StartsIgnoreCase;
    if StartsIgnoreCase(f, "Content-Disposition:") {
      OneWord(f, "Content-Disposition:", "Content-Type:", 8);
      OneWord(f, "Content-Disposition:", "Content-ID:", 8);
      OneWord(f, "Content-Disposition:", "Content-class:", 8);
      OneWord(f, "Content-Disposition:", "Content-Transfer-Encoding:", 8);
    } else if StartsIgnoreCase(f, "Content-Transfer-Encoding:") {
      OneWord(f, "Content-Transfer-Encoding:", "Content-Type:", 9);
      OneWord(f, "Content-Transfer-Encoding:", "Content-ID:", 8);
      OneWord(f, "Content-Transfer-Encoding:", "Content-class:", 8);
    } else if StartsIgnoreCase(f, "Content-class:") {
      OneWord(f, "Content-class:", "Content-Type:", 8);
      OneWord(f, "Content-class:", "Content-ID:", 8);
    } else if StartsIgnoreCase(f, "Content-ID:") {
      OneWord(f, "Content-ID:", "Content-Type:", 8);
    }
  }

  /** The element that one header field leaves. */
  lemma FieldSavedAs(d: Decoder, h: Header, f: string)
    requires h.seen == []
    ensures var cs := SaveHeader(HeaderStep(d, h, f)).children;
            if StartsIgnoreCase(f, "Content-Type:") then
              var (t1, t2, b, c, n) := d.typeOf(f);
              cs == [Xml("contentType",
                         map["type1" := t1, "type2" := t2, "boundary" := b, "charset" := c, "filename" := n], [])]
            else if StartsIgnoreCase(f, "Content-Disposition:") then
              var (v, n) := d.dispositionOf(f);
              cs == [Xml("contentDisposition", map["disposition" := v, "filename" := n], [])]
            else if StartsIgnoreCase(f, "Content-Transfer-Encoding:") then
              cs == [Xml("contentTransferEncoding", map["value" := d.textOf(TransferEncoding, f)], [])]
            else if StartsIgnoreCase(f, "Content-class:") then
              cs == [Xml("contentClass", map["value" := d.textOf(ContentClass, f)], [])]
            else if StartsIgnoreCase(f, "Content-ID:") then
              cs == [Xml("contentID", map["value" := d.textOf(ContentID, f)], [])]
            else cs == []
  {
    OneName(f);
    SavedAs(d, h, f);
    hide StartsIgnoreCase, SaveHeader, HeaderStep;
  }

  lemma Printed(n: nat)
    requires n < 10
    ensures PrintInt(ToInt(Wrap32(n))) == [n as char + '0']
  {
  }

  lemma SavedCounts(b: nat, e: nat, l: nat)
    requires b < 10 && e < 10 && l < 10
    ensures SaveBlock(Block(b, e, l)) ==
            map["beg" := [b as char + '0'], "end" := [e as char + '0'], "linenumber" := [l as char + '0']]
  {
    hide PrintInt, ToInt, Wrap32;
    Printed(b);
    Printed(e);
    Printed(l);
  }

  /** A counter past 2^31 is written with a sign. */
  lemma SignedCounter()
    ensures SaveBlock(Block(0, 0xFFFF_FFFF, 0))["end"] == "-1"
  {
    assert Digits(1) == ['1'];
  }

  const MESSAGE: seq<string> := ["Q:\r\n", "\r\n", "x\r\n"]

  lemma LinesCounted()
    ensures Count("Q:\r\n", '\n') == 1 && Count("\r\n", '\n') == 1 && Count("x\r\n", '\n') == 1
  {
    assert "Q:\r\n"[1..] == ":\r\n" && ":\r\n"[1..] == "\r\n" && "x\r\n"[1..] == "\r\n";
    assert "\r\n"[1..] == "\n" && "\n"[1..] == "";
  }

  lemma MessageTree(d: Decoder)
    ensures Feed(d, NewPart(0), MESSAGE) ==
            Part(Block(0, 9, 3), false, Some(Header(Block(0, 6, 2), map[], [])),
                 Some(Data(Block(6, 9, 1), "", [], None)))
  {
    LinesCounted();
    hide Count;
    assert KindOf("Q:\r\n").None? && KindOf("\r\n").None?;
    hide KindOf;
    assert MESSAGE == [MESSAGE[0], MESSAGE[1]] + [MESSAGE[2]];
    assert [MESSAGE[0], MESSAGE[1]] == [MESSAGE[0]] + [MESSAGE[1]];
    FeedSnoc(d, NewPart(0), [], MESSAGE[0]);
    FeedSnoc(d, NewPart(0), [MESSAGE[0]], MESSAGE[1]);
    FeedSnoc(d, NewPart(0), [MESSAGE[0], MESSAGE[1]], MESSAGE[2]);
    assert [] + [MESSAGE[0]] == [MESSAGE[0]];
  }

  /** The file for a message of a header field, a blank line and one line of text. */
  lemma SavedMessage(d: Decoder)
    ensures SavePart(Feed(d, NewPart(0), MESSAGE)) ==
            Xml("MIME", map["beg" := "0", "end" := "9", "linenumber" := "3"],
                [Xml("MIMEHeader", map["beg" := "0", "end" := "6", "linenumber" := "2"], []),
                 Xml("MIMEData", map["beg" := "6", "end" := "9", "linenumber" := "1"], [])])
  {
    hide SaveBlock, Feed;
    MessageTree(d);
    SavedCounts(0, 9, 3);
    SavedCounts(0, 6, 2);
    SavedCounts(6, 9, 1);
  }

  lemma HeaderTree(d: Decoder)
    ensures Feed(d, NewPart(0), ["Q:\r\n"]) ==
            Part(Block(0, 4, 1), true, Some(Header(Block(0, 4, 1), map[], [])), None)
  {
    LinesCounted();
    hide Count;
    assert KindOf("Q:\r\n").None?;
    hide KindOf;
    FeedSnoc(d, NewPart(0), [], "Q:\r\n");
    assert [] + ["Q:\r\n"] == ["Q:\r\n"];
  }

  /** A message that is only a header gets an empty data element one byte behind it. */
  lemma SavedHeader(d: Decoder)
    ensures SavePart(Feed(d, NewPart(0), ["Q:\r\n"])) ==
            Xml("MIME", map["beg" := "0", "end" := "4", "linenumber" := "1"],
                [Xml("MIMEHeader", map["beg" := "0", "end" := "4", "linenumber" := "1"], []),
                 Xml("MIMEData", map["beg" := "5", "end" := "5", "linenumber" := "0"], [])])
  {
    hide SaveBlock, Feed;
    HeaderTree(d);
    SavedCounts(0, 4, 1);
    SavedCounts(5, 5, 0);
  }
}
