/** The streaming MIME summary as values: what one more field does to the tree of byte
    ranges (src/letter.cpp). `SummaryObjects` has the objects that are updated in place. */
module Summary {
  import opened Text

  // ---- header attributes ----

  datatype Kind = ContentType | ContentID | ContentClass | TransferEncoding | ContentDisposition

  datatype Value =
    | TypeValue(type1: string, type2: string, boundary: string, charset: string, filename: string)
    | TextValue(text: string)
    | DispositionValue(disposition: string, filename: string)

  /** The decoding of a field's value (fnfy_strcut, filedContentType, filedContentDisposition)
      is a parameter of the model. */
  datatype Decoder = Decoder(
    typeOf: string -> (string, string, string, string, string),
    textOf: (Kind, string) -> string,
    dispositionOf: string -> (string, string))

  function Decode(d: Decoder, k: Kind, field: string): Value {
    match k
    case ContentType =>
      var (t1, t2, b, c, n) := d.typeOf(field);
      TypeValue(t1, t2, b, c, n)
    case ContentDisposition =>
      var (v, n) := d.dispositionOf(field);
      DispositionValue(v, n)
    case _ => TextValue(d.textOf(k, field))
  }

  function KindOf(field: string): Option<Kind> {
    if StartsIgnoreCase(field, "Content-Type:") then Some(ContentType)
    else if StartsIgnoreCase(field, "Content-ID:") then Some(ContentID)
    else if StartsIgnoreCase(field, "Content-class:") then Some(ContentClass)
    else if StartsIgnoreCase(field, "Content-Transfer-Encoding:") then Some(TransferEncoding)
    else if StartsIgnoreCase(field, "Content-Disposition:") then Some(ContentDisposition)
    else None
  }

  /** The boundary that cuts a body into parts; "" when the part is not a multipart. */
  function BoundaryOf(attrs: map<Kind, Value>): string {
    if ContentType in attrs && attrs[ContentType].TypeValue? &&
       EqualsIgnoreCase(attrs[ContentType].type1, "multipart")
    then attrs[ContentType].boundary else ""
  }

  predicate IsMarker(boundary: string, field: string) {
    field == BeginMarker(boundary) || field == EndMarker(boundary)
  }

  predicate IsBlank(field: string) { field == "\r\n" || field == "\n" }

  // ---- the tree ----

  /** A byte range [beg, end) and the line feeds in it. */
  datatype Block = Block(beg: nat, end: nat, lines: nat)

  function NewBlock(beg: nat): Block { Block(beg, beg, 0) }

  function Grow(b: Block, field: string): Block {
    Block(b.beg, b.end + |field|, b.lines + Count(field, '\n'))
  }

  /** The counters as `unsigned int` members hold them. */
  function Stored(b: Block): Block {
    Block(Wrap32(b.beg), Wrap32(b.end), Wrap32(b.lines))
  }

  function GrowStored(b: Block, field: string): Block {
    Block(b.beg, Wrap32(b.end + |field|), Wrap32(b.lines + Count(field, '\n')))
  }

  lemma StoredGrows(b: Block, field: string)
    ensures GrowStored(Stored(b), field) == Stored(Grow(b, field))
  {
    WrapAdd(b.end, |field|);
    WrapAdd(b.lines, Count(field, '\n'));
  }

  /** `seen` is every attribute field so far, in order; `attrs` holds the last of each kind. */
  datatype Header = Header(blk: Block, attrs: map<Kind, Value>, seen: seq<(Kind, Value)>)

  datatype Data = Data(blk: Block, boundary: string, closed: seq<Part>, open: Option<Part>)

  datatype Part = Part(blk: Block, inHeader: bool, header: Option<Header>, data: Option<Data>)

  function NewHeader(beg: nat): Header { Header(NewBlock(beg), map[], []) }

  function NewData(beg: nat, boundary: string): Data { Data(NewBlock(beg), boundary, [], None) }

  function NewPart(beg: nat): Part { Part(NewBlock(beg), true, None, None) }

  // ---- one field ----

  function HeaderStep(d: Decoder, h: Header, field: string): Header {
    match KindOf(field)
    case None => h.(blk := Grow(h.blk, field))
    case Some(k) =>
      var v := Decode(d, k, field);
      Header(Grow(h.blk, field), h.attrs[k := v], h.seen + [(k, v)])
  }

  /** How many parts are open inside one another. */
  ghost function PartDepth(p: Part): nat {
    1 + match p.data case None => 0 case Some(s) => DataDepth(s)
  }

  ghost function DataDepth(s: Data): nat {
    match s.open case None => 0 case Some(p) => PartDepth(p)
  }

  function Close(s: Data): seq<Part> {
    s.closed + match s.open case None => [] case Some(p) => [p]
  }

  function HeaderOf(p: Part): Header {
    match p.header case None => NewHeader(p.blk.beg) case Some(h) => h
  }

  function DataOf(p: Part): Data {
    match p.data
    case None => NewData(p.blk.end, BoundaryOf(HeaderOf(p).attrs))
    case Some(s) => s
  }

  function DataStep(d: Decoder, s: Data, field: string): Data
    decreases DataDepth(s), 1
  {
    var blk := Grow(s.blk, field);
    if s.boundary == "" then s.(blk := blk)
    else if field == BeginMarker(s.boundary) then
      Data(blk, s.boundary, Close(s), Some(NewPart(blk.end)))
    else if field == EndMarker(s.boundary) then
      Data(blk, s.boundary, Close(s), None)
    else
      match s.open
      case None => s.(blk := blk)
      case Some(p) => Data(blk, s.boundary, s.closed, Some(PartStep(d, p, field)))
  }

  function PartStep(d: Decoder, p: Part, field: string): Part
    decreases PartDepth(p), 0
  {
    if p.inHeader then
      Part(Grow(p.blk, field), !IsBlank(field), Some(HeaderStep(d, HeaderOf(p), field)), p.data)
    else
      Part(Grow(p.blk, field), false, p.header, Some(DataStep(d, DataOf(p), field)))
  }

  /** A whole run. */
  function Feed(d: Decoder, p: Part, fields: seq<string>): Part
    decreases |fields|
  {
    if fields == [] then p else Feed(d, PartStep(d, p, fields[0]), fields[1..])
  }

  lemma {:induction false} FeedAppend(d: Decoder, p: Part, xs: seq<string>, ys: seq<string>)
    ensures Feed(d, p, xs + ys) == Feed(d, Feed(d, p, xs), ys)
    decreases |xs|
  {
    if xs == [] {
      assert xs + ys == ys;
    } else {
      assert (xs + ys)[1..] == xs[1..] + ys;
      FeedAppend(d, PartStep(d, p, xs[0]), xs[1..], ys);
    }
  }

  lemma FeedSnoc(d: Decoder, p: Part, xs: seq<string>, y: string)
    ensures Feed(d, p, xs + [y]) == PartStep(d, Feed(d, p, xs), y)
  {
    FeedAppend(d, p, xs, [y]);
    assert [y][1..] == [];
  }
}
