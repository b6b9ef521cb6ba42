/** The batch MIME parser of src/mime.cpp: a table of segments and a recursion over ranges of it. */
module Batch {
  import opened Text
  import opened Fields
  import opened Summary

  /** What both parsers are to agree on: byte ranges, line counts and nesting. `Undefined` stands
      for a part one of them never finished; mimepart::parse then reads members it never set. */
  datatype Tree = Undefined | Tree(header: Block, data: Block, subs: seq<Tree>)

  function BlockAt(off: nat, fields: seq<string>): Block {
    Block(off, off + |Concat(fields)|, Count(Concat(fields), '\n'))
  }

  /** The index of the first CRLF field at or after x, or the end. */
  function BlankAt(fields: seq<string>, x: nat): (b: nat)
    requires x <= |fields|
    ensures x <= b <= |fields|
    ensures b < |fields| ==> fields[b] == "\r\n"
    ensures forall i | x <= i < b :: fields[i] != "\r\n"
    decreases |fields| - x
  {
    if x == |fields| || fields[x] == "\r\n" then x else BlankAt(fields, x + 1)
  }

  /** The last content type among the fields of a header. */
  function LastType(d: Decoder, fields: seq<string>): (t: Option<Value>)
    ensures t.Some? ==> t.value.TypeValue?
  {
    if fields == [] then None
    else
      var n := |fields| - 1;
      if KindOf(fields[n]) == Some(ContentType) then Some(Decode(d, ContentType, fields[n]))
      else LastType(d, fields[..n])
  }

  function BoundaryIn(t: Option<Value>): string {
    match t case None => "" case Some(v) => BoundaryOf(map[ContentType := v])
  }

  /** What a scan over body fields has found: sub-part ranges [lo, hi), and where the part
      being read began (-1 before the first begin marker). */
  datatype Scan = Scan(ranges: seq<(nat, nat)>, at: int)

  /** The batch parser's scan: an end marker leaves `at` in place. */
  function BatchScan(b: string, body: seq<string>): (s: Scan)
    ensures -1 <= s.at <= |body|
    ensures forall r | r in s.ranges :: r.0 < r.1 <= |body|
  {
    if b == "" || body == [] then Scan([], -1)
    else
      var n := |body| - 1;
      var s := BatchScan(b, body[..n]);
      if !IsMarker(b, body[n]) then s
      else Scan(s.ranges + (if 0 <= s.at < n then [(s.at as nat, n)] else []),
                if body[n] == BeginMarker(b) then n + 1 else s.at)
  }

  function BatchTree(d: Decoder, off: nat, fields: seq<string>): Tree
    decreases |fields|, 0, 0
  {
    var k := BlankAt(fields, 0);
    if k == |fields| then Undefined
    else
      var header, body := BlockAt(off, fields[..k + 1]), fields[k + 1..];
      var rs := BatchScan(BoundaryIn(LastType(d, fields[..k])), body).ranges;
      Tree(header, BlockAt(header.end, body), BatchSubs(d, header.end, body, rs))
  }

  /** One tree for each range of a body that starts at byte off. */
  function BatchSubs(d: Decoder, off: nat, body: seq<string>, rs: seq<(nat, nat)>): seq<Tree>
    requires forall r | r in rs :: r.0 < r.1 <= |body|
    decreases |body|, 1, |rs|
  {
    if rs == [] then []
    else
      var n := |rs| - 1;
      BatchSubs(d, off, body, rs[..n]) +
      [BatchTree(d, off + |Concat(body[..rs[n].0])|, body[rs[n].0..rs[n].1])]
  }

  /** The segments of a NUL-terminated buffer: a text after the last line feed is dropped. */
  function BatchCut(s: string): seq<string> {
    Emitted(s) + if Last(Pending(s)) == '\n' then [Pending(s)] else []
  }

  function BatchMessage(d: Decoder, text: string): Tree {
    BatchTree(d, 0, BatchCut(text))
  }

  // ---- the loops of the source ----

  /** fbufseg: first and last byte of a segment. */
  datatype Segment = Segment(byteBeg: int, byteEnd: int)

  /** mimeblock: first and last segment, size in bytes, line feeds. */
  datatype MimeBlock = MimeBlock(beg: nat, end: int, blockSize: nat, lineNumber: nat)

  datatype MimePart = BadPart | MimePart(header: MimeBlock, data: MimeBlock, parts: seq<MimePart>)

  /** The segment table cuts the buffer into `fields`. */
  ghost predicate Segmented(buffer: string, segs: seq<Segment>, fields: seq<string>) {
    && |segs| == |fields|
    && forall i | 0 <= i < |segs| ::
         0 <= segs[i].byteBeg <= segs[i].byteEnd < |buffer| &&
         buffer[segs[i].byteBeg..segs[i].byteEnd + 1] == fields[i]
  }

  lemma AsManyFields(buffer: string, segs: seq<Segment>, fields: seq<string>)
    requires Segmented(buffer, segs, fields)
    ensures |segs| == |fields|
  {
  }

  /** fbufseg::c_str. */
  method SegmentText(buffer: string, segs: seq<Segment>, x: nat, ghost fields: seq<string>) returns (str: string)
    requires Segmented(buffer, segs, fields) && x < |segs|
    ensures str == fields[x] && str != ""
  {
    str := buffer[segs[x].byteBeg..segs[x].byteEnd + 1];
  }

  /** The byte where field i starts. */
  ghost function Offset(fields: seq<string>, i: nat): nat {
    if i <= |fields| then |Concat(fields[..i])| else 0
  }

  ghost function ToBlock(fields: seq<string>, b: MimeBlock): Block {
    var off := Offset(fields, b.beg);
    Block(off, off + b.blockSize, b.lineNumber)
  }

  /** A parsed part as byte ranges. */
  ghost function ToTree(fields: seq<string>, p: MimePart): Tree {
    match p
    case BadPart => Undefined
    case MimePart(h, s, parts) => Tree(ToBlock(fields, h), ToBlock(fields, s), ToTrees(fields, parts))
  }

  ghost function ToTrees(fields: seq<string>, parts: seq<MimePart>): seq<Tree> {
    if parts == [] then []
    else ToTrees(fields, parts[..|parts| - 1]) + [ToTree(fields, parts[|parts| - 1])]
  }

  lemma Grown(fields: seq<string>, beg: nat, x: nat)
    requires beg <= x < |fields|
    ensures fields[beg..x + 1] == fields[beg..x] + [fields[x]]
    ensures Concat(fields[beg..x + 1]) == Concat(fields[beg..x]) + fields[x]
    ensures Count(Concat(fields[beg..x + 1]), '\n') == Count(Concat(fields[beg..x]), '\n') + Count(fields[x], '\n')
  {
    assert fields[beg..x + 1] == fields[beg..x] + [fields[x]];
    ConcatSnoc(fields[beg..x], fields[x]);
    CountAppend(Concat(fields[beg..x]), fields[x], '\n');
  }

  lemma BlankIsNoType()
    ensures !StartsIgnoreCase("\r\n", "Content-Type:")
  {
  }

  lemma NothingYet(fields: seq<string>, beg: nat)
    requires beg <= |fields|
    ensures Concat(fields[beg..beg]) == "" && Count("", '\n') == 0
  {
  }

  lemma Split(fields: seq<string>, beg: nat, mid: nat, end: nat)
    requires beg <= mid <= end <= |fields|
    ensures fields[beg..end] == fields[beg..mid] + fields[mid..end]
    ensures Concat(fields[beg..end]) == Concat(fields[beg..mid]) + Concat(fields[mid..end])
    ensures Count(Concat(fields[beg..end]), '\n')
         == Count(Concat(fields[beg..mid]), '\n') + Count(Concat(fields[mid..end]), '\n')
  {
    assert fields[beg..end] == fields[beg..mid] + fields[mid..end];
    ConcatAppend(fields[beg..mid], fields[mid..end]);
    CountAppend(Concat(fields[beg..mid]), Concat(fields[mid..end]), '\n');
  }

  lemma NoType(d: Decoder, fields: seq<string>)
    requires fields == []
    ensures LastType(d, fields) == None
  {
  }

  lemma TypeSnoc(d: Decoder, fields: seq<string>, f: string)
    ensures LastType(d, fields + [f]) ==
            if StartsIgnoreCase(f, "Content-Type:") then Some(Decode(d, ContentType, f)) else LastType(d, fields)
  {
    assert (fields + [f])[..|fields|] == fields;
    hide StartsIgnoreCase, Decode;
  }

  lemma BlankStep(fields: seq<string>, x: nat)
    requires x < |fields|
    ensures BlankAt(fields, x) == if fields[x] == "\r\n" then x else BlankAt(fields, x + 1)
    ensures BlankAt(fields, |fields|) == |fields|
  {
  }

  /** The header loop: up to and including the first CRLF field. */
  method ParseHeader(d: Decoder, buffer: string, segs: seq<Segment>, beg: nat, end: nat, ghost fields: seq<string>)
    returns (found: bool, header: MimeBlock, step: nat, contentType: Option<Value>)
    requires Segmented(buffer, segs, fields) && beg <= end < |segs|
    ensures found <==> BlankAt(fields[beg..end + 1], 0) <= end - beg
    ensures found ==>
      && beg < step <= end + 1 && BlankAt(fields[beg..end + 1], 0) == step - 1 - beg
      && header.beg == beg && header.end == step - 1
      && ToBlock(fields, header) == BlockAt(Offset(fields, beg), fields[beg..step])
      && contentType == LastType(d, fields[beg..step - 1])
  {
    hide Concat, Count, Decode, StartsIgnoreCase, LastType, BlankAt, Segmented;
    AsManyFields(buffer, segs, fields);
    NothingYet(fields, beg);
    NoType(d, fields[beg..beg]);
    BlankIsNoType();
    ghost var part := fields[beg..end + 1];
    var x, blockSize, lineNumber := beg, 0, 0;
    contentType, step := None, 0;
    header := MimeBlock(0, 0, 0, 0);
    found := false;
    while x <= end
      invariant beg <= x <= end + 1 && !found
      invariant blockSize == |Concat(fields[beg..x])| && lineNumber == Count(Concat(fields[beg..x]), '\n')
      invariant contentType == LastType(d, fields[beg..x])
      invariant BlankAt(part, 0) == BlankAt(part, x - beg)
    {
      var str := SegmentText(buffer, segs, x, fields);
      assert str == part[x - beg];
      Grown(fields, beg, x);
      TypeSnoc(d, fields[beg..x], str);
      BlankStep(part, x - beg);
      blockSize := blockSize + |str|;
      lineNumber := lineNumber + Count(str, '\n');
      if StartsIgnoreCase(str, "Content-Type:") {
        contentType := Some(Decode(d, ContentType, str));
      } else if str == "\r\n" {
        header := MimeBlock(beg, x, blockSize, lineNumber);
        found, step := true, x + 1;
        break;
      }
      x := x + 1;
    }
  }

  lemma UndefinedTree(d: Decoder, fields: seq<string>, beg: nat, end: nat)
    requires beg <= end < |fields| && BlankAt(fields[beg..end + 1], 0) > end - beg
    ensures ToTree(fields, BadPart) == BatchTree(d, Offset(fields, beg), fields[beg..end + 1])
  {
  }

  lemma SplitPart(fields: seq<string>, beg: nat, step: nat, end: nat)
    requires beg < step <= end <= |fields|
    ensures fields[beg..end][..step - beg] == fields[beg..step]
    ensures fields[beg..end][..step - 1 - beg] == fields[beg..step - 1]
    ensures fields[beg..end][step - beg..] == fields[step..end]
    ensures Offset(fields, step) == Offset(fields, beg) + |Concat(fields[beg..step])|
  {
    hide Concat, Count;
    Split(fields, 0, beg, step);
    assert fields[..beg] == fields[0..beg] && fields[..step] == fields[0..step];
    var part := fields[beg..end];
    SliceOfSlice(fields, beg, end, 0, step - beg);
    SliceOfSlice(fields, beg, end, 0, step - 1 - beg);
    SliceOfSlice(fields, beg, end, step - beg, end - beg);
    assert part[..step - beg] == part[0..step - beg] && part[..step - 1 - beg] == part[0..step - 1 - beg];
    assert part[step - beg..] == part[step - beg..end - beg];
  }

  lemma TreeOfParts(d: Decoder, fields: seq<string>, beg: nat, step: nat, end: nat, t: Option<Value>,
                    header: MimeBlock, data: MimeBlock, parts: seq<MimePart>)
    requires beg < step <= end + 1 <= |fields| && BlankAt(fields[beg..end + 1], 0) == step - 1 - beg
    requires t == LastType(d, fields[beg..step - 1])
    requires ToBlock(fields, header) == BlockAt(Offset(fields, beg), fields[beg..step])
    requires ToBlock(fields, data) == BlockAt(Offset(fields, step), fields[step..end + 1])
    requires ToTrees(fields, parts) == BatchSubs(d, Offset(fields, step), fields[step..end + 1],
                                         BatchScan(BoundaryIn(t), fields[step..end + 1]).ranges)
    ensures ToTree(fields, MimePart(header, data, parts))
         == BatchTree(d, Offset(fields, beg), fields[beg..end + 1])
  {
    hide ToTrees, BatchSubs, BatchScan, BlankAt, LastType, ToBlock, Offset, Concat, Count;
    SplitPart(fields, beg, step, end + 1);
  }

  const UNSET: nat := 0xFFFF_FFFF

  function Relative(step: nat, subBeg: nat): int
    requires subBeg == UNSET || subBeg >= step
  {
    if subBeg == UNSET then -1 else subBeg - step
  }

  /** The sub-parts read before segment x are those of the batch scan so far, and `subBeg` is where
      the part being read began. */
  ghost predicate Sofar(d: Decoder, b: string, fields: seq<string>, step: nat, end: nat, x: nat, subBeg: nat,
                        parts: seq<MimePart>) {
    && step <= x <= end + 1 <= |fields| && (subBeg == UNSET || step <= subBeg <= x)
    && var body := fields[step..end + 1];
       var s := BatchScan(b, body[..x - step]);
       s.at == Relative(step, subBeg) && ToTrees(fields, parts) == BatchSubs(d, Offset(fields, step), body, s.ranges)
  }

  lemma SofarStart(d: Decoder, b: string, fields: seq<string>, step: nat, end: nat)
    requires step <= end + 1 <= |fields|
    ensures Sofar(d, b, fields, step, end, step, UNSET, [])
  {
    hide Offset;
    assert fields[step..end + 1][..0] == [];
  }

  lemma ScanStep(b: string, body: seq<string>, x: nat)
    requires x < |body|
    ensures var s, t := BatchScan(b, body[..x]), BatchScan(b, body[..x + 1]);
            if b == "" || !IsMarker(b, body[x]) then t == s
            else
              && t.ranges == (if 0 <= s.at < x then s.ranges + [(s.at as nat, x)] else s.ranges)
              && t.at == (if body[x] == BeginMarker(b) then x + 1 else s.at)
  {
    assert body[..x + 1][..x] == body[..x];
  }

  lemma SofarSkip(d: Decoder, b: string, fields: seq<string>, step: nat, end: nat, x: nat, subBeg: nat,
                  parts: seq<MimePart>)
    requires Sofar(d, b, fields, step, end, x, subBeg, parts) && x <= end
    requires b == "" || !IsMarker(b, fields[x])
    ensures Sofar(d, b, fields, step, end, x + 1, subBeg, parts)
  {
    hide BatchScan, BatchSubs, ToTrees, Offset, IsMarker;
    assert fields[step..end + 1][x - step] == fields[x];
    ScanStep(b, fields[step..end + 1], x - step);
  }

  lemma SofarEnd(d: Decoder, b: string, fields: seq<string>, step: nat, end: nat, subBeg: nat, parts: seq<MimePart>)
    requires Sofar(d, b, fields, step, end, end + 1, subBeg, parts)
    ensures ToTrees(fields, parts) ==
            BatchSubs(d, Offset(fields, step), fields[step..end + 1], BatchScan(b, fields[step..end + 1]).ranges)
  {
    var body := fields[step..end + 1];
    assert body[..end + 1 - step] == body;
  }

  lemma SofarBounds(d: Decoder, b: string, fields: seq<string>, step: nat, end: nat, x: nat, subBeg: nat,
                    parts: seq<MimePart>)
    requires Sofar(d, b, fields, step, end, x, subBeg, parts)
    ensures step <= x <= end + 1 <= |fields| && (subBeg == UNSET || step <= subBeg <= x)
  {
  }

  lemma SubRange(fields: seq<string>, step: nat, end: nat, lo: nat, hi: nat)
    requires step <= lo < hi <= end + 1 <= |fields|
    ensures var body := fields[step..end + 1];
            && body[lo - step..hi - step] == fields[lo..hi]
            && Offset(fields, lo) == Offset(fields, step) + |Concat(body[..lo - step])|
  {
    hide Concat, Count;
    var body := fields[step..end + 1];
    Split(fields, 0, step, lo);
    assert fields[..step] == fields[0..step] && fields[..lo] == fields[0..lo];
    SliceOfSlice(fields, step, end + 1, 0, lo - step);
    SliceOfSlice(fields, step, end + 1, lo - step, hi - step);
    assert body[..lo - step] == body[0..lo - step];
  }

  lemma SubsSnoc(d: Decoder, off: nat, body: seq<string>, rs: seq<(nat, nat)>, r: (nat, nat))
    requires forall q | q in rs + [r] :: q.0 < q.1 <= |body|
    requires forall q | q in rs :: q.0 < q.1 <= |body|
    ensures r in rs + [r]
    ensures BatchSubs(d, off, body, rs + [r])
         == BatchSubs(d, off, body, rs) + [BatchTree(d, off + |Concat(body[..r.0])|, body[r.0..r.1])]
  {
    hide BatchTree, Concat;
    assert (rs + [r])[..|rs|] == rs;
  }

  lemma SubMatches(d: Decoder, fields: seq<string>, step: nat, end: nat, lo: nat, hi: nat,
                   sub: MimePart, parts: seq<MimePart>, rs: seq<(nat, nat)>)
    requires step <= lo < hi <= end + 1 <= |fields|
    requires ToTree(fields, sub) == BatchTree(d, Offset(fields, lo), fields[lo..hi])
    requires forall r | r in rs :: r.0 < r.1 <= end + 1 - step
    requires ToTrees(fields, parts) == BatchSubs(d, Offset(fields, step), fields[step..end + 1], rs)
    ensures ToTrees(fields, parts + [sub])
         == BatchSubs(d, Offset(fields, step), fields[step..end + 1], rs + [(lo - step, hi - step)])
  {
    hide BatchTree, ToTree, Offset;
    var body := fields[step..end + 1];
    SubRange(fields, step, end, lo, hi);
    SubsSnoc(d, Offset(fields, step), body, rs, (lo - step, hi - step));
    assert (parts + [sub])[..|parts|] == parts;
  }

  lemma SofarMarker(d: Decoder, b: string, fields: seq<string>, step: nat, end: nat, x: nat, subBeg: nat,
                    parts: seq<MimePart>, sub: MimePart)
    requires Sofar(d, b, fields, step, end, x, subBeg, parts) && x <= end && |fields| < UNSET
    requires b != "" && IsMarker(b, fields[x])
    requires subBeg < x ==> ToTree(fields, sub) == BatchTree(d, Offset(fields, subBeg), fields[subBeg..x])
    ensures Sofar(d, b, fields, step, end, x + 1, if fields[x] == BeginMarker(b) then x + 1 else subBeg,
                  if subBeg < x then parts + [sub] else parts)
  {
    hide BatchScan, BatchSubs, ToTrees, Offset, IsMarker, BeginMarker, BatchTree, ToTree;
    var body := fields[step..end + 1];
    assert body[x - step] == fields[x];
    ScanStep(b, body, x - step);
    if subBeg < x {
      SubMatches(d, fields, step, end, subBeg, x, sub, parts, BatchScan(b, body[..x - step]).ranges);
    }
  }

  lemma RestOfPart(fields: seq<string>, beg: nat, step: nat, end: nat, header: MimeBlock, size: nat, lines: nat)
    requires beg < step <= end + 1 <= |fields| && header.beg == beg
    requires ToBlock(fields, header) == BlockAt(Offset(fields, beg), fields[beg..step])
    requires size == |Concat(fields[beg..end + 1])| && lines == Count(Concat(fields[beg..end + 1]), '\n')
    ensures size >= header.blockSize && lines >= header.lineNumber
    ensures ToBlock(fields, MimeBlock(step, end, size - header.blockSize, lines - header.lineNumber))
         == BlockAt(Offset(fields, step), fields[step..end + 1])
  {
    Split(fields, beg, step, end + 1);
  }

  lemma SameHeader(fields: seq<string>, beg: nat, step: nat, header: MimeBlock)
    requires beg < step <= |fields| && header.beg == beg
    requires ToBlock(fields, header) == BlockAt(Offset(fields, beg), fields[beg..step])
    ensures header.blockSize == |Concat(fields[beg..step])|
    ensures header.lineNumber == Count(Concat(fields[beg..step]), '\n')
  {
  }

  ghost predicate MarkersOf(t: Option<Value>, strBeg: string, strEnd: string, multipart: bool)
    requires t.Some? ==> t.value.TypeValue?
  {
    && (multipart <==> t.Some? && EqualsIgnoreCase(t.value.type1, "multipart"))
    && strBeg == (if t.Some? && t.value.boundary != "" then BeginMarker(t.value.boundary) else "")
    && strEnd == (if t.Some? && t.value.boundary != "" then EndMarker(t.value.boundary) else "")
  }

  /** The two markers as the source assembles them, and whether it looks for them at all. */
  method Markers(contentType: Option<Value>) returns (strBeg: string, strEnd: string, multipart: bool)
    requires contentType.Some? ==> contentType.value.TypeValue?
    ensures MarkersOf(contentType, strBeg, strEnd, multipart)
  {
    strBeg, strEnd := "", "";
    if contentType.Some? && contentType.value.boundary != "" {
      strBeg := "--" + contentType.value.boundary + "\r\n";
      strEnd := "--" + contentType.value.boundary + "--\r\n";
    }
    multipart := contentType.Some? && EqualsIgnoreCase(contentType.value.type1, "multipart");
  }

  lemma MarkerTest(t: Option<Value>, strBeg: string, strEnd: string, multipart: bool, s: string)
    requires t.Some? ==> t.value.TypeValue?
    requires MarkersOf(t, strBeg, strEnd, multipart) && s != ""
    ensures var b := BoundaryIn(t);
            && (multipart && s == strBeg <==> b != "" && s == BeginMarker(b))
            && (multipart && (s == strBeg || s == strEnd) <==> b != "" && IsMarker(b, s))
  {
    assert BoundaryIn(t) == if multipart then t.value.boundary else "";
  }

  /** A marker at segment x: the part before it, if it has any segment, is parsed, and a begin
      marker starts the next one. */
  method AtMarker(d: Decoder, buffer: string, segs: seq<Segment>, step: nat, end: nat, x: nat, subBeg: nat,
                  isBegin: bool, parts: seq<MimePart>, ghost b: string, ghost fields: seq<string>)
    returns (parts': seq<MimePart>, subBeg': nat)
    requires Segmented(buffer, segs, fields) && step <= x <= end < |segs| < 0x8000_0000
    requires b != "" && IsMarker(b, fields[x]) && (isBegin <==> fields[x] == BeginMarker(b))
    requires Sofar(d, b, fields, step, end, x, subBeg, parts)
    ensures Sofar(d, b, fields, step, end, x + 1, subBeg', parts')
    decreases x - step, 0
  {
    hide Segmented, Sofar, IsMarker, BeginMarker, ToTree, BatchTree, Offset;
    AsManyFields(buffer, segs, fields);
    SofarBounds(d, b, fields, step, end, x, subBeg, parts);
    var sub := BadPart;
    parts', subBeg' := parts, subBeg;
    if subBeg != UNSET && x - 1 >= subBeg {
      sub := ParsePart(d, buffer, segs, subBeg, x - 1, fields);
      parts' := parts + [sub];
    }
    if isBegin {
      subBeg' := x + 1;
    }
    SofarMarker(d, b, fields, step, end, x, subBeg, parts, sub);
  }

  /** The body loop. */
  method ParseBody(d: Decoder, buffer: string, segs: seq<Segment>, beg: nat, step: nat, end: nat,
                   header: MimeBlock, contentType: Option<Value>, ghost fields: seq<string>)
    returns (data: MimeBlock, parts: seq<MimePart>)
    requires Segmented(buffer, segs, fields) && beg < step <= end + 1 <= |segs| < 0x8000_0000
    requires header.end == step - 1 && header.beg == beg
    requires ToBlock(fields, header) == BlockAt(Offset(fields, beg), fields[beg..step])
    requires contentType.Some? ==> contentType.value.TypeValue?
    ensures ToBlock(fields, data) == BlockAt(Offset(fields, step), fields[step..end + 1])
    ensures ToTrees(fields, parts) == BatchSubs(d, Offset(fields, step), fields[step..end + 1],
                                        BatchScan(BoundaryIn(contentType), fields[step..end + 1]).ranges)
    decreases end - beg, 0
  {
    hide BatchSubs, ToTrees, Offset, Concat, Count, BoundaryIn, IsMarker, EqualsIgnoreCase,
         BatchScan, MarkersOf, ToBlock, BlockAt, Segmented, Sofar, BeginMarker, EndMarker;
    AsManyFields(buffer, segs, fields);
    ghost var b := BoundaryIn(contentType);
    var strBeg, strEnd, multipart := Markers(contentType);
    var blockSize, lineNumber := header.blockSize, header.lineNumber;
    var x, subBeg := step, UNSET;
    parts := [];
    SofarStart(d, b, fields, step, end);
    SameHeader(fields, beg, step, header);
    while x <= end
      invariant step <= x <= end + 1
      invariant blockSize == |Concat(fields[beg..x])| && lineNumber == Count(Concat(fields[beg..x]), '\n')
      invariant Sofar(d, b, fields, step, end, x, subBeg, parts)
    {
      var str := SegmentText(buffer, segs, x, fields);
      Grown(fields, beg, x);
      blockSize := blockSize + |str|;
      lineNumber := lineNumber + Count(str, '\n');
      MarkerTest(contentType, strBeg, strEnd, multipart, str);
      if multipart && (str == strBeg || str == strEnd) {
        parts, subBeg := AtMarker(d, buffer, segs, step, end, x, subBeg, str == strBeg, parts, b, fields);
      } else {
        SofarSkip(d, b, fields, step, end, x, subBeg, parts);
      }
      x := x + 1;
    }
    SofarEnd(d, b, fields, step, end, subBeg, parts);
    RestOfPart(fields, beg, step, end, header, blockSize, lineNumber);
    data := MimeBlock(step, end, blockSize - header.blockSize, lineNumber - header.lineNumber);
  }

  /** mimepart::parse. Where no CRLF field is found the source goes on with counters it never
      set; the model returns BadPart there. */
  method ParsePart(d: Decoder, buffer: string, segs: seq<Segment>, beg: nat, end: nat, ghost fields: seq<string>)
    returns (part: MimePart)
    requires Segmented(buffer, segs, fields) && beg <= end < |segs| < 0x8000_0000
    ensures ToTree(fields, part) == BatchTree(d, Offset(fields, beg), fields[beg..end + 1])
    decreases end - beg, 1
  {
    hide BatchTree, ToTree, BatchScan, BlankAt, LastType, BatchSubs, BlockAt, ToBlock, Offset, Segmented;
    AsManyFields(buffer, segs, fields);
    var found, header, step, contentType := ParseHeader(d, buffer, segs, beg, end, fields);
    if !found {
      UndefinedTree(d, fields, beg, end);
      return BadPart;
    }
    var data, parts := ParseBody(d, buffer, segs, beg, step, end, header, contentType, fields);
    part := MimePart(header, data, parts);
    TreeOfParts(d, fields, beg, step, end, contentType, header, data, parts);
  }

  lemma NoCutInside(s: string)
    requires forall y | 0 <= y < |s| :: !CutsAt(s, y)
    ensures Emitted(s) == [] && Pending(s) == s
  {
    assert NextCut(s, 0) == |s|;
  }

  lemma LastSegment(s: string)
    requires forall y | 0 <= y < |s| :: !CutsAt(s, y)
    requires s != "" ==> Last(s) != '\n'
    ensures BatchCut(s) == []
  {
    NoCutInside(s);
  }

  lemma SegmentCut(buffer: string, beg: nat, x: nat)
    requires beg <= x < |buffer| && buffer[x] == '\n'
    requires x + 1 < |buffer| ==> buffer[x + 1] != ' ' && buffer[x + 1] != '\t'
    requires forall y | beg <= y < x :: !CutsAt(buffer, y)
    ensures BatchCut(buffer[beg..]) == [buffer[beg..x + 1]] + BatchCut(buffer[x + 1..])
  {
    hide Emitted, Pending;
    var s := buffer[beg..];
    forall y | 0 <= y < x - beg ensures !CutsAt(s, y) {
      assert !CutsAt(buffer, beg + y);
    }
    if x + 1 < |buffer| {
      var k := x - beg;
      NextCutUnique(s, k);
      FirstCut(s, k);
      assert s[..k + 1] == buffer[beg..x + 1] && s[k + 1..] == buffer[x + 1..];
      var later := buffer[x + 1..];
      Assoc([s[..k + 1]], Emitted(later), if Last(Pending(later)) == '\n' then [Pending(later)] else []);
    } else {
      NoCutInside(s);
      NoCutInside(buffer[x + 1..]);
      assert buffer[beg..x + 1] == s && buffer[x + 1..] == "";
    }
  }

  /** MIME::GlobalParse: the segment table. Behind the last byte stands the terminating NUL. */
  method CutSegments(buffer: string) returns (segs: seq<Segment>)
    ensures Segmented(buffer, segs, BatchCut(buffer))
  {
    hide BatchCut;
    segs := [];
    var byteBeg, x := 0, 0;
    ghost var done: seq<string> := [];
    while x < |buffer|
      invariant 0 <= byteBeg <= x <= |buffer|
      invariant Segmented(buffer, segs, done)
      invariant done + BatchCut(buffer[byteBeg..]) == BatchCut(buffer)
      invariant forall y | byteBeg <= y < x :: !CutsAt(buffer, y)
      invariant x == |buffer| && byteBeg < x ==> buffer[x - 1] != '\n'
    {
      var next := if x + 1 < |buffer| then buffer[x + 1] else '\0';
      if buffer[x] == '\n' && next != ' ' && next != '\t' {
        SegmentCut(buffer, byteBeg, x);
        assert done + ([buffer[byteBeg..x + 1]] + BatchCut(buffer[x + 1..]))
            == (done + [buffer[byteBeg..x + 1]]) + BatchCut(buffer[x + 1..]);
        segs := segs + [Segment(byteBeg, x)];
        done := done + [buffer[byteBeg..x + 1]];
        byteBeg := x + 1;
      }
      x := x + 1;
    }
    forall y | 0 <= y < |buffer| - byteBeg ensures !CutsAt(buffer[byteBeg..], y) {
      assert !CutsAt(buffer, byteBeg + y);
    }
    LastSegment(buffer[byteBeg..]);
  }

  lemma EmptyMessage(d: Decoder, fields: seq<string>)
    requires fields == []
    ensures BatchTree(d, 0, fields) == Undefined == ToTree(fields, BadPart)
  {
  }

  lemma {:induction false} MorePiecesThanBytes(pieces: seq<string>)
    requires "" !in pieces
    ensures |pieces| <= |Concat(pieces)|
  {
    if pieces != [] {
      assert "" !in pieces[1..];
      MorePiecesThanBytes(pieces[1..]);
    }
  }

  lemma FewSegments(s: string)
    ensures |BatchCut(s)| <= |s|
  {
    CutTiles(s);
    MorePiecesThanBytes(Cut(s));
  }

  /** MIME::GlobalParse as a whole. */
  method GlobalParse(d: Decoder, buffer: string) returns (segs: seq<Segment>, root: MimePart)
    requires |buffer| < 0x8000_0000
    ensures Segmented(buffer, segs, BatchCut(buffer))
    ensures ToTree(BatchCut(buffer), root) == BatchMessage(d, buffer)
  {
    hide BatchTree, ToTree;
    segs := CutSegments(buffer);
    ghost var fields := BatchCut(buffer);
    FewSegments(buffer);
    if |segs| == 0 {
      EmptyMessage(d, fields);
      return segs, BadPart;
    }
    root := ParsePart(d, buffer, segs, 0, |segs| - 1, fields);
    assert fields[0..|segs|] == fields && fields[..0] == [];
  }
}
