/** Answering FETCH BODY.PEEK[n.m]: walking the loaded summary, reading the file through the
    window cache, and sending the literal (src/letter.cpp, src/letter.h, src/imap.cpp). */
module Fetch {
  import opened Text
  import opened Summary
  import opened Tiling
  import opened Fields
  import opened Archive

  const WINDOW := 4096
  const UNSET: nat := 0xFFFF_FFFF
  const CHUNK := 1024

  /** dynamic_mmap, with the positional read of the HDFS build: at a place inside the file it
      returns some bytes, at least one, and nowhere else any. */
  class DynamicMmap {
    const file: string
    const mapBuf: array<char>
    var mapBeg: nat
    var mapEnd: nat

    /** The buffer mirrors the file between mapBeg and mapEnd. */
    ghost predicate Valid()
      reads this, mapBuf
    {
      && mapBuf.Length == WINDOW && |file| < 0x8000_0000
      && (mapBeg == mapEnd == UNSET ||
          (mapBeg <= mapEnd < |file| && mapEnd - mapBeg < WINDOW &&
           mapBuf[..mapEnd - mapBeg + 1] == file[mapBeg..mapEnd + 1]))
    }

    constructor (file: string)
      requires |file| < 0x8000_0000
      ensures Valid() && this.file == file && fresh(mapBuf)
    {
      this.file := file;
      mapBuf := new char[WINDOW];
      mapBeg, mapEnd := UNSET, UNSET;
    }

    /** hdfsSeek and hdfsRead: any positive number of bytes there are. */
    method Read(i: int) returns (count: nat)
      requires mapBuf.Length == WINDOW
      modifies mapBuf
      ensures if 0 <= i < |file|
              then 0 < count <= WINDOW && i + count <= |file| && mapBuf[..count] == file[i..i + count]
              else count == 0
    {
      if 0 <= i < |file| {
        count :| 0 < count <= WINDOW && i + count <= |file|;
        var k := 0;
        while k < count
          invariant 0 <= k <= count
          invariant mapBuf[..k] == file[i..i + k]
        {
          mapBuf[k] := file[i + k];
          k := k + 1;
        }
      } else {
        count := 0;
      }
    }

    /** operator[]; None where the source throws, which aborts. */
    method At(i: int) returns (c: Option<char>)
      requires Valid() && -0x8000_0000 <= i < 0x8000_0000
      modifies this, mapBuf
      ensures Valid()
      ensures c == if 0 <= i < |file| then Some(file[i]) else None
    {
      if i >= 0 && i >= mapBeg && i <= mapEnd {
        assert mapBuf[i - mapBeg] == mapBuf[..mapEnd - mapBeg + 1][i - mapBeg];
        assert file[mapBeg..mapEnd + 1][i - mapBeg] == file[i];
        return Some(mapBuf[i - mapBeg]);
      }
      var readCount := Read(i);
      if readCount > 0 {
        mapBeg := i;
        mapEnd := i + readCount - 1;
        assert mapBuf[0] == mapBuf[..readCount][0];
        return Some(mapBuf[i - mapBeg]);
      } else {
        mapBeg, mapEnd := UNSET, UNSET;
        return None;
      }
    }

    /** dynamic_mmap_copy. */
    method Copy(dest: array<char>, from: nat, size: nat)
      requires Valid() && dest != mapBuf && size <= dest.Length && from + size <= |file|
      modifies this, mapBuf, dest
      ensures Valid()
      ensures dest[..size] == file[from..from + size]
    {
      var i := 0;
      while i < size
        invariant 0 <= i <= size && Valid()
        invariant dest[..i] == file[from..from + i]
      {
        var c := At(from + i);
        dest[i] := c.value;
        i := i + 1;
      }
    }
  }

  /** What the client gets for a literal: each chunk goes out up to its first NUL. */
  function Delivered(s: string): string
    decreases |s|
  {
    if |s| <= CHUNK then CString(s) else CString(s[..CHUNK]) + Delivered(s[CHUNK..])
  }

  /** A literal has the announced length, and is the text itself, if and only if the text holds
      no NUL. */
  lemma {:induction false} DeliveredExactly(s: string)
    ensures |Delivered(s)| <= |s|
    ensures |Delivered(s)| == |s| <==> '\0' !in s
    ensures '\0' !in s ==> Delivered(s) == s
    decreases |s|
  {
    if |s| <= CHUNK {
      CStringWhole(s);
    } else {
      var head, rest := s[..CHUNK], s[CHUNK..];
      assert s == head + rest;
      CStringWhole(head);
      DeliveredExactly(rest);
    }
  }

  function Slice(s: string, beg: nat, end: nat): string {
    if beg < end <= |s| then s[beg..end] else ""
  }

  /** How many sends a literal of n bytes takes. */
  function Chunks(n: nat): nat { (n + CHUNK - 1) / CHUNK }

  /** How much of it stands before a send. */
  function Start(n: nat, done: nat): (start: nat)
    ensures start <= n
  {
    if done * CHUNK <= n then done * CHUNK else n
  }

  lemma StartStep(n: nat, done: nat)
    ensures Start(n, 0) == 0
    ensures var at := Start(n, done);
            at < n ==>
              && done < Chunks(n) && at == done * CHUNK
              && Start(n, done + 1) == at + (if n - at > CHUNK then CHUNK else n - at)
  {
  }

  lemma ChunkCount(n: nat, done: nat)
    requires Start(n, done) == n && (done > 0 ==> Start(n, done - 1) < n)
    ensures done == Chunks(n)
  {
  }

  /** What went out of a literal, where `accepts` tells which sends succeed: all chunks, or those
      before the first send that fails. */
  predicate Sent(range: string, accepts: nat -> bool, sent: string, done: nat) {
    && done <= Chunks(|range|) && (forall k | 0 <= k < done :: accepts(k))
    && if done == Chunks(|range|) then sent == Delivered(range)
       else
         && !accepts(done) && done * CHUNK <= |range|
         && sent + Delivered(range[done * CHUNK..]) == Delivered(range)
  }

  lemma SentNothing(range: string)
    ensures "" + Delivered(range[0..]) == Delivered(range)
  {
    hide Delivered;
    assert range[0..] == range;
  }

  lemma RestBehind(range: string, n: nat, size: nat)
    requires n + size <= |range|
    ensures range[n..][size..] == range[n + size..]
  {
  }

  lemma RestOf(file: string, beg: nat, end: nat, nRead: nat, size: nat)
    requires beg + nRead + size <= end <= |file| && beg < end
    ensures file[beg + nRead..beg + nRead + size] == Slice(file, beg, end)[nRead..][..size]
  {
    var range := file[beg..end];
    SliceOfSlice(file, beg, end, nRead, nRead + size);
    assert range[nRead..][..size] == range[nRead..nRead + size];
  }

  lemma NothingDelivered()
    ensures Delivered("") == ""
  {
  }

  lemma DeliverStep(sent: string, rest: string, size: nat)
    requires rest != "" && size == (if |rest| > CHUNK then CHUNK else |rest|)
    ensures sent + Delivered(rest) == (sent + CString(rest[..size])) + Delivered(rest[size..])
  {
    hide CString;
    if |rest| <= CHUNK {
      assert rest[..size] == rest && rest[size..] == "";
      NothingDelivered();
      assert sent + CString(rest) + "" == sent + CString(rest);
    } else {
      Assoc(sent, CString(rest[..size]), Delivered(rest[size..]));
    }
  }

  /** The next chunk as a C string. */
  method ReadChunk(body: DynamicMmap, tmp: array<char>, beg: nat, end: nat, nRead: nat, size: nat)
    requires body.Valid() && tmp != body.mapBuf && size < tmp.Length
    requires beg < end <= |body.file| && beg + nRead + size <= end
    modifies body, body.mapBuf, tmp
    ensures body.Valid() && CString(tmp[..]) == CString(Slice(body.file, beg, end)[nRead..][..size])
  {
    hide CString;
    body.Copy(tmp, beg + nRead, size);
    tmp[size] := '\0';
    RestOf(body.file, beg, end, nRead, size);
    ghost var chunk := Slice(body.file, beg, end)[nRead..][..size];
    assert tmp[..size] == chunk && tmp[..][..size] == tmp[..size];
    NulEnds(tmp[..], chunk);
  }

  /** The sending loop; a failed send ends it. */
  method SendLiteral(body: DynamicMmap, beg: nat, end: nat, accepts: nat -> bool)
    returns (announced: nat, sent: string, done: nat)
    requires body.Valid() && beg <= end && (beg < end ==> end <= |body.file|)
    modifies body, body.mapBuf
    ensures body.Valid() && announced == end - beg == |Slice(body.file, beg, end)|
    ensures Sent(Slice(body.file, beg, end), accepts, sent, done)
  {
    hide Delivered, Chunks, CString, Start;
    announced := end - beg;
    var tLen, nRead := end - beg, 0;
    var tmp := new char[CHUNK + 1];
    sent, done := "", 0;
    ghost var range := Slice(body.file, beg, end);
    SentNothing(range);
    StartStep(tLen, 0);
    while nRead < tLen
      invariant body.Valid() && |range| == tLen
      invariant nRead == Start(tLen, done)
      invariant done > 0 ==> Start(tLen, done - 1) < tLen
      invariant forall k | 0 <= k < done :: accepts(k)
      invariant sent + Delivered(range[nRead..]) == Delivered(range)
    {
      var size := if tLen - nRead > CHUNK then CHUNK else tLen - nRead;
      ReadChunk(body, tmp, beg, end, nRead, size);
      StartStep(tLen, done);
      if !accepts(done) {
        break;
      }
      DeliverStep(sent, range[nRead..], size);
      RestBehind(range, nRead, size);
      nRead := nRead + size;
      sent := sent + CString(tmp[..]);
      done := done + 1;
    }
    if nRead == tLen {
      ChunkCount(tLen, done);
      assert range[nRead..] == "" && sent + "" == sent;
      NothingDelivered();
    }
  }

  // ---- finding the part ----

  /** Where a path of sub-part numbers leads. The source follows m_data without a check, on the way
      and for the literal, so a part without data ends the walk in a null pointer. */
  datatype Found = Missing | NullData | At(part: LoadedPart)

  /** Numbers that are not positive (atoi of a word such as TEXT) are skipped. */
  function Walk(p: LoadedPart, path: seq<int>): (found: Found)
    ensures found.At? ==> found.part.data.Some?
    decreases |path|
  {
    if path == [] then if p.data.None? then NullData else At(p)
    else if path[0] <= 0 then Walk(p, path[1..])
    else
      match p.data
      case None => NullData
      case Some(s) => if |s.parts| < path[0] then Missing else Walk(s.parts[path[0] - 1], path[1..])
  }

  method FindPart(root: LoadedPart, path: seq<int>) returns (found: Found)
    ensures found == Walk(root, path)
  {
    var p, i := root, 0;
    while i < |path|
      invariant 0 <= i <= |path|
      invariant Walk(p, path[i..]) == Walk(root, path)
    {
      if path[i] > 0 {
        if p.data.None? {
          return NullData;
        }
        if |p.data.value.parts| < path[i] {
          return Missing;
        }
        p := p.data.value.parts[path[i] - 1];
      }
      i := i + 1;
    }
    found := if p.data.None? then NullData else At(p);
  }

  /** Every data range is empty or inside the file. */
  predicate RangesInside(p: LoadedPart, size: nat) {
    match p.data
    case None => true
    case Some(s) =>
      && s.blk.beg <= s.blk.end && (s.blk.beg < s.blk.end ==> s.blk.end <= size)
      && forall q | q in s.parts :: RangesInside(q, size)
  }

  lemma {:induction false} WalkInside(p: LoadedPart, path: seq<int>, size: nat)
    requires RangesInside(p, size)
    ensures Walk(p, path).At? ==> RangesInside(Walk(p, path).part, size)
    decreases |path|
  {
    if path != [] {
      if path[0] <= 0 {
        WalkInside(p, path[1..], size);
      } else if p.data.Some? && |p.data.value.parts| >= path[0] {
        WalkInside(p.data.value.parts[path[0] - 1], path[1..], size);
      }
    }
  }

  lemma BlockInside(t: string, b: Block)
    requires BlockIn(t, b) && |t| < TWO_32
    ensures b.beg <= b.end <= |t| && Stored(b).beg == b.beg && Stored(b).end == b.end
  {
  }

  lemma {:induction false} ViewsAt(ps: seq<Part>)
    ensures |Views(ps)| == |ps|
    ensures forall i | 0 <= i < |ps| :: Views(ps)[i] == View(ps[i])
    decreases |ps|
  {
    hide View;
    if ps != [] {
      ViewsAt(ps[1..]);
    }
  }

  /** What the summary of a text loads as never reaches outside that text. */
  lemma {:induction false} TiledInside(t: string, p: Part)
    requires Tiled(t, p) && |t| < TWO_32 - 1
    ensures RangesInside(View(p), |t|)
    decreases p
  {
    hide BlockIn, ClosedIn, Before, Behind;
    match p.data
    case None =>
    case Some(s) =>
      assert DataTiled(t, s) && ClosedTiled(t, s.boundary, s.blk, s.closed);
      BlockInside(t, s.blk);
      forall i | 0 <= i < |s.closed| ensures RangesInside(View(s.closed[i]), |t|) {
        TiledInside(t, s.closed[i]);
      }
      ViewsAt(s.closed);
  }

  /** The saved sub-parts are loaded one by one, in order. */
  lemma {:induction false} LoadedParts(ps: seq<Part>)
    ensures From(SaveParts(ps), "MIME") == SaveParts(ps)
    ensures |LoadParts(SaveParts(ps))| == |ps|
    ensures forall i | 0 <= i < |ps| :: LoadParts(SaveParts(ps))[i] == LoadPart(SavePart(ps[i]))
    decreases |ps|
  {
    hide LoadPart, SavePart, From;
    if ps == [] {
      NothingFrom("MIME");
    } else {
      LoadedParts(ps[1..]);
      SavedPartName(ps[0]);
      FromCons(SavePart(ps[0]), SaveParts(ps[1..]), "MIME");
      LoadCons(SavePart(ps[0]), SaveParts(ps[1..]));
    }
  }

  lemma AllInside(ps: seq<Part>, size: nat)
    requires forall i | 0 <= i < |ps| ::
               RangesInside(LoadPart(SavePart(ps[i])), size) <==> RangesInside(View(ps[i]), size)
    ensures (forall q | q in LoadParts(From(SaveParts(ps), "MIME")) :: RangesInside(q, size))
            <==> forall q | q in Views(ps) :: RangesInside(q, size)
  {
    hide LoadPart, SavePart, LoadParts, SaveParts, From, View, Views, RangesInside;
    LoadedParts(ps);
    ViewsAt(ps);
    var loaded, views := LoadParts(From(SaveParts(ps), "MIME")), Views(ps);
    if forall q | q in loaded :: RangesInside(q, size) {
      forall i | 0 <= i < |views| ensures RangesInside(views[i], size) {
        assert loaded[i] in loaded;
      }
    }
    if forall q | q in views :: RangesInside(q, size) {
      forall i | 0 <= i < |loaded| ensures RangesInside(loaded[i], size) {
        assert views[i] in views;
      }
    }
  }

  /** Saving and loading keep the ranges, also where they do not keep the attributes. */
  lemma {:induction false} LoadedRanges(p: Part, size: nat)
    ensures RangesInside(LoadPart(SavePart(p)), size) <==> RangesInside(View(p), size)
    decreases p, 0
  {
    hide LoadPart, SavePart, LoadHeader, SaveHeader, LoadParts, SaveParts, From;
    ShapeOfSaved(p);
    if p.data.Some? {
      LoadedParts(p.data.value.closed);
      ViewsAt(p.data.value.closed);
      forall i | 0 <= i < |p.data.value.closed|
        ensures var q := p.data.value.closed[i];
                RangesInside(LoadPart(SavePart(q)), size) <==> RangesInside(View(q), size)
      {
        LoadedRanges(p.data.value.closed[i], size);
      }
      AllInside(p.data.value.closed, size);
    }
  }

  /** The summary that FETCH loads for a text never reaches outside that text. */
  lemma LettersAreInside(d: Decoder, text: string)
    requires |text| < TWO_32 - 1
    ensures RangesInside(LoadPart(SavePart(Feed(d, NewPart(0), Cut(text)))), |text|)
  {
    hide View, Feed, RangesInside, Tiled, LoadPart, SavePart;
    CutTiles(text);
    RunTiled(d, Cut(text));
    var p := Feed(d, NewPart(0), Cut(text));
    TiledInside(text, p);
    LoadedRanges(p, |text|);
  }

  // ---- when the walk ends in a null pointer ----

  /** The walk comes to a part with an empty range. */
  predicate MeetsEmpty(p: LoadedPart, path: seq<int>)
    decreases |path|
  {
    if path != [] && path[0] <= 0 then MeetsEmpty(p, path[1..])
    else
      || p.blk.beg == p.blk.end
      || (path != [] && p.data.Some? && path[0] <= |p.data.value.parts|
          && MeetsEmpty(p.data.value.parts[path[0] - 1], path[1..]))
  }

  /** At every depth, exactly the parts with an empty range have no data. */
  predicate OnlyEmptyLackData(p: LoadedPart) {
    && (p.data.None? <==> p.blk.beg == p.blk.end)
    && (p.data.Some? ==> forall q | q in p.data.value.parts :: OnlyEmptyLackData(q))
  }

  lemma {:induction false} NullIffEmpty(p: LoadedPart, path: seq<int>)
    requires OnlyEmptyLackData(p)
    ensures Walk(p, path).NullData? <==> MeetsEmpty(p, path)
    decreases |path|
  {
    if path != [] {
      if path[0] <= 0 {
        NullIffEmpty(p, path[1..]);
      } else if p.data.Some? && path[0] <= |p.data.value.parts| {
        NullIffEmpty(p.data.value.parts[path[0] - 1], path[1..]);
      }
    }
  }

  predicate FedData(s: Data)
    decreases s, 0
  {
    && (forall q | q in s.closed :: Fed(q))
    && (s.open.Some? ==> Fed(s.open.value))
  }

  /** Parts that were fed only non-empty fields: a part with a header has bytes. */
  predicate Fed(p: Part)
    decreases p, 0
  {
    && p.blk.beg <= p.blk.end && (p.header.Some? ==> p.blk.beg < p.blk.end)
    && (p.data.Some? ==> FedData(p.data.value))
  }

  lemma {:induction false} DataStepFed(d: Decoder, s: Data, field: string)
    requires FedData(s) && field != ""
    ensures FedData(DataStep(d, s, field))
    decreases DataDepth(s), 1
  {
    if s.boundary != "" && !IsMarker(s.boundary, field) && s.open.Some? {
      PartStepFed(d, s.open.value, field);
    }
  }

  lemma {:induction false} PartStepFed(d: Decoder, p: Part, field: string)
    requires Fed(p) && field != ""
    ensures Fed(PartStep(d, p, field)) && PartStep(d, p, field).blk == Grow(p.blk, field)
    decreases PartDepth(p), 0
  {
    hide HeaderStep;
    if !p.inHeader {
      DataStepFed(d, DataOf(p), field);
    }
  }

  lemma {:induction false} FeedFed(d: Decoder, p: Part, fields: seq<string>)
    requires Fed(p) && "" !in fields
    ensures Fed(Feed(d, p, fields))
    decreases |fields|
  {
    hide PartStep, Fed;
    if fields != [] {
      PartStepFed(d, p, fields[0]);
      assert forall f | f in fields[1..] :: f in fields;
      FeedFed(d, PartStep(d, p, fields[0]), fields[1..]);
    }
  }

  lemma {:induction false} LoadedLackData(t: string, p: Part)
    requires Tiled(t, p) && Fed(p) && |t| < TWO_32
    ensures OnlyEmptyLackData(LoadPart(SavePart(p)))
    decreases p
  {
    hide BlockIn, ClosedIn, Before, Behind, LoadPart, SavePart, LoadHeader, SaveHeader, LoadParts, SaveParts, From;
    ShapeOfSaved(p);
    BlockInside(t, p.blk);
    if p.data.Some? {
      var s := p.data.value;
      assert DataTiled(t, s) && ClosedTiled(t, s.boundary, s.blk, s.closed);
      LoadedParts(s.closed);
      forall i | 0 <= i < |s.closed| ensures OnlyEmptyLackData(LoadPart(SavePart(s.closed[i]))) {
        LoadedLackData(t, s.closed[i]);
      }
    }
  }

  /** For every letter and path: the null pointer is met if and only if the walk comes to a part with
      an empty range, as two markers in a row leave one. */
  lemma NullPointers(d: Decoder, text: string, path: seq<int>)
    requires |text| < TWO_32
    ensures var root := LoadPart(SavePart(Feed(d, NewPart(0), Cut(text))));
            Walk(root, path).NullData? <==> MeetsEmpty(root, path)
  {
    hide Feed, Tiled, LoadPart, SavePart, OnlyEmptyLackData;
    CutTiles(text);
    RunTiled(d, Cut(text));
    FeedFed(d, NewPart(0), Cut(text));
    var p := Feed(d, NewPart(0), Cut(text));
    LoadedLackData(text, p);
    NullIffEmpty(LoadPart(SavePart(p)), path);
  }

  /** FETCH of one part; a path to a missing part is answered NIL, and a null pointer stops the
      process. The announced length is the length of what is sent, and what is sent is the part's data
      range of the file, exactly when that range holds no NUL, unless a send fails. */
  method FetchPart(body: DynamicMmap, root: LoadedPart, path: seq<int>, accepts: nat -> bool)
    returns (found: Found, announced: nat, sent: string, done: nat)
    requires body.Valid() && RangesInside(root, |body.file|)
    modifies body, body.mapBuf
    ensures body.Valid() && found == Walk(root, path)
    ensures found.At? ==>
              var blk := found.part.data.value.blk;
              var range := Slice(body.file, blk.beg, blk.end);
              && announced == blk.end - blk.beg == |range| && Sent(range, accepts, sent, done)
              && ((forall k | 0 <= k < Chunks(|range|) :: accepts(k)) ==>
                    (|sent| == announced <==> '\0' !in range) && ('\0' !in range ==> sent == range))
  {
    found := FindPart(root, path);
    announced, sent, done := 0, "", 0;
    if found.At? {
      WalkInside(root, path, |body.file|);
      var blk := found.part.data.value.blk;
      announced, sent, done := SendLiteral(body, blk.beg, blk.end, accepts);
      DeliveredExactly(Slice(body.file, blk.beg, blk.end));
    }
  }

  /** The chunks have 1024 bytes. */
  lemma FirstChunk(s: string)
    ensures |s| <= 1024 ==> Delivered(s) == CString(s) && Chunks(|s|) == if s == "" then 0 else 1
    ensures |s| > 1024 ==>
              Delivered(s) == CString(s[..1024]) + Delivered(s[1024..]) && Chunks(|s|) == 1 + Chunks(|s[1024..]|)
  {
  }
}
