/** After every field, at every depth, the ranges of the summary tile the text read so far. */
module Tiling {
  import opened Text
  import opened Summary

  ghost predicate BlockIn(t: string, b: Block) {
    b.beg <= b.end <= |t| && b.lines == Count(t[b.beg..b.end], '\n')
  }

  ghost predicate Behind(t: string, b: string, all: Block, beg: nat) {
    var m := BeginMarker(b);
    all.beg + |m| <= beg && At(t, beg - |m|, m)
  }

  ghost predicate ClosedIn(t: string, b: string, all: Block, part: Block) {
    && Behind(t, b, all, part.beg)
    && exists m :: IsMarker(b, m) && part.end + |m| <= all.end && At(t, part.end, m)
  }

  predicate Before(b: string, x: Block, y: Block) {
    x.end + |BeginMarker(b)| <= y.beg
  }

  ghost predicate OpenTiled(t: string, b: string, all: Block, closed: seq<Part>, p: Part)
    decreases p, 1
  {
    && Behind(t, b, all, p.blk.beg) && p.blk.end == all.end && Tiled(t, p)
    && forall i | 0 <= i < |closed| :: Before(b, closed[i].blk, p.blk)
  }

  /** Sub-parts lie inside the data in order, each right behind a begin marker; a closed one
      ends right before a marker, the open one ends where the data ends. */
  ghost predicate DataTiled(t: string, s: Data)
    decreases s, 1
  {
    && BlockIn(t, s.blk)
    && (s.boundary == "" ==> s.closed == [] && s.open.None?)
    && ClosedTiled(t, s.boundary, s.blk, s.closed)
    && match s.open case None => true case Some(p) => OpenTiled(t, s.boundary, s.blk, s.closed, p)
  }

  /** Header and data are adjacent and cover the part; line counts are those of the text. */
  ghost predicate Tiled(t: string, p: Part)
    decreases p, 0
  {
    BlockIn(t, p.blk) &&
    match p.header
    case None => p.inHeader && p.data.None? && p.blk.beg == p.blk.end
    case Some(h) =>
      BlockIn(t, h.blk) && h.blk.beg == p.blk.beg &&
      match p.data
      case None => h.blk.end == p.blk.end
      case Some(s) =>
        && !p.inHeader
        && s.blk.beg == h.blk.end && s.blk.end == p.blk.end
        && DataTiled(t, s)
  }

  ghost predicate ClosedTiled(t: string, b: string, all: Block, closed: seq<Part>)
    decreases closed, 0
  {
    && (forall i | 0 <= i < |closed| :: ClosedIn(t, b, all, closed[i].blk) && Tiled(t, closed[i]))
    && (forall i, j | 0 <= i < j < |closed| :: Before(b, closed[i].blk, closed[j].blk))
  }

  // ---- more text changes nothing that is already tiled ----

  lemma BlockKept(t: string, f: string, b: Block)
    requires BlockIn(t, b)
    ensures BlockIn(t + f, b)
  {
    assert (t + f)[b.beg..b.end] == t[b.beg..b.end];
  }

  lemma StandsKept(t: string, f: string, m: string, at: int)
    requires At(t, at, m)
    ensures At(t + f, at, m)
  {
    assert (t + f)[at..at + |m|] == t[at..at + |m|];
  }

  lemma ClosedInKept(t: string, f: string, b: string, all: Block, grown: Block, part: Block)
    requires ClosedIn(t, b, all, part)
    requires grown.beg == all.beg && all.end <= grown.end
    ensures ClosedIn(t + f, b, grown, part)
  {
    var m :| IsMarker(b, m) && part.end + |m| <= all.end && At(t, part.end, m);
    StandsKept(t, f, m, part.end);
    StandsKept(t, f, BeginMarker(b), part.beg - |BeginMarker(b)|);
  }

  lemma {:induction false} ClosedKept(t: string, f: string, b: string, all: Block, grown: Block, closed: seq<Part>)
    requires ClosedTiled(t, b, all, closed)
    requires grown.beg == all.beg && all.end <= grown.end
    ensures ClosedTiled(t + f, b, grown, closed)
    decreases closed, 0
  {
    forall i | 0 <= i < |closed|
      ensures ClosedIn(t + f, b, grown, closed[i].blk) && Tiled(t + f, closed[i])
    {
      ClosedInKept(t, f, b, all, grown, closed[i].blk);
      TiledKept(t, f, closed[i]);
    }
  }

  lemma {:induction false} DataKept(t: string, f: string, s: Data)
    requires DataTiled(t, s)
    ensures DataTiled(t + f, s)
    decreases s, 1
  {
    BlockKept(t, f, s.blk);
    ClosedKept(t, f, s.boundary, s.blk, s.blk, s.closed);
    match s.open
    case None =>
    case Some(p) =>
      StandsKept(t, f, BeginMarker(s.boundary), p.blk.beg - |BeginMarker(s.boundary)|);
      TiledKept(t, f, p);
  }

  lemma {:induction false} TiledKept(t: string, f: string, p: Part)
    requires Tiled(t, p)
    ensures Tiled(t + f, p)
    decreases p, 0
  {
    BlockKept(t, f, p.blk);
    match p.header
    case None =>
    case Some(h) =>
      BlockKept(t, f, h.blk);
      match p.data
      case None =>
      case Some(s) => DataKept(t, f, s);
  }

  // ---- one field ----

  lemma BlockGrows(t: string, f: string, b: Block)
    requires BlockIn(t, b) && b.end == |t|
    ensures BlockIn(t + f, Grow(b, f))
  {
    assert (t + f)[b.beg..] == t[b.beg..] + f;
    assert t[b.beg..b.end] == t[b.beg..];
    CountAppend(t[b.beg..], f, '\n');
    assert (t + f)[b.beg..b.end + |f|] == (t + f)[b.beg..];
  }

  lemma FreshTiled(t: string)
    ensures Tiled(t, NewPart(|t|)) && BlockIn(t, NewBlock(|t|))
    ensures forall b :: DataTiled(t, NewData(|t|, b))
  {
    assert t[|t|..|t|] == "";
  }

  lemma PushTiled(t: string, b: string, all: Block, closed: seq<Part>, p: Part)
    requires ClosedTiled(t, b, all, closed) && ClosedIn(t, b, all, p.blk) && Tiled(t, p)
    requires forall i | 0 <= i < |closed| :: Before(b, closed[i].blk, p.blk)
    ensures ClosedTiled(t, b, all, closed + [p])
  {
    var cs := closed + [p];
    forall i | 0 <= i < |cs| ensures ClosedIn(t, b, all, cs[i].blk) && Tiled(t, cs[i]) {
      if i < |closed| { assert cs[i] == closed[i]; }
    }
    forall i, j | 0 <= i < j < |cs| ensures Before(b, cs[i].blk, cs[j].blk) {
      assert cs[i] == closed[i];
    }
  }

  lemma OpenEndsAtMarker(t: string, f: string, b: string, all: Block, closed: seq<Part>, p: Part)
    requires OpenTiled(t, b, all, closed, p) && all.end == |t| && IsMarker(b, f)
    ensures ClosedIn(t + f, b, Grow(all, f), p.blk) && Tiled(t + f, p)
  {
    assert (t + f)[|t|..|t| + |f|] == f;
    assert At(t + f, p.blk.end, f);
    StandsKept(t, f, BeginMarker(b), p.blk.beg - |BeginMarker(b)|);
    TiledKept(t, f, p);
  }

  /** A marker closes the open part: everything before it stays where it was. */
  lemma CloseTiled(t: string, f: string, s: Data)
    requires DataTiled(t, s) && s.blk.end == |t| && IsMarker(s.boundary, f)
    ensures ClosedTiled(t + f, s.boundary, Grow(s.blk, f), Close(s))
  {
    ClosedKept(t, f, s.boundary, s.blk, Grow(s.blk, f), s.closed);
    match s.open
    case None => assert Close(s) == s.closed;
    case Some(p) =>
      OpenEndsAtMarker(t, f, s.boundary, s.blk, s.closed, p);
      PushTiled(t + f, s.boundary, Grow(s.blk, f), s.closed, p);
  }

  lemma BeginTiled(t: string, f: string, s: Data)
    requires DataTiled(t, s) && s.blk.end == |t| && f == BeginMarker(s.boundary)
    ensures OpenTiled(t + f, s.boundary, Grow(s.blk, f), Close(s), NewPart(|t + f|))
  {
    assert (t + f)[|t|..|t| + |f|] == f;
    FreshTiled(t + f);
    forall i | 0 <= i < |Close(s)| ensures Before(s.boundary, Close(s)[i].blk, NewPart(|t + f|).blk) {
      if i < |s.closed| {
        assert ClosedIn(t, s.boundary, s.blk, s.closed[i].blk);
      }
    }
  }

  lemma OpenIsTiled(t: string, b: string, all: Block, closed: seq<Part>, p: Part)
    requires OpenTiled(t, b, all, closed, p)
    ensures Tiled(t, p) && p.blk.end == all.end
  {
  }

  lemma OpenGrows(t: string, f: string, b: string, all: Block, closed: seq<Part>, p: Part, q: Part)
    requires OpenTiled(t, b, all, closed, p) && Tiled(t + f, q) && q.blk == Grow(p.blk, f)
    ensures OpenTiled(t + f, b, Grow(all, f), closed, q)
  {
    hide Tiled, Count, BeginMarker;
    StandsKept(t, f, BeginMarker(b), p.blk.beg - |BeginMarker(b)|);
  }

  lemma {:induction false} DataStepTiled(d: Decoder, t: string, s: Data, f: string)
    requires DataTiled(t, s) && s.blk.end == |t|
    ensures DataTiled(t + f, DataStep(d, s, f)) && DataStep(d, s, f).blk == Grow(s.blk, f)
    decreases DataDepth(s), 1
  {
    hide BlockIn, ClosedTiled, OpenTiled, Tiled, PartStep, BeginMarker, EndMarker;
    var b, grown := s.boundary, Grow(s.blk, f);
    BlockGrows(t, f, s.blk);
    ClosedKept(t, f, b, s.blk, grown, s.closed);
    if b == "" {
    } else if IsMarker(b, f) {
      CloseTiled(t, f, s);
      if f == BeginMarker(b) { BeginTiled(t, f, s); }
    } else if s.open.Some? {
      var p := s.open.value;
      OpenIsTiled(t, b, s.blk, s.closed, p);
      PartStepTiled(d, t, p, f);
      OpenGrows(t, f, b, s.blk, s.closed, p, PartStep(d, p, f));
    }
  }

  lemma {:induction false} PartStepTiled(d: Decoder, t: string, p: Part, f: string)
    requires Tiled(t, p) && p.blk.end == |t|
    ensures Tiled(t + f, PartStep(d, p, f)) && PartStep(d, p, f).blk == Grow(p.blk, f)
    decreases PartDepth(p), 0
  {
    BlockGrows(t, f, p.blk);
    FreshTiled(t);
    if p.inHeader {
      BlockGrows(t, f, HeaderOf(p).blk);
    } else {
      BlockKept(t, f, p.header.value.blk);
      DataStepTiled(d, t, DataOf(p), f);
    }
  }

  /** The ranges tile the text after any sequence of fields. */
  lemma {:induction false} RunTiled(d: Decoder, fields: seq<string>)
    ensures var p := Feed(d, NewPart(0), fields);
            Tiled(Concat(fields), p) && p.blk.beg == 0 && p.blk.end == |Concat(fields)|
    decreases |fields|
  {
    if fields == [] {
      FreshTiled("");
    } else {
      var n := |fields| - 1;
      var before, f := fields[..n], fields[n];
      assert fields == before + [f];
      RunTiled(d, before);
      ConcatSnoc(before, f);
      FeedSnoc(d, NewPart(0), before, f);
      PartStepTiled(d, Concat(before), Feed(d, NewPart(0), before), f);
    }
  }
}
