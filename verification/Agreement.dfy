/** The streaming summary and the batch parser read a message completely and alike exactly when it is
    well-formed. */
module Agreement {
  import opened Text
  import opened Fields
  import opened Summary
  import opened Batch

  // ---- what a finished streaming summary shows ----

  function StreamTree(p: Part): Tree
    decreases p
  {
    if p.header.None? || p.data.None? then Undefined
    else Tree(p.header.value.blk, p.data.value.blk, StreamTrees(p.data.value.closed))
  }

  function StreamTrees(ps: seq<Part>): seq<Tree>
    decreases ps
  {
    if ps == [] then []
    else StreamTrees(ps[..|ps| - 1]) + [StreamTree(ps[|ps| - 1])]
  }

  predicate Defined(t: Tree) {
    t.Tree? && forall s | s in t.subs :: Defined(s)
  }

  function StreamMessage(d: Decoder, text: string): Tree {
    StreamTree(Feed(d, NewPart(0), Cut(text)))
  }

  // ---- when the two parsers agree ----

  /** The index of the first blank field, CRLF or bare LF, or the end. */
  function FirstBlank(fields: seq<string>): (k: nat)
    ensures k <= |fields|
    ensures k < |fields| ==> IsBlank(fields[k])
    ensures forall i | 0 <= i < k :: !IsBlank(fields[i])
  {
    if fields == [] then 0
    else
      var n := |fields| - 1;
      var k := FirstBlank(fields[..n]);
      if k < n || IsBlank(fields[n]) then k else n + 1
  }

  /** The streaming scan: an end marker forgets where the part began. */
  function StreamScan(b: string, body: seq<string>): (s: Scan)
    ensures -1 <= s.at <= |body|
    ensures forall r | r in s.ranges :: r.0 <= r.1 <= |body|
  {
    if b == "" || body == [] then Scan([], -1)
    else
      var n := |body| - 1;
      var s := StreamScan(b, body[..n]);
      if !IsMarker(b, body[n]) then s
      else Scan(s.ranges + (if 0 <= s.at then [(s.at as nat, n)] else []),
                if body[n] == BeginMarker(b) then n + 1 else -1)
  }

  /** Some end marker follows a begin marker. */
  predicate HasEnded(b: string, body: seq<string>) {
    exists i, j :: 0 <= i < j < |body| && body[i] == BeginMarker(b) && body[j] == EndMarker(b)
  }

  /** Nothing but ignored fields follows the end marker of a multipart. */
  predicate Clean(b: string, body: seq<string>) {
    forall k | 0 <= k < |body| && IsMarker(b, body[k]) :: !HasEnded(b, body[..k])
  }

  /** A part both parsers read alike: its header ends in CRLF, not a bare LF; its body is not
      empty; and if it is a multipart, no marker follows its end marker and each enclosed part
      is well-formed itself. */
  predicate WellFormed(d: Decoder, fields: seq<string>)
    decreases |fields|
  {
    var k := FirstBlank(fields);
    k + 1 < |fields| && fields[k] == "\r\n" &&
    var body, b := fields[k + 1..], BoundaryIn(LastType(d, fields[..k]));
    b != "" ==> Clean(b, body) && forall r | r in StreamScan(b, body).ranges :: WellFormed(d, body[r.0..r.1])
  }

  // ---- the streaming summary, read as a scan ----

  lemma BlockSnoc(off: nat, before: seq<string>, f: string)
    ensures BlockAt(off, before + [f]) == Grow(BlockAt(off, before), f)
    ensures BlockAt(off, []) == NewBlock(off)
  {
    ConcatSnoc(before, f);
    CountAppend(Concat(before), f, '\n');
  }

  lemma {:induction false} HeaderRun(d: Decoder, off: nat, fields: seq<string>)
    requires FirstBlank(fields) >= |fields| - 1
    ensures var p := Feed(d, NewPart(off), fields);
            && p.blk == BlockAt(off, fields) && p.data.None?
            && (p.inHeader <==> FirstBlank(fields) == |fields|)
            && (fields != [] ==> p.header.Some? && p.header.value.blk == BlockAt(off, fields))
            && BoundaryOf(HeaderOf(p).attrs) == BoundaryIn(LastType(d, fields))
            && (ContentType in HeaderOf(p).attrs <==> LastType(d, fields).Some?)
            && (LastType(d, fields).Some? ==> HeaderOf(p).attrs[ContentType] == LastType(d, fields).value)
    decreases |fields|
  {
    if fields != [] {
      var n := |fields| - 1;
      var before, f := fields[..n], fields[n];
      assert fields == before + [f];
      HeaderRun(d, off, before);
      FeedSnoc(d, NewPart(off), before, f);
      BlockSnoc(off, before, f);
      var p := Feed(d, NewPart(off), before);
      assert p.inHeader && HeaderOf(p).blk == BlockAt(off, before);
    }
  }

  /** Fields fed to a data block. */
  function DataFeed(d: Decoder, s: Data, body: seq<string>): Data {
    if body == [] then s
    else
      var n := |body| - 1;
      DataStep(d, DataFeed(d, s, body[..n]), body[n])
  }

  /** Behind its header, a part's fields are its data's fields. */
  lemma {:induction false} PartRun(d: Decoder, p: Part, body: seq<string>)
    requires !p.inHeader && p.data.None? && body != []
    ensures var q := Feed(d, p, body);
            q.header == p.header && q.data == Some(DataFeed(d, DataOf(p), body)) && !q.inHeader
    decreases |body|
  {
    hide DataStep;
    var n := |body| - 1;
    var before, f := body[..n], body[n];
    assert body == before + [f];
    FeedSnoc(d, p, before, f);
    if n > 0 {
      PartRun(d, p, before);
    } else {
      assert before == [];
    }
  }

  function PartAt(d: Decoder, off: nat, body: seq<string>, r: (nat, nat)): Part
    requires r.0 <= r.1 <= |body|
  {
    Feed(d, NewPart(off + |Concat(body[..r.0])|), body[r.0..r.1])
  }

  /** The summaries of the ranges [lo, hi) of a body that starts at byte off. */
  function Parts(d: Decoder, off: nat, body: seq<string>, rs: seq<(nat, nat)>): seq<Part>
    requires forall r | r in rs :: r.0 <= r.1 <= |body|
  {
    if rs == [] then []
    else Parts(d, off, body, rs[..|rs| - 1]) + [PartAt(d, off, body, rs[|rs| - 1])]
  }

  lemma PartKept(d: Decoder, off: nat, body: seq<string>, f: string, r: (nat, nat))
    requires r.0 <= r.1 <= |body|
    ensures PartAt(d, off, body + [f], r) == PartAt(d, off, body, r)
  {
    assert (body + [f])[..r.0] == body[..r.0];
    assert (body + [f])[r.0..r.1] == body[r.0..r.1];
  }

  lemma {:induction false} PartsKept(d: Decoder, off: nat, body: seq<string>, f: string, rs: seq<(nat, nat)>)
    requires forall r | r in rs :: r.0 <= r.1 <= |body|
    ensures Parts(d, off, body + [f], rs) == Parts(d, off, body, rs)
  {
    hide PartAt;
    if rs != [] {
      PartsKept(d, off, body, f, rs[..|rs| - 1]);
      PartKept(d, off, body, f, rs[|rs| - 1]);
    }
  }

  lemma PartsSnoc(d: Decoder, off: nat, body: seq<string>, rs: seq<(nat, nat)>, r: (nat, nat))
    requires forall q | q in rs :: q.0 <= q.1 <= |body|
    requires r.0 <= r.1 <= |body|
    ensures Parts(d, off, body, rs + [r]) == Parts(d, off, body, rs) + [PartAt(d, off, body, r)]
  {
    assert (rs + [r])[..|rs|] == rs;
  }

  /** What is open when the part being read began at field `at`. */
  function OpenAt(d: Decoder, off: nat, body: seq<string>, at: int): Option<Part>
    requires -1 <= at <= |body|
  {
    if at == -1 then None else Some(PartAt(d, off, body, (at, |body|)))
  }

  lemma FreshPart(d: Decoder, off: nat, body: seq<string>)
    ensures PartAt(d, off, body, (|body|, |body|)) == NewPart(BlockAt(off, body).end)
  {
    assert body[..|body|] == body && body[|body|..|body|] == [];
  }

  lemma OpenGrows(d: Decoder, off: nat, before: seq<string>, f: string, at: nat)
    requires at <= |before|
    ensures PartAt(d, off, before + [f], (at, |before| + 1)) == PartStep(d, PartAt(d, off, before, (at, |before|)), f)
  {
    hide PartStep;
    var body := before + [f];
    assert body[..at] == before[..at];
    assert body[at..|body|] == before[at..|before|] + [f];
    FeedSnoc(d, NewPart(off + |Concat(before[..at])|), before[at..|before|], f);
  }

  lemma DataRunStep(d: Decoder, off: nat, b: string, before: seq<string>, f: string)
    requires var s, scan := DataFeed(d, NewData(off, b), before), StreamScan(b, before);
             && s.blk == BlockAt(off, before) && s.boundary == b
             && s.closed == Parts(d, off, before + [f], scan.ranges)
             && s.open == OpenAt(d, off, before, scan.at)
    requires BlockAt(off, before + [f]) == Grow(BlockAt(off, before), f)
    ensures var s, scan := DataStep(d, DataFeed(d, NewData(off, b), before), f), StreamScan(b, before + [f]);
            && s.blk == BlockAt(off, before + [f]) && s.boundary == b
            && s.closed == Parts(d, off, before + [f], scan.ranges)
            && s.open == OpenAt(d, off, before + [f], scan.at)
  {
    hide PartAt, PartStep, DataFeed, BlockAt, Grow, Parts;
    var n, body, scan := |before|, before + [f], StreamScan(b, before);
    assert body[..n] == before;
    if b == "" {
    } else if IsMarker(b, f) {
      if scan.at >= 0 {
        PartKept(d, off, before, f, (scan.at, n));
        PartsSnoc(d, off, body, scan.ranges, (scan.at, n));
      } else {
        assert scan.ranges + [] == scan.ranges;
      }
      FreshPart(d, off, body);
    } else if scan.at >= 0 {
      OpenGrows(d, off, before, f, scan.at);
    }
  }

  /** The data block holds one closed part per range of the scan, and the part being read. */
  lemma {:induction false} DataRun(d: Decoder, off: nat, b: string, body: seq<string>)
    ensures var s, scan := DataFeed(d, NewData(off, b), body), StreamScan(b, body);
            && s.blk == BlockAt(off, body) && s.boundary == b
            && s.closed == Parts(d, off, body, scan.ranges)
            && s.open == OpenAt(d, off, body, scan.at)
    decreases |body|
  {
    if body == [] {
      BlockSnoc(off, [], "");
    } else {
      var n := |body| - 1;
      var before, f := body[..n], body[n];
      assert body == before + [f];
      DataRun(d, off, b, before);
      BlockSnoc(off, before, f);
      PartsKept(d, off, before, f, StreamScan(b, before).ranges);
      DataRunStep(d, off, b, before, f);
    }
  }

  // ---- the two scans compared ----

  lemma CleanSnoc(b: string, before: seq<string>, f: string)
    ensures Clean(b, before + [f]) <==> Clean(b, before) && !(IsMarker(b, f) && HasEnded(b, before))
  {
    hide IsMarker, HasEnded;
    var body, n := before + [f], |before|;
    assert body[n] == f && body[..n] == before;
    assert forall k | 0 <= k < n :: body[k] == before[k] && body[..k] == before[..k];
  }

  lemma MarkersDiffer(b: string)
    ensures BeginMarker(b) != EndMarker(b)
  {
    assert |BeginMarker(b)| != |EndMarker(b)|;
  }

  lemma EndedSnoc(b: string, before: seq<string>, f: string)
    ensures HasEnded(b, before + [f]) <==>
            HasEnded(b, before) || (f == EndMarker(b) && BeginMarker(b) in before)
  {
    var body := before + [f];
    if HasEnded(b, before) {
      var i, j :| 0 <= i < j < |before| && before[i] == BeginMarker(b) && before[j] == EndMarker(b);
      assert body[i] == BeginMarker(b) && body[j] == EndMarker(b);
    }
    if f == EndMarker(b) && BeginMarker(b) in before {
      var i :| 0 <= i < |before| && before[i] == BeginMarker(b);
      assert body[i] == BeginMarker(b) && body[|before|] == EndMarker(b);
    }
    if HasEnded(b, body) {
      var i, j :| 0 <= i < j < |body| && body[i] == BeginMarker(b) && body[j] == EndMarker(b);
      assert before[i] == BeginMarker(b);
      if j < |before| { assert before[j] == EndMarker(b); }
    }
  }

  /** While the body is clean the batch scan finds the same ranges, provided none is empty;
      and it never loses track of where a part began. */
  lemma {:induction false} SameScan(b: string, body: seq<string>)
    requires b != "" && Clean(b, body)
    requires forall r | r in StreamScan(b, body).ranges :: r.0 < r.1
    ensures BatchScan(b, body).ranges == StreamScan(b, body).ranges
    ensures if HasEnded(b, body) then StreamScan(b, body).at == -1 && 0 <= BatchScan(b, body).at < |body|
            else StreamScan(b, body).at == BatchScan(b, body).at
    ensures BatchScan(b, body).at == -1 <==> BeginMarker(b) !in body
    decreases |body|
  {
    MarkersDiffer(b);
    if body != [] {
      var n := |body| - 1;
      var before := body[..n];
      assert body == before + [body[n]];
      CleanSnoc(b, before, body[n]);
      SameScan(b, before);
      EndedSnoc(b, before, body[n]);
      if IsMarker(b, body[n]) {
        var s := StreamScan(b, before);
        if s.at >= 0 {
          assert (s.at as nat, n) in StreamScan(b, body).ranges;
        }
      }
    }
  }

  /** The batch scan finds every non-empty range the streaming scan finds, and strictly more
      once a marker has followed an end marker. */
  lemma {:induction false} MoreRanges(b: string, body: seq<string>)
    requires b != ""
    requires forall r | r in StreamScan(b, body).ranges :: r.0 < r.1
    ensures |BatchScan(b, body).ranges| >= |StreamScan(b, body).ranges|
    ensures !Clean(b, body) ==> |BatchScan(b, body).ranges| > |StreamScan(b, body).ranges|
    ensures StreamScan(b, body).at >= 0 ==> BatchScan(b, body).at == StreamScan(b, body).at
    decreases |body|
  {
    if body != [] {
      var n := |body| - 1;
      var before := body[..n];
      assert body == before + [body[n]];
      forall r | r in StreamScan(b, before).ranges ensures r.0 < r.1 {
        assert r in StreamScan(b, body).ranges;
      }
      MoreRanges(b, before);
      var s := StreamScan(b, before);
      if IsMarker(b, body[n]) && s.at >= 0 {
        assert (s.at as nat, n) in StreamScan(b, body).ranges;
      }
      CleanSnoc(b, before, body[n]);
      if Clean(b, before) {
        SameScan(b, before);
      }
    }
  }

  // ---- agreement ----

  /** A part whose fields contain no blank, or nothing behind it, is never finished. */
  lemma UnfinishedPart(d: Decoder, off: nat, fields: seq<string>)
    requires FirstBlank(fields) + 1 >= |fields|
    ensures StreamTree(Feed(d, NewPart(off), fields)) == Undefined
  {
    HeaderRun(d, off, fields);
  }

  lemma FirstBlankUnique(fields: seq<string>, k: nat)
    requires k <= |fields| && (k < |fields| ==> IsBlank(fields[k]))
    requires forall i | 0 <= i < k :: !IsBlank(fields[i])
    ensures FirstBlank(fields) == k
  {
    hide FirstBlank;
  }

  lemma FirstBlankOfHeader(fields: seq<string>, k: nat)
    requires k == FirstBlank(fields) < |fields|
    ensures FirstBlank(fields[..k + 1]) == k && FirstBlank(fields[..k]) == k
  {
    FirstBlankUnique(fields[..k + 1], k);
    FirstBlankUnique(fields[..k], k);
  }

  lemma LastTypeOfHeader(d: Decoder, fields: seq<string>, k: nat)
    requires k < |fields| && IsBlank(fields[k])
    ensures LastType(d, fields[..k + 1]) == LastType(d, fields[..k])
  {
    assert fields[..k + 1][..k] == fields[..k];
    assert KindOf("\r\n").None? && KindOf("\n").None?;
  }

  /** The data of a part that has got beyond its header. */
  lemma DataShape(d: Decoder, off: nat, fields: seq<string>, k: nat, body: seq<string>)
    requires k == FirstBlank(fields) && k + 1 < |fields| && body == fields[k + 1..]
    ensures var p, header := Feed(d, NewPart(off), fields), BlockAt(off, fields[..k + 1]);
            var b := BoundaryIn(LastType(d, fields[..k]));
            && p.header.Some? && p.header.value.blk == header
            && p.data.Some? && p.data.value.blk == BlockAt(header.end, body)
            && p.data.value.closed == Parts(d, header.end, body, StreamScan(b, body).ranges)
  {
    hide Feed, DataFeed, PartStep, Parts, StreamScan, LastType, BlockAt;
    assert fields == fields[..k + 1] + body;
    FirstBlankOfHeader(fields, k);
    HeaderRun(d, off, fields[..k + 1]);
    HeaderRun(d, off, fields[..k]);
    FeedAppend(d, NewPart(off), fields[..k + 1], body);
    var p := Feed(d, NewPart(off), fields[..k + 1]);
    LastTypeOfHeader(d, fields, k);
    PartRun(d, p, body);
    DataRun(d, p.blk.end, BoundaryIn(LastType(d, fields[..k])), body);
    assert DataOf(p) == NewData(p.blk.end, BoundaryIn(LastType(d, fields[..k])));
  }

  /** The shape of a finished part. */
  lemma StreamShape(d: Decoder, off: nat, fields: seq<string>, k: nat, body: seq<string>)
    requires k == FirstBlank(fields) && k + 1 < |fields| && body == fields[k + 1..]
    ensures var t, header := StreamTree(Feed(d, NewPart(off), fields)), BlockAt(off, fields[..k + 1]);
            var b := BoundaryIn(LastType(d, fields[..k]));
            t == Tree(header, BlockAt(header.end, body),
                      StreamTrees(Parts(d, header.end, body, StreamScan(b, body).ranges)))
  {
    hide Feed, Parts, StreamScan, LastType, BlockAt;
    DataShape(d, off, fields, k, body);
  }

  lemma SnocEqual(xs: seq<Tree>, ys: seq<Tree>, x: Tree, y: Tree)
    ensures xs + [x] == ys + [y] <==> xs == ys && x == y
  {
    if xs + [x] == ys + [y] {
      assert (xs + [x])[..|xs|] == xs && (ys + [y])[..|ys|] == ys;
      assert (xs + [x])[|xs|] == x && (ys + [y])[|ys|] == y;
    }
  }

  lemma BlankIs(fields: seq<string>, k: nat)
    requires k == FirstBlank(fields) < |fields| && fields[k] == "\r\n"
    ensures BlankAt(fields, 0) == k
  {
    hide FirstBlank, BlankAt;
  }

  /** The batch parser reads past a bare LF, so its header is longer. */
  lemma LongerHeader(d: Decoder, off: nat, fields: seq<string>, k: nat)
    requires "" !in fields && k == FirstBlank(fields) < |fields| && fields[k] == "\n"
    ensures var t := BatchTree(d, off, fields);
            t.Tree? ==> t.header != BlockAt(off, fields[..k + 1])
  {
    hide FirstBlank, BlankAt;
    var j := BlankAt(fields, 0);
    if j < |fields| {
      assert j > k;
      Split(fields, 0, k + 1, j + 1);
      assert fields[..j + 1] == fields[0..j + 1] && fields[..k + 1] == fields[0..k + 1];
      NonEmptyConcat(fields[k + 1..j + 1]);
    }
  }

  lemma NoRanges(b: string, body: seq<string>)
    requires b == ""
    ensures StreamScan(b, body).ranges == [] == BatchScan(b, body).ranges
  {
  }

  lemma NotWellFormed(d: Decoder)
    ensures !WellFormed(d, [])
  {
  }

  lemma {:induction false} StreamCount(ps: seq<Part>)
    ensures |StreamTrees(ps)| == |ps|
    ensures forall i | 0 <= i < |ps| :: StreamTrees(ps)[i] == StreamTree(ps[i])
    decreases |ps|
  {
    hide StreamTree;
    if ps != [] {
      StreamCount(ps[..|ps| - 1]);
    }
  }

  lemma {:induction false} PartsCount(d: Decoder, off: nat, body: seq<string>, rs: seq<(nat, nat)>)
    requires forall r | r in rs :: r.0 <= r.1 <= |body|
    ensures |Parts(d, off, body, rs)| == |rs|
    ensures forall i | 0 <= i < |rs| :: Parts(d, off, body, rs)[i] == PartAt(d, off, body, rs[i])
    decreases |rs|
  {
    hide PartAt;
    if rs != [] {
      PartsCount(d, off, body, rs[..|rs| - 1]);
    }
  }

  lemma {:induction false} BatchCount(d: Decoder, off: nat, body: seq<string>, rs: seq<(nat, nat)>)
    requires forall r | r in rs :: r.0 < r.1 <= |body|
    ensures |BatchSubs(d, off, body, rs)| == |rs|
    decreases |rs|
  {
    hide BatchTree;
    if rs != [] {
      BatchCount(d, off, body, rs[..|rs| - 1]);
    }
  }

  lemma SubCounts(d: Decoder, off: nat, body: seq<string>, ss: seq<(nat, nat)>, bs: seq<(nat, nat)>)
    requires forall r | r in ss :: r.0 <= r.1 <= |body|
    requires forall r | r in bs :: r.0 < r.1 <= |body|
    ensures |StreamTrees(Parts(d, off, body, ss))| == |ss| && |BatchSubs(d, off, body, bs)| == |bs|
  {
    PartsCount(d, off, body, ss);
    StreamCount(Parts(d, off, body, ss));
    BatchCount(d, off, body, bs);
  }

  /** Two markers in a row leave a part without fields, which has no header. */
  lemma EmptyRange(d: Decoder, off: nat, body: seq<string>, ss: seq<(nat, nat)>, r: (nat, nat))
    requires forall q | q in ss :: q.0 <= q.1 <= |body|
    requires r in ss && r.0 == r.1
    ensures exists t :: t in StreamTrees(Parts(d, off, body, ss)) && !Defined(t)
  {
    var i :| 0 <= i < |ss| && ss[i] == r;
    PartsCount(d, off, body, ss);
    StreamCount(Parts(d, off, body, ss));
    assert body[r.0..r.1] == [];
    var t := StreamTrees(Parts(d, off, body, ss))[i];
    assert t == StreamTree(PartAt(d, off, body, r)) == Undefined;
    assert t in StreamTrees(Parts(d, off, body, ss));
  }

  /** The same ranges, read by both parsers. */
  lemma {:induction false} SubsAgree(d: Decoder, off: nat, body: seq<string>, rs: seq<(nat, nat)>)
    requires "" !in body && forall r | r in rs :: r.0 < r.1 <= |body|
    ensures (StreamTrees(Parts(d, off, body, rs)) == BatchSubs(d, off, body, rs) &&
             forall t | t in BatchSubs(d, off, body, rs) :: Defined(t))
            <==> forall r | r in rs :: WellFormed(d, body[r.0..r.1])
    decreases |body|, 1, |rs|
  {
    hide StreamTree, BatchTree, WellFormed, PartAt, Defined;
    if rs != [] {
      var n := |rs| - 1;
      var before: seq<(nat, nat)>, r: (nat, nat) := rs[..n], rs[n];
      assert rs == before + [r];
      SubsAgree(d, off, body, before);
      PartsSnoc(d, off, body, before, r);
      var ps := Parts(d, off, body, before);
      assert (ps + [PartAt(d, off, body, r)])[..|ps|] == ps;
      AgreeAt(d, off, body, r);
      SnocEqual(StreamTrees(ps), BatchSubs(d, off, body, before), StreamTree(PartAt(d, off, body, r)),
                BatchTree(d, off + |Concat(body[..r.0])|, body[r.0..r.1]));
    }
  }

  lemma BodiesAgree(d: Decoder, off: nat, b: string, body: seq<string>)
    requires "" !in body && body != []
    ensures var rs := BatchScan(b, body).ranges;
            (StreamTrees(Parts(d, off, body, StreamScan(b, body).ranges)) == BatchSubs(d, off, body, rs) &&
             forall t | t in BatchSubs(d, off, body, rs) :: Defined(t))
            <==>
            (b != "" ==> Clean(b, body) &&
                         forall r | r in StreamScan(b, body).ranges :: WellFormed(d, body[r.0..r.1]))
    decreases |body|, 2
  {
    hide WellFormed, Defined, BatchTree, StreamTree, Clean, StreamScan, BatchScan;
    var ss, bs := StreamScan(b, body).ranges, BatchScan(b, body).ranges;
    if b == "" {
      NoRanges(b, body);
    } else if forall r | r in ss :: r.0 < r.1 {
      MoreRanges(b, body);
      SubCounts(d, off, body, ss, bs);
      if Clean(b, body) {
        SameScan(b, body);
        SubsAgree(d, off, body, ss);
      }
    } else {
      var r :| r in ss && !(r.0 < r.1);
      assert body[r.0..r.1] == [];
      assert !WellFormed(d, []) by { NotWellFormed(d); }
      EmptyRange(d, off, body, ss, r);
    }
  }

  /** The streaming summary equals the batch tree, completely read, on exactly the well-formed parts. */
  lemma {:induction false} Agree(d: Decoder, off: nat, fields: seq<string>)
    requires "" !in fields
    ensures (StreamTree(Feed(d, NewPart(off), fields)) == BatchTree(d, off, fields) &&
             Defined(BatchTree(d, off, fields)))
            <==> WellFormed(d, fields)
    decreases |fields|, 0, 0
  {
    hide Parts, StreamScan, BatchScan, LastType, BatchSubs, StreamTrees, Feed, Clean;
    var k := FirstBlank(fields);
    if k + 1 >= |fields| {
      UnfinishedPart(d, off, fields);
    } else {
      var body, b := fields[k + 1..], BoundaryIn(LastType(d, fields[..k]));
      StreamShape(d, off, fields, k, body);
      if fields[k] == "\n" {
        LongerHeader(d, off, fields, k);
      } else {
        BlankIs(fields, k);
        var end := BlockAt(off, fields[..k + 1]).end;
        BodiesAgree(d, end, b, body);
      }
    }
  }

  lemma AgreeAt(d: Decoder, off: nat, body: seq<string>, r: (nat, nat))
    requires "" !in body && r.0 < r.1 <= |body|
    ensures var t := BatchTree(d, off + |Concat(body[..r.0])|, body[r.0..r.1]);
            (StreamTree(PartAt(d, off, body, r)) == t && Defined(t)) <==> WellFormed(d, body[r.0..r.1])
    decreases |body|, 0, 1
  {
    hide StreamTree, BatchTree, WellFormed, Defined;
    Agree(d, off + |Concat(body[..r.0])|, body[r.0..r.1]);
  }

  lemma Halves(fields: seq<string>, k: nat)
    requires k <= |fields|
    ensures |Concat(fields)| == |Concat(fields[..k])| + |Concat(fields[k..])|
  {
    Split(fields, 0, k, |fields|);
    assert fields[0..|fields|] == fields && fields[0..k] == fields[..k] && fields[k..|fields|] == fields[k..];
  }

  /** Where the data of a message ends, as each parser sees it. */
  lemma DataEnds(d: Decoder, fields: seq<string>)
    ensures var t := StreamTree(Feed(d, NewPart(0), fields)); t.Tree? ==> t.data.end == |Concat(fields)|
    ensures var t := BatchTree(d, 0, fields); t.Tree? ==> t.data.end == |Concat(fields)|
  {
    hide Feed, Parts, StreamTrees, StreamScan, BatchScan, BatchSubs, LastType, Concat;
    var k := FirstBlank(fields);
    if k + 1 >= |fields| {
      UnfinishedPart(d, 0, fields);
    } else {
      StreamShape(d, 0, fields, k, fields[k + 1..]);
      Halves(fields, k + 1);
    }
    var j := BlankAt(fields, 0);
    if j < |fields| {
      Halves(fields, j + 1);
    }
  }

  lemma EmptyText()
    ensures Cut("") == [] == BatchCut("")
  {
  }

  /** A text ends as its pending tail does. */
  lemma LastOfPending(text: string)
    ensures text != "" ==> Pending(text) != "" && Last(Pending(text)) == Last(text)
  {
    hide Emitted, Pending, Concat;
    PendingHasNoCut(text);
    EmittedTiles(text);
  }

  /** The two parsers give the same tree of a message, completely read, if and only if its text ends in
      a line feed and its fields are well-formed. */
  lemma MessagesAgree(d: Decoder, text: string)
    ensures (StreamMessage(d, text) == BatchMessage(d, text) && Defined(BatchMessage(d, text)))
            <==> Last(text) == '\n' && WellFormed(d, Cut(text))
  {
    hide StreamTree, BatchTree, WellFormed, Emitted, Pending, Concat;
    CutTiles(text);
    LastOfPending(text);
    if text == "" {
      assert Cut(text) == BatchCut(text) by { EmptyText(); }
      Agree(d, 0, Cut(text));
      NotWellFormed(d);
      assert Cut("") == [] by { EmptyText(); }
    } else if Last(text) == '\n' {
      assert Cut(text) == BatchCut(text);
      Agree(d, 0, Cut(text));
    } else {
      DataEnds(d, Cut(text));
      DataEnds(d, BatchCut(text));
      ConcatSnoc(Emitted(text), Pending(text));
      assert BatchCut(text) == Emitted(text) && Cut(text) == Emitted(text) + [Pending(text)];
      assert |Concat(Cut(text))| > |Concat(BatchCut(text))|;
    }
  }

  // ---- a message both read completely, and differently ----

  /** Where sub-parts have fields, a marker behind the end marker makes the batch parser find more of
      them. */
  lemma LateMarker(d: Decoder, off: nat, fields: seq<string>, k: nat, body: seq<string>, b: string)
    requires "" !in fields && k == FirstBlank(fields) && k + 1 < |fields| && fields[k] == "\r\n"
    requires body == fields[k + 1..] && b == BoundaryIn(LastType(d, fields[..k])) && b != ""
    requires !Clean(b, body) && forall r | r in StreamScan(b, body).ranges :: r.0 < r.1
    ensures StreamTree(Feed(d, NewPart(off), fields)) != BatchTree(d, off, fields)
  {
    hide Feed, Parts, BatchSubs, StreamTrees, StreamScan, BatchScan, Clean, LastType;
    StreamShape(d, off, fields, k, body);
    BlankIs(fields, k);
    MoreRanges(b, body);
    var end := BlockAt(off, fields[..k + 1]).end;
    SubCounts(d, end, body, StreamScan(b, body).ranges, BatchScan(b, body).ranges);
  }

  const TYPE_FIELD := "Content-Type: m\r\n"
  const LATE_BODY: seq<string> := ["--b\r\n", "\r\n", "x\r\n", "--b--\r\n", "--b\r\n"]
  const LATE: seq<string> := [TYPE_FIELD, "\r\n"] + LATE_BODY

  lemma ScanSnoc(b: string, before: seq<string>, f: string)
    requires b != ""
    ensures var s := StreamScan(b, before);
            StreamScan(b, before + [f]) ==
            if f == BeginMarker(b) then
              Scan(s.ranges + (if 0 <= s.at then [(s.at as nat, |before|)] else []), |before| + 1)
            else if f == EndMarker(b) then
              Scan(s.ranges + (if 0 <= s.at then [(s.at as nat, |before|)] else []), -1)
            else s
    ensures var s := BatchScan(b, before);
            BatchScan(b, before + [f]) ==
            if f == BeginMarker(b) then
              Scan(s.ranges + (if 0 <= s.at < |before| then [(s.at as nat, |before|)] else []), |before| + 1)
            else if f == EndMarker(b) then
              Scan(s.ranges + (if 0 <= s.at < |before| then [(s.at as nat, |before|)] else []), s.at)
            else s
  {
    MarkersDiffer(b);
    assert (before + [f])[..|before|] == before;
  }

  lemma LateMarks()
    ensures BeginMarker("b") == "--b\r\n" && EndMarker("b") == "--b--\r\n"
    ensures !IsMarker("b", "\r\n") && !IsMarker("b", "x\r\n")
  {
    assert |BeginMarker("b")| == 5 && |EndMarker("b")| == 7 && |"\r\n"| == 2 && |"x\r\n"| == 3;
  }

  lemma EmptyScans()
    ensures StreamScan("b", []) == Scan([], -1) == BatchScan("b", [])
  {
  }

  lemma EarlyScans()
    ensures var m := BeginMarker("b");
            StreamScan("b", [m, "\r\n", "x\r\n"]) == Scan([], 1) == BatchScan("b", [m, "\r\n", "x\r\n"])
  {
    hide StreamScan, BatchScan, BeginMarker, EndMarker;
    LateMarks();
    var m := BeginMarker("b");
    EmptyScans();
    ScanSnoc("b", [], m);
    ScanSnoc("b", [m], "\r\n");
    ScanSnoc("b", [m, "\r\n"], "x\r\n");
    assert [] + [m] == [m] && [m] + ["\r\n"] == [m, "\r\n"];
    assert [m, "\r\n"] + ["x\r\n"] == [m, "\r\n", "x\r\n"];
  }

  lemma LateScans()
    ensures StreamScan("b", LATE_BODY) == Scan([(1, 3)], 5)
    ensures BatchScan("b", LATE_BODY) == Scan([(1, 3), (1, 4)], 5)
  {
    hide StreamScan, BatchScan, BeginMarker, EndMarker;
    LateMarks();
    EarlyScans();
    var m, e := BeginMarker("b"), EndMarker("b");
    var early := [m, "\r\n", "x\r\n"];
    MarkersDiffer("b");
    ScanSnoc("b", early, e);
    ScanSnoc("b", early + [e], m);
    assert early + [e] + [m] == LATE_BODY;
  }

  lemma LateNotClean()
    ensures !Clean("b", LATE_BODY)
  {
    hide BeginMarker, EndMarker;
    LateMarks();
    var before := LATE_BODY[..4];
    assert before[0] == BeginMarker("b") && before[3] == EndMarker("b") && HasEnded("b", before);
    assert IsMarker("b", LATE_BODY[4]);
  }

  /** Fields without a content type, the first of them blank, with something behind it: well-formed. */
  lemma PlainPart(d: Decoder, fields: seq<string>)
    requires |fields| > 1 && fields[0] == "\r\n"
    ensures WellFormed(d, fields)
  {
    FirstBlankUnique(fields, 0);
    assert fields[..0] == [];
    hide StreamScan, Clean, FirstBlank;
    assert LastType(d, fields[..0]) == None;
  }

  /** `d` reads the type field as a multipart with boundary "b". */
  predicate ReadsMultipart(d: Decoder) {
    var (t1, _, b, _, _) := d.typeOf(TYPE_FIELD);
    EqualsIgnoreCase(t1, "multipart") && b == "b"
  }

  lemma TypeIs()
    ensures KindOf(TYPE_FIELD) == Some(ContentType)
  {
    assert TYPE_FIELD[..13] == "Content-Type:";
  }

  lemma LateType(d: Decoder)
    requires ReadsMultipart(d)
    ensures FirstBlank(LATE) == 1 && LATE[2..] == LATE_BODY && BoundaryIn(LastType(d, LATE[..1])) == "b"
    ensures BlankAt(LATE, 0) == 1
  {
    hide EqualsIgnoreCase;
    assert |TYPE_FIELD| == 17 && |"\r\n"| == 2;
    FirstBlankUnique(LATE, 1);
    BlankIs(LATE, 1);
    TypeIs();
    assert LATE[..1] == [TYPE_FIELD] && LATE[..1][..0] == [];
  }

  lemma Whole()
    ensures IsFolding(Concat(LATE), LATE)
  {
    hide Concat;
    forall p | p in LATE ensures Solid(p) {
      assert p in [TYPE_FIELD, "\r\n", "--b\r\n", "x\r\n", "--b--\r\n"];
    }
  }

  lemma EndsWell(text: string)
    requires Cut(text) != [] && Last(Cut(text)[|Cut(text)| - 1]) == '\n'
    ensures BatchCut(text) == Cut(text)
  {
    hide Emitted, Pending;
    if Pending(text) == "" {
      PendingHasNoCut(text);
      EmptyText();
    }
  }

  /** Its text is cut into these fields. */
  lemma LateFields()
    ensures Cut(Concat(LATE)) == LATE == BatchCut(Concat(LATE))
  {
    hide Cut, BatchCut, Concat, CutsAt;
    Whole();
    FoldingIsUnique(Concat(LATE), LATE);
    EndsWell(Concat(LATE));
  }

  lemma LateTrees(d: Decoder, end: nat)
    requires ReadsMultipart(d) && end == BlockAt(0, LATE[..2]).end
    requires forall t | t in StreamTrees(Parts(d, end, LATE_BODY, [(1, 3)])) :: Defined(t)
    requires forall t | t in BatchSubs(d, end, LATE_BODY, [(1, 3), (1, 4)]) :: Defined(t)
    ensures Defined(StreamTree(Feed(d, NewPart(0), LATE))) && Defined(BatchTree(d, 0, LATE))
  {
    hide Feed, Parts, StreamScan, BatchScan, LastType, Concat, ReadsMultipart, StreamTrees, BatchSubs;
    LateType(d);
    LateScans();
    StreamShape(d, 0, LATE, 1, LATE_BODY);
  }

  lemma LateParts(d: Decoder, off: nat)
    ensures forall t | t in StreamTrees(Parts(d, off, LATE_BODY, [(1, 3)])) :: Defined(t)
    ensures forall t | t in BatchSubs(d, off, LATE_BODY, [(1, 3), (1, 4)]) :: Defined(t)
  {
    hide WellFormed, Defined, StreamTree, BatchTree, PartAt;
    var rs: seq<(nat, nat)> := [(1, 3)];
    var rs': seq<(nat, nat)> := [(1, 3), (1, 4)];
    assert LATE_BODY[1..3][0] == "\r\n" && LATE_BODY[1..4][0] == "\r\n";
    PlainPart(d, LATE_BODY[1..3]);
    PlainPart(d, LATE_BODY[1..4]);
    assert "" !in LATE_BODY;
    SubsAgree(d, off, LATE_BODY, rs);
    SubsAgree(d, off, LATE_BODY, rs');
  }

  /** For any decoder that takes the type field for a multipart: both parsers read the message
      completely, and not alike. */
  lemma BothCompleteButDifferent(d: Decoder)
    requires ReadsMultipart(d)
    ensures var text := Concat(LATE);
            Defined(StreamMessage(d, text)) && Defined(BatchMessage(d, text)) &&
            StreamMessage(d, text) != BatchMessage(d, text)
  {
    hide Feed, Parts, StreamScan, BatchScan, BatchCut, Cut, Clean, LastType, WellFormed, Concat, ReadsMultipart;
    LateFields();
    LateType(d);
    LateScans();
    LateNotClean();
    assert "" !in LATE by { CutTiles(Concat(LATE)); }
    LateMarker(d, 0, LATE, 1, LATE_BODY, "b");
    StreamShape(d, 0, LATE, 1, LATE_BODY);
    var end := BlockAt(0, LATE[..2]).end;
    LateParts(d, end);
    hide StreamTree, BatchTree, Defined, StreamTrees, BatchSubs;
    LateTrees(d, end);
  }

  // ---- a header that ends in a bare LF ----

  const BARE: seq<string> := ["Q:\n", "\n", "x\r\n"]

  lemma BareFields()
    ensures Cut("Q:\n\nx\r\n") == BARE == BatchCut("Q:\n\nx\r\n")
  {
    var text := "Q:\n\nx\r\n";
    ConcatCons(BARE[0], BARE[1..]);
    ConcatCons(BARE[1], BARE[2..]);
    ConcatCons(BARE[2], []);
    assert Concat(BARE) == BARE[0] + (BARE[1] + (BARE[2] + "")) == text;
    hide Cut, BatchCut, Concat;
    forall p | p in BARE ensures Solid(p) {
      assert p in ["Q:\n", "\n", "x\r\n"];
    }
    FoldingIsUnique(text, BARE);
    EndsWell(text);
  }

  lemma BareBlocks()
    ensures BlockAt(0, BARE[..2]) == Block(0, 4, 2) && BlockAt(4, BARE[2..]) == Block(4, 7, 1)
  {
    assert BARE[..2] == ["Q:\n", "\n"] && BARE[2..] == ["x\r\n"];
    ConcatCons("Q:\n", ["\n"]);
    ConcatCons("\n", []);
    ConcatCons("x\r\n", []);
    assert Concat(["\n"]) == "\n" && Concat(["x\r\n"]) == "x\r\n" && Concat(BARE[..2]) == "Q:\n\n";
    assert "Q:\n\n"[1..] == ":\n\n" && ":\n\n"[1..] == "\n\n" && "\n\n"[1..] == "\n" && "\n"[1..] == "";
    assert "x\r\n"[1..] == "\r\n" && "\r\n"[1..] == "\n";
  }

  /** The streaming summary ends the header at a bare LF; the batch parser never does. */
  lemma BareLineFeed(d: Decoder)
    ensures StreamMessage(d, "Q:\n\nx\r\n") == Tree(Block(0, 4, 2), Block(4, 7, 1), [])
    ensures BatchMessage(d, "Q:\n\nx\r\n") == Undefined
  {
    BareFields();
    BareBlocks();
    hide Cut, BatchCut, BlockAt, Feed;
    assert KindOf("Q:\n").None?;
    hide KindOf;
    FirstBlankUnique(BARE, 1);
    assert BARE[..1] == ["Q:\n"] && BARE[..1][..0] == [];
    assert LastType(d, BARE[..1]) == None;
    StreamShape(d, 0, BARE, 1, BARE[2..]);
    assert BARE[2..] == ["x\r\n"];
    NoRanges("", BARE[2..]);
    BlankStep(BARE, 0);
    BlankStep(BARE, 1);
    BlankStep(BARE, 2);
  }
}
