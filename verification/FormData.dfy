/** The one-pass multipart/form-data scanner of src/http.h and its round trip (RFC 7578 section 4.1). */
module FormData {
  import opened Text

  /** A formparamter: inclusive byte ranges of a part, its header and its data. */
  datatype Param = Param(segBeg: int, segEnd: int, headerBeg: int, headerEnd: int, dataBeg: int, dataEnd: int)

  const NO_PARAM := Param(0, 0, 0, 0, 0, 0)
  const BLANK := "\r\n\r\n"

  function Opened(cur: Param, x: int): Param { cur.(segBeg := x, headerBeg := x) }

  function Closed(cur: Param, x: int): Param { cur.(segEnd := x - 1, dataEnd := x - 3) }

  /** What is still to be reported from offset x on. */
  function Scan(mem: string, n: nat, b: string, x: nat, cur: Param, isHeader: bool): seq<Param>
    decreases n - x
  {
    if x >= n then []
    else if At(mem, x, BeginMarker(b)) then
      var y := x + |BeginMarker(b)|;
      if cur.segBeg == 0 && cur.segEnd == 0 then Scan(mem, n, b, y, Opened(cur, y), true)
      else [Closed(cur, x)] + Scan(mem, n, b, y, Opened(Closed(cur, x), y), true)
    else if At(mem, x, EndMarker(b)) then [Closed(cur, x)]
    else if isHeader && At(mem, x, BLANK) then
      Scan(mem, n, b, x + 4, cur.(headerEnd := x - 1, dataBeg := x + 4), false)
    else Scan(mem, n, b, x + 1, cur, isHeader)
  }

  /** memcmp(buf + x, m, strlen(m)) == 0. */
  method Compare(mem: array<char>, x: nat, m: string) returns (same: bool)
    requires x + |m| <= mem.Length
    ensures same <==> At(mem[..], x, m)
  {
    same := mem[x..x + |m|] == m;
    assert mem[..][x..x + |m|] == mem[x..x + |m|];
  }

  lemma MarksDiffer(b: string)
    ensures |BeginMarker(b)| == |b| + 4 && |EndMarker(b)| == |b| + 6
    ensures BeginMarker(b)[|b| + 2] == '\r' && EndMarker(b)[|b| + 2] == '-'
  {
  }

  lemma CharAt(mem: string, x: int, m: string, k: nat)
    requires k < |m|
    ensures At(mem, x, m) ==> 0 <= x + k < |mem| && mem[x + k] == m[k]
  {
    if At(mem, x, m) {
      assert mem[x..x + |m|][k] == mem[x + k];
    }
  }

  lemma NotBoth(mem: string, x: nat, b: string)
    ensures !(At(mem, x, BeginMarker(b)) && At(mem, x, EndMarker(b)))
  {
    MarksDiffer(b);
    CharAt(mem, x, BeginMarker(b), |b| + 2);
    CharAt(mem, x, EndMarker(b), |b| + 2);
  }

  /** The constructor's loop. It compares up to the length of the end marker from every offset
      below bufLen, so that many bytes behind the text must be readable. */
  method Parse(mem: array<char>, bufLen: nat, boundary: string) returns (params: seq<Param>)
    requires bufLen + |EndMarker(boundary)| <= mem.Length
    ensures params == Scan(mem[..], bufLen, boundary, 0, NO_PARAM, false)
  {
    hide At;
    var sBoundary := "--" + boundary + "\r\n";
    var eBoundary := "--" + boundary + "--\r\n";
    MarksDiffer(boundary);
    var param, isHeader, x := NO_PARAM, false, 0;
    params := [];
    ghost var rest := Scan(mem[..], bufLen, boundary, 0, NO_PARAM, false);
    while x < bufLen
      invariant x <= bufLen + |EndMarker(boundary)|
      invariant params + Scan(mem[..], bufLen, boundary, x, param, isHeader) == rest
    {
      var isBegin := Compare(mem, x, sBoundary);
      var isEnd := Compare(mem, x, eBoundary);
      var isBlank := Compare(mem, x, BLANK);
      NotBoth(mem[..], x, boundary);
      if isBegin && !isEnd {
        if param.segBeg == 0 && param.segEnd == 0 {
          param := param.(segBeg := x + |sBoundary|);
          param := param.(headerBeg := param.segBeg);
        } else {
          param := param.(segEnd := x - 1);
          param := param.(dataEnd := param.segEnd - 2);
          params := params + [param];
          param := param.(segBeg := x + |sBoundary|);
          param := param.(headerBeg := param.segBeg);
        }
        x := x + |sBoundary|;
        isHeader := true;
      } else if isEnd {
        param := param.(segEnd := x - 1);
        param := param.(dataEnd := param.segEnd - 2);
        params := params + [param];
        x := x + |eBoundary|;
        break;
      } else if isHeader {
        if isBlank {
          param := param.(headerEnd := x - 1);
          param := param.(dataBeg := x + 4);
          isHeader := false;
          x := x + 4;
        } else {
          x := x + 1;
        }
      } else {
        x := x + 1;
      }
    }
  }

  lemma SubAt(mem: string, x: int, text: string, k: nat, m: string)
    requires At(mem, x, text) && k + |m| <= |text|
    ensures At(text, k, m) <==> At(mem, x + k, m)
  {
    SliceOfSlice(mem, x, x + |text|, k, k + |m|);
  }

  // ---- what is encoded ----

  datatype Part = Part(header: string, data: string)

  function EncodePart(p: Part, b: string): string {
    BeginMarker(b) + (p.header + BLANK) + (p.data + "\r\n")
  }

  function Encode(parts: seq<Part>, b: string): string {
    if parts == [] then EndMarker(b) else EncodePart(parts[0], b) + Encode(parts[1..], b)
  }

  /** The ranges of a part whose begin marker stands at offset x. */
  function RangesOf(p: Part, b: string, x: nat): Param {
    var h := x + |BeginMarker(b)|;
    var s := h + |p.header| + 4;
    Param(h, s + |p.data| + 1, h, h + |p.header| - 1, s, s + |p.data| - 1)
  }

  function Expected(parts: seq<Part>, b: string, x: nat): seq<Param> {
    if parts == [] then []
    else [RangesOf(parts[0], b, x)] + Expected(parts[1..], b, x + |EncodePart(parts[0], b)|)
  }

  /** `m` occurs in s. */
  predicate Occurs(m: string, s: string) {
    exists x :: 0 <= x <= |s| - |m| && At(s, x, m)
  }

  predicate HasMark(b: string, s: string) {
    Occurs(BeginMarker(b), s) || Occurs(EndMarker(b), s)
  }

  /** No marker inside the header or the data, and the header's own blank line is the first. */
  predicate Clean(p: Part, b: string) {
    && !HasMark(b, p.header + BLANK)
    && !HasMark(b, p.data + "\r\n")
    && forall x | 0 <= x < |p.header| :: !At(p.header + BLANK, x, BLANK)
  }

  predicate IsBoundary(b: string) { '\r' !in b && '\n' !in b }

  // ---- one part in memory ----

  /** A part's begin marker stands at x, and what follows it at `next`. */
  ghost predicate PartIn(mem: string, x: nat, p: Part, b: string, next: nat) {
    && next == x + |EncodePart(p, b)| && next <= |mem|
    && mem[x..next] == EncodePart(p, b)
    && (At(mem, next, BeginMarker(b)) || At(mem, next, EndMarker(b)))
  }

  predicate MarkAt(mem: string, x: int, b: string) {
    At(mem, x, BeginMarker(b)) || At(mem, x, EndMarker(b))
  }

  lemma Layout(mem: string, x: nat, p: Part, b: string, next: nat)
    requires PartIn(mem, x, p, b, next)
    ensures var h := x + |BeginMarker(b)|; var s := h + |p.header| + 4;
            && At(mem, x, BeginMarker(b)) && At(mem, h, p.header + BLANK) && At(mem, h + |p.header|, BLANK)
            && At(mem, s, p.data + "\r\n") && next == s + |p.data| + 2
  {
    var m, header, data := BeginMarker(b), p.header + BLANK, p.data + "\r\n";
    assert At(mem, x, m + header + data);
    AtHalves(mem, x, m + header, data);
    AtHalves(mem, x, m, header);
    AtHalves(mem, x + |m|, p.header, BLANK);
  }

  /** A marker holds CR and LF only as its last two characters and begins with a dash. */
  lemma MarkShape(mem: string, y: int, b: string, k: int)
    requires IsBoundary(b) && MarkAt(mem, y, b)
    ensures 0 <= y < |mem| && mem[y] == '-'
    ensures y <= k < |mem| && mem[k] == '\n' ==>
              (At(mem, y, BeginMarker(b)) ==> k >= y + |BeginMarker(b)| - 1) &&
              (At(mem, y, EndMarker(b)) ==> k >= y + |EndMarker(b)| - 1)
  {
    MarksDiffer(b);
    CharAt(mem, y, BeginMarker(b), 0);
    CharAt(mem, y, EndMarker(b), 0);
    if At(mem, y, BeginMarker(b)) && y <= k < y + |BeginMarker(b)| - 1 {
      CharAt(mem, y, BeginMarker(b), k - y);
      assert BeginMarker(b)[k - y] != '\n';
    }
    if At(mem, y, EndMarker(b)) && y <= k < y + |EndMarker(b)| - 1 {
      CharAt(mem, y, EndMarker(b), k - y);
      assert EndMarker(b)[k - y] != '\n';
    }
  }

  /** In a region that ends in CRLF, a marker that begins inside also ends inside: the region
      holds one exactly when its text does. */
  lemma MarkInRegion(mem: string, x: nat, text: string, b: string, y: nat)
    requires IsBoundary(b) && At(mem, x, text)
    requires |text| >= 2 && text[|text| - 1] == '\n' && x <= y < x + |text|
    requires MarkAt(mem, y, b)
    ensures HasMark(b, text)
  {
    hide At, BeginMarker, EndMarker;
    var last := x + |text| - 1;
    CharAt(mem, x, text, |text| - 1);
    MarkShape(mem, y, b, last);
    var m := if At(mem, y, BeginMarker(b)) then BeginMarker(b) else EndMarker(b);
    SubAt(mem, x, text, y - x, m);
    assert Occurs(m, text);
  }

  lemma RegionHasMark(mem: string, x: nat, text: string, b: string) returns (y: nat)
    requires At(mem, x, text) && HasMark(b, text)
    ensures x <= y < x + |text| && MarkAt(mem, y, b)
  {
    var m := if Occurs(BeginMarker(b), text) then BeginMarker(b) else EndMarker(b);
    hide At;
    var k :| 0 <= k <= |text| - |m| && At(text, k, m);
    y := x + k;
    SubAt(mem, x, text, k, m);
  }

  // ---- scanning across a stretch without events ----

  lemma {:induction false} SkipData(mem: string, n: nat, b: string, x: nat, y: nat, cur: Param)
    requires x <= y <= n
    requires forall k | x <= k < y :: !MarkAt(mem, k, b)
    ensures Scan(mem, n, b, x, cur, false) == Scan(mem, n, b, y, cur, false)
    decreases y - x
  {
    hide At;
    if x < y {
      assert !MarkAt(mem, x, b);
      SkipData(mem, n, b, x + 1, y, cur);
    }
  }

  lemma {:induction false} SkipHeader(mem: string, n: nat, b: string, x: nat, y: nat, cur: Param)
    requires x <= y <= n
    requires forall k | x <= k < y :: !MarkAt(mem, k, b) && !At(mem, k, BLANK)
    ensures Scan(mem, n, b, x, cur, true) == Scan(mem, n, b, y, cur, true)
    decreases y - x
  {
    hide At;
    if x < y {
      assert !MarkAt(mem, x, b) && !At(mem, x, BLANK);
      SkipHeader(mem, n, b, x + 1, y, cur);
    }
  }

  lemma QuietHeader(mem: string, h: nat, p: Part, b: string)
    requires IsBoundary(b) && At(mem, h, p.header + BLANK) && !HasMark(b, p.header + BLANK)
    requires forall x | 0 <= x < |p.header| :: !At(p.header + BLANK, x, BLANK)
    ensures forall k | h <= k < h + |p.header| :: !MarkAt(mem, k, b) && !At(mem, k, BLANK)
  {
    hide HasMark, At;
    var header := p.header + BLANK;
    forall k | h <= k < h + |p.header| ensures !MarkAt(mem, k, b) && !At(mem, k, BLANK) {
      if MarkAt(mem, k, b) { MarkInRegion(mem, h, header, b, k); }
      assert !At(header, k - h, BLANK);
      SubAt(mem, h, header, k - h, BLANK);
    }
  }

  lemma BlankIsNoMark(mem: string, x: nat, b: string)
    requires At(mem, x, BLANK)
    ensures !MarkAt(mem, x, b)
  {
    CharAt(mem, x, BLANK, 0);
    CharAt(mem, x, BeginMarker(b), 0);
    CharAt(mem, x, EndMarker(b), 0);
  }

  lemma AtBlank(mem: string, n: nat, b: string, x: nat, cur: Param)
    requires At(mem, x, BLANK) && !MarkAt(mem, x, b) && x < n
    ensures Scan(mem, n, b, x, cur, true) == Scan(mem, n, b, x + 4, cur.(headerEnd := x - 1, dataBeg := x + 4), false)
  {
  }

  /** A clean part is read as its own ranges. */
  lemma CleanPart(mem: string, n: nat, b: string, x: nat, p: Part, next: nat, cur: Param)
    requires IsBoundary(b) && PartIn(mem, x, p, b, next) && next <= n && Clean(p, b)
    ensures var h := x + |BeginMarker(b)|;
            Scan(mem, n, b, h, cur, true) ==
            Scan(mem, n, b, next, cur.(headerEnd := h + |p.header| - 1, dataBeg := h + |p.header| + 4), false)
  {
    hide HasMark, EncodePart, Scan, At;
    Layout(mem, x, p, b, next);
    var h := x + |BeginMarker(b)|;
    var blank, s := h + |p.header|, h + |p.header| + 4;
    QuietHeader(mem, h, p, b);
    SkipHeader(mem, n, b, h, blank, cur);
    BlankIsNoMark(mem, blank, b);
    AtBlank(mem, n, b, blank, cur);
    forall k | s <= k < next ensures !MarkAt(mem, k, b) {
      if MarkAt(mem, k, b) { MarkInRegion(mem, s, p.data + "\r\n", b, k); }
    }
    SkipData(mem, n, b, s, next, cur.(headerEnd := blank - 1, dataBeg := s));
  }

  // ---- what goes wrong otherwise ----

  /** Outside a header the next range reported keeps its header end. */
  lemma {:induction false} KeepsHeaderEnd(mem: string, n: nat, b: string, x: nat, cur: Param)
    requires cur.segBeg != 0
    ensures var r := Scan(mem, n, b, x, cur, false); r != [] ==> r[0].headerEnd == cur.headerEnd
    decreases n - x
  {
    hide At;
    if x < n {
      KeepsHeaderEnd(mem, n, b, x + 1, cur);
    }
  }

  /** An event before the header's own blank line spoils the header's range. */
  lemma {:induction false} SpoiltHeader(mem: string, n: nat, b: string, x: nat, blank: nat, y: nat, cur: Param)
    requires x <= y < blank <= n && cur.segBeg != 0 && cur.headerEnd < x - 1
    requires MarkAt(mem, y, b) || At(mem, y, BLANK)
    ensures var r := Scan(mem, n, b, x, cur, true); r != [] ==> r[0].headerEnd < blank - 1
    decreases y - x
  {
    hide At;
    if MarkAt(mem, x, b) {
    } else if At(mem, x, BLANK) {
      KeepsHeaderEnd(mem, n, b, x + 4, cur.(headerEnd := x - 1, dataBeg := x + 4));
    } else {
      SpoiltHeader(mem, n, b, x + 1, blank, y, cur);
    }
  }

  /** A marker inside the data cuts the data short. */
  lemma {:induction false} SpoiltData(mem: string, n: nat, b: string, x: nat, next: nat, y: nat, cur: Param)
    requires x <= y < next <= n && cur.segBeg != 0 && MarkAt(mem, y, b)
    ensures var r := Scan(mem, n, b, x, cur, false); r != [] ==> r[0].dataEnd < next - 3
    decreases y - x
  {
    hide At;
    if !MarkAt(mem, x, b) {
      SpoiltData(mem, n, b, x + 1, next, y, cur);
    }
  }

  lemma MarkInHeader(mem: string, h: nat, p: Part, b: string, y: nat)
    requires At(mem, h, p.header + BLANK) && h <= y < h + |p.header| + 4 && MarkAt(mem, y, b)
    ensures y < h + |p.header|
  {
    CharAt(mem, h, p.header + BLANK, y - h);
    CharAt(mem, y, BeginMarker(b), 0);
    CharAt(mem, y, EndMarker(b), 0);
  }

  lemma SpoiltPart(mem: string, n: nat, b: string, x: nat, p: Part, next: nat, cur: Param)
    requires IsBoundary(b) && PartIn(mem, x, p, b, next) && next <= n && !Clean(p, b)
    requires cur.segBeg != 0 && cur.headerEnd < x + |BeginMarker(b)| - 1
    ensures var r := Scan(mem, n, b, x + |BeginMarker(b)|, cur, true);
            r != [] ==> r[0].headerEnd != RangesOf(p, b, x).headerEnd || r[0].dataEnd != RangesOf(p, b, x).dataEnd
  {
    hide HasMark, EncodePart, Scan, At;
    Layout(mem, x, p, b, next);
    var h := x + |BeginMarker(b)|;
    var blank, s := h + |p.header|, h + |p.header| + 4;
    var header := p.header + BLANK;
    if HasMark(b, header) {
      var y := RegionHasMark(mem, h, header, b);
      MarkInHeader(mem, h, p, b, y);
      SpoiltHeader(mem, n, b, h, blank, y, cur);
    } else if exists k :: 0 <= k < |p.header| && At(header, k, BLANK) {
      var k :| 0 <= k < |p.header| && At(header, k, BLANK);
      SubAt(mem, h, header, k, BLANK);
      SpoiltHeader(mem, n, b, h, blank, h + k, cur);
    } else {
      QuietHeader(mem, h, p, b);
      SkipHeader(mem, n, b, h, blank, cur);
      BlankIsNoMark(mem, blank, b);
      AtBlank(mem, n, b, blank, cur);
      var y := RegionHasMark(mem, s, p.data + "\r\n", b);
      SpoiltData(mem, n, b, s, next, y, cur.(headerEnd := blank - 1, dataBeg := s));
    }
  }

  // ---- the whole body ----

  lemma EncodeBegins(parts: seq<Part>, b: string)
    requires parts != []
    ensures |BeginMarker(b)| <= |Encode(parts, b)|
    ensures Encode(parts, b) == BeginMarker(b) + Encode(parts, b)[|BeginMarker(b)|..]
  {
    var m, header, data := BeginMarker(b), parts[0].header + BLANK, parts[0].data + "\r\n";
    var later := Encode(parts[1..], b);
    Assoc(m, header, data);
    Assoc(m, header + data, later);
    hide Encode, BeginMarker;
    assert (m + (header + data + later))[|m|..] == header + data + later;
  }

  lemma EncodedStep(mem: string, x: nat, parts: seq<Part>, b: string)
    requires parts != [] && At(mem, x, Encode(parts, b))
    ensures var next := x + |EncodePart(parts[0], b)|;
            && PartIn(mem, x, parts[0], b, next) && At(mem, next, Encode(parts[1..], b))
            && x + |Encode(parts, b)| == next + |Encode(parts[1..], b)|
            && next < x + |Encode(parts, b)|
            && (At(mem, next, EndMarker(b)) <==> parts[1..] == [])
            && (At(mem, next, BeginMarker(b)) <==> parts[1..] != [])
  {
    hide EncodePart, At;
    var e, f := EncodePart(parts[0], b), Encode(parts[1..], b);
    var next := x + |e|;
    assert Encode(parts, b) == e + f && (e + f)[..|e|] == e && (e + f)[|e|..] == f;
    AtHalves(mem, x, e, f);
    if parts[1..] == [] {
      assert f == EndMarker(b);
      NotBoth(mem, next, b);
    } else {
      EncodeBegins(parts[1..], b);
      AtHalves(mem, next, BeginMarker(b), f[|BeginMarker(b)|..]);
      NotBoth(mem, next, b);
    }
    AtSlice(mem, x, e);
  }

  lemma Sizes(p: Part, b: string)
    ensures |EncodePart(p, b)| == |BeginMarker(b)| + |p.header| + 4 + |p.data| + 2
  {
  }

  lemma AtMark(mem: string, n: nat, b: string, x: nat, cur: Param)
    requires x < n && cur.segBeg != 0 && MarkAt(mem, x, b)
    ensures Scan(mem, n, b, x, cur, false) ==
            [Closed(cur, x)] +
            if At(mem, x, BeginMarker(b))
            then Scan(mem, n, b, x + |BeginMarker(b)|, Opened(Closed(cur, x), x + |BeginMarker(b)|), true)
            else []
  {
  }

  /** From behind the first begin marker on, the ranges are the encoded parts' own exactly when
      every part is clean. */
  lemma {:induction false} RestAgrees(mem: string, n: nat, b: string, parts: seq<Part>, x: nat, cur: Param)
    requires IsBoundary(b) && parts != [] && At(mem, x, Encode(parts, b)) && n == x + |Encode(parts, b)|
    requires cur.segBeg == cur.headerBeg == x + |BeginMarker(b)| && cur.headerEnd < x + |BeginMarker(b)| - 1
    ensures Scan(mem, n, b, x + |BeginMarker(b)|, cur, true) == Expected(parts, b, x)
            <==> forall p | p in parts :: Clean(p, b)
    decreases |parts|
  {
    hide At, Encode, EncodePart, Clean, Scan;
    EncodedStep(mem, x, parts, b);
    var p, rest, next := parts[0], parts[1..], x + |EncodePart(parts[0], b)|;
    Sizes(p, b);
    assert parts == [p] + rest;
    if Clean(p, b) {
      CleanPart(mem, n, b, x, p, next, cur);
      var h := x + |BeginMarker(b)|;
      var c := cur.(headerEnd := h + |p.header| - 1, dataBeg := h + |p.header| + 4);
      assert Closed(c, next) == RangesOf(p, b, x);
      AtMark(mem, n, b, next, c);
      if rest != [] {
        var m := next + |BeginMarker(b)|;
        RestAgrees(mem, n, b, rest, next, Opened(Closed(c, next), m));
        ConsEqual(Closed(c, next), Scan(mem, n, b, m, Opened(Closed(c, next), m), true),
                  Closed(c, next), Expected(rest, b, next));
      }
    } else {
      SpoiltPart(mem, n, b, x, p, next, cur);
      assert p in parts;
    }
  }

  /** Scanning an encoded form gives back its parts if and only if there is at least one and
      every part is clean, whatever bytes follow the text. */
  lemma RoundTrip(parts: seq<Part>, b: string, tail: string)
    requires IsBoundary(b)
    ensures Scan(Encode(parts, b) + tail, |Encode(parts, b)|, b, 0, NO_PARAM, false) == Expected(parts, b, 0)
            <==> parts != [] && forall p | p in parts :: Clean(p, b)
  {
    hide Clean, EncodePart;
    var text := Encode(parts, b);
    var mem := text + tail;
    assert At(mem, 0, text);
    MarksDiffer(b);
    if parts == [] {
      NotBoth(mem, 0, b);
      assert Scan(mem, |text|, b, 0, NO_PARAM, false) == [Closed(NO_PARAM, 0)];
    } else {
      EncodeBegins(parts, b);
      AtHalves(mem, 0, BeginMarker(b), text[|BeginMarker(b)|..]);
      var m := |BeginMarker(b)|;
      RestAgrees(mem, |text|, b, parts, 0, Opened(NO_PARAM, m));
      assert Scan(mem, |text|, b, 0, NO_PARAM, false) == Scan(mem, |text|, b, m, Opened(NO_PARAM, m), true);
    }
  }

  /** `r` cuts header and data of p out of mem. */
  predicate Cuts(mem: string, r: Param, p: Part) {
    && 0 <= r.headerBeg <= r.headerEnd + 1 <= r.dataBeg <= r.dataEnd + 1 <= |mem|
    && mem[r.headerBeg..r.headerEnd + 1] == p.header
    && mem[r.dataBeg..r.dataEnd + 1] == p.data
  }

  lemma PartCut(mem: string, x: nat, p: Part, b: string, next: nat)
    requires PartIn(mem, x, p, b, next)
    ensures Cuts(mem, RangesOf(p, b, x), p)
  {
    hide At, EncodePart;
    Layout(mem, x, p, b, next);
    AtHalves(mem, x + |BeginMarker(b)|, p.header, BLANK);
    AtHalves(mem, x + |BeginMarker(b)| + |p.header| + 4, p.data, "\r\n");
    AtSlice(mem, x + |BeginMarker(b)|, p.header);
    AtSlice(mem, x + |BeginMarker(b)| + |p.header| + 4, p.data);
  }

  /** The reported ranges cut the headers and the data back out of the text. */
  lemma {:induction false} RangesCut(mem: string, b: string, parts: seq<Part>, x: nat, i: nat)
    requires At(mem, x, Encode(parts, b)) && i < |parts|
    ensures |Expected(parts, b, x)| == |parts|
    ensures Cuts(mem, Expected(parts, b, x)[i], parts[i])
    decreases |parts|
  {
    hide At, Encode, EncodePart, Cuts, RangesOf;
    EncodedStep(mem, x, parts, b);
    var next := x + |EncodePart(parts[0], b)|;
    PartCut(mem, x, parts[0], b, next);
    if |parts| > 1 {
      RangesCut(mem, b, parts[1..], next, if i == 0 then 0 else i - 1);
    }
  }

  lemma NoDash(s: string, b: string)
    requires '-' !in s
    ensures !HasMark(b, s)
  {
    hide At;
    forall x
      ensures !At(s, x, BeginMarker(b)) && !At(s, x, EndMarker(b))
    {
      MarksDiffer(b);
      CharAt(s, x, BeginMarker(b), 0);
      CharAt(s, x, EndMarker(b), 0);
    }
  }

  /** A form with one field: header "n", data "v". */
  lemma OneField()
    ensures var text := "--b\r\nn\r\n\r\nv\r\n--b--\r\n";
            Scan(text, |text|, "b", 0, NO_PARAM, false) == [Param(5, 12, 5, 5, 10, 10)]
  {
    var p := Part("n", "v");
    assert [p][1..] == [];
    assert EncodePart(p, "b") == "--b\r\nn\r\n\r\nv\r\n";
    assert Encode([p], "b") == EncodePart(p, "b") + "--b--\r\n" == "--b\r\nn\r\n\r\nv\r\n--b--\r\n";
    NoDash("n\r\n\r\n", "b");
    NoDash("v\r\n", "b");
    CharAt("n\r\n\r\n", 0, "\r\n\r\n", 0);
    assert p.header + BLANK == "n\r\n\r\n" && p.data + "\r\n" == "v\r\n";
    hide At, HasMark, Scan;
    assert Clean(p, "b");
    assert Expected([p], "b", 0) == [Param(5, 12, 5, 5, 10, 10)];
    assert Encode([p], "b") + "" == Encode([p], "b");
    RoundTrip([p], "b", "");
  }
}
