/** BER type-length-value trees (src/asn_1.cpp); X.690 section 8.1.3. */
module Ber {
  import opened Text

  predicate Constructed(tag: Byte) { tag / 32 % 2 == 1 }

  /** Bit 6 of the tag: 0x20 to 0x3F, 0x60 to 0x7F, 0xA0 to 0xBF and 0xE0 to 0xFF. */
  lemma ConstructedTags(tag: Byte)
    ensures Constructed(tag) <==>
            0x20 <= tag <= 0x3F || 0x60 <= tag <= 0x7F || 0xA0 <= tag <= 0xBF || 0xE0 <= tag <= 0xFF
  {
  }

  // ---- lengths ----

  /** Big-endian digits in `unsigned int` arithmetic: shift and add, modulo 2^32. */
  function Horner(acc: nat, bytes: seq<Byte>): nat
    decreases |bytes|
  {
    if bytes == [] then acc else Horner(Wrap32(256 * acc + bytes[0]), bytes[1..])
  }

  /** How many bytes the length field takes, and the length it holds. */
  function LengthBytes(first: Byte): nat { if first >= 128 then first - 128 + 1 else 1 }

  function LengthAt(buf: seq<Byte>, at: nat): nat
    requires at < |buf| && at + LengthBytes(buf[at]) <= |buf|
  {
    if buf[at] >= 128 then Horner(0, buf[at + 1..at + LengthBytes(buf[at])]) else buf[at]
  }

  function BigEndian(n: nat, k: nat): seq<Byte> {
    if k == 0 then [] else BigEndian(n / 256, k - 1) + [n % 256]
  }

  function Pow256(k: nat): nat {
    if k == 0 then 1 else 256 * Pow256(k - 1)
  }

  lemma {:induction false} HornerAppend(acc: nat, xs: seq<Byte>, y: Byte)
    ensures Horner(acc, xs + [y]) == Wrap32(256 * Horner(acc, xs) + y)
    decreases |xs|
  {
    if xs == [] {
      assert [y][1..] == [];
    } else {
      assert (xs + [y])[1..] == xs[1..] + [y];
      HornerAppend(Wrap32(256 * acc + xs[0]), xs[1..], y);
    }
  }

  /** The digits of n read back as n, leading zeros included, if n is a 32-bit number. */
  lemma {:induction false} HornerReads(n: nat, k: nat)
    requires n < Pow256(k) && n < TWO_32
    ensures Horner(0, BigEndian(n, k)) == n && |BigEndian(n, k)| == k
  {
    if k > 0 {
      HornerReads(n / 256, k - 1);
      HornerAppend(0, BigEndian(n / 256, k - 1), n % 256);
      assert 256 * (n / 256) + n % 256 == n;
    }
  }

  const TWO_64: int := 0x1_0000_0000_0000_0000

  lemma SameRemainder(a: nat, b: nat, k: int)
    requires a == b + k * TWO_32
    ensures a % TWO_32 == b % TWO_32
  {
    var d := a / TWO_32 - b / TWO_32 - k;
    assert a % TWO_32 - b % TWO_32 == -d * TWO_32;
  }

  lemma ShiftWraps(v: nat, b: Byte)
    ensures Wrap32((256 * v + b) % TWO_64) == Wrap32(256 * Wrap32(v) + b)
  {
    var q := v / TWO_32;
    assert v == q * TWO_32 + Wrap32(v);
    var w := 256 * v + b;
    assert w == w / TWO_64 * TWO_64 + w % TWO_64;
    var r := 256 * Wrap32(v) + b;
    assert w % TWO_64 == r + (256 * q - w / TWO_64 * TWO_32) * TWO_32;
    SameRemainder(w % TWO_64, r, 256 * q - w / TWO_64 * TWO_32);
  }

  /** get_ber_val_len: 64-bit arithmetic, returned as a signed int. It agrees with the 32-bit loop
      of the constructor modulo 2^32. */
  method GetBerValLen(buf: seq<Byte>, at: nat) returns (n: int, lenBytes: nat)
    requires at < |buf| && at + LengthBytes(buf[at]) <= |buf|
    ensures lenBytes == LengthBytes(buf[at])
    ensures -0x8000_0000 <= n < 0x8000_0000 && Wrap32(if n < 0 then n + TWO_32 else n) == Wrap32(LengthAt(buf, at))
  {
    if buf[at] >= 128 {
      var valLen: nat := 0;
      lenBytes := buf[at] - 128;
      ghost var digits := buf[at + 1..at + 1 + lenBytes];
      var x := 0;
      while x < lenBytes
        invariant 0 <= x <= lenBytes && Wrap32(valLen) == Horner(0, digits[..x])
      {
        assert digits[..x + 1] == digits[..x] + [digits[x]];
        HornerAppend(0, digits[..x], digits[x]);
        ShiftWraps(valLen, digits[x]);
        valLen := (256 * valLen + buf[at + x + 1]) % TWO_64;
        x := x + 1;
      }
      assert digits[..x] == digits;
      lenBytes := lenBytes + 1;
      n := if valLen % TWO_32 < 0x8000_0000 then valLen % TWO_32 else valLen % TWO_32 - TWO_32;
    } else {
      lenBytes := 1;
      n := buf[at];
    }
  }

  // ---- decoding ----

  /** asn1_tlv: tag, length, offset of the value, children as the source stores them. */
  datatype Node = Node(tag: Byte, len: nat, val: nat, children: seq<Node>)

  /** A node, and the later siblings its constructor pushed into `brothers`. */
  datatype Decoded = Decoded(node: Node, brothers: seq<Node>)

  /** The recursive constructor on `len` bytes at `beg`. None: a length field or a value reaches
      outside the buffer; the source does not check, and reads on. */
  function Decode(buf: seq<Byte>, beg: nat, len: nat): Option<Decoded>
    decreases |buf| - beg, 0
  {
    if beg + 1 >= |buf| || beg + 1 + LengthBytes(buf[beg + 1]) > |buf| then None
    else
      var val := beg + 1 + LengthBytes(buf[beg + 1]);
      var n := LengthAt(buf, beg + 1);
      if val + n > |buf| then None
      else
        var children := if Constructed(buf[beg]) then DecodeAll(buf, val, n) else Some([]);
        var siblings := if val + n < beg + len then DecodeAll(buf, val + n, beg + len - (val + n)) else Some([]);
        if children.None? || siblings.None? then None
        else Some(Decoded(Node(buf[beg], n, val, children.value), siblings.value))
  }

  /** What `new asn1_tlv(buf, len, v); v.push_back(it)` leaves in v: later siblings first. */
  function DecodeAll(buf: seq<Byte>, beg: nat, len: nat): Option<seq<Node>>
    decreases |buf| - beg, 1
  {
    match Decode(buf, beg, len)
    case None => None
    case Some(d) => Some(d.brothers + [d.node])
  }

  /** The constructor's loop over the length bytes; `lenBytes` is how many follow the first. */
  method ReadLength(buf: seq<Byte>, at: nat) returns (mLen: nat, lenBytes: nat)
    requires at < |buf| && at + LengthBytes(buf[at]) <= |buf|
    ensures lenBytes + 1 == LengthBytes(buf[at]) && mLen == LengthAt(buf, at)
  {
    mLen, lenBytes := 0, 0;
    if buf[at] >= 128 {
      lenBytes := buf[at] - 128;
      ghost var digits := buf[at + 1..at + 1 + lenBytes];
      var x := 0;
      while x < lenBytes
        invariant 0 <= x <= lenBytes && mLen == Horner(0, digits[..x])
      {
        assert digits[..x + 1] == digits[..x] + [digits[x]];
        HornerAppend(0, digits[..x], digits[x]);
        mLen := Wrap32(256 * mLen + buf[at + 1 + x]);
        x := x + 1;
      }
      assert digits[..x] == digits;
    } else {
      mLen := buf[at];
    }
  }

  /** The constructor as it runs: the length loop, then the two recursions. */
  method Construct(buf: seq<Byte>, beg: nat, len: nat) returns (r: Option<Decoded>)
    requires |buf| < 0x8000_0000
    ensures r == Decode(buf, beg, len)
    decreases |buf| - beg
  {
    if beg + 1 >= |buf| || beg + 1 + LengthBytes(buf[beg + 1]) > |buf| {
      return None;
    }
    var parsedLen := 1;
    var mLen, lenBytes := ReadLength(buf, beg + 1);
    parsedLen := parsedLen + lenBytes + 1;
    var val := beg + parsedLen;
    parsedLen := parsedLen + mLen;
    if val + mLen > |buf| {
      return None;
    }
    var children: seq<Node> := [];
    if Constructed(buf[beg]) {
      var one := Construct(buf, val, mLen);
      if one.None? { return None; }
      children := one.value.brothers + [one.value.node];
    }
    var brothers: seq<Node> := [];
    if parsedLen < len {
      var one := Construct(buf, beg + parsedLen, len - parsedLen);
      if one.None? { return None; }
      brothers := one.value.brothers + [one.value.node];
    }
    r := Some(Decoded(Node(buf[beg], mLen, val, children), brothers));
  }

  // ---- encoding ----

  /** A value with its tag; `lenLen` is 0 for the short length form, else the number of length
      bytes, which may be more than needed. */
  datatype Tlv =
    | Primitive(tag: Byte, lenLen: nat, value: seq<Byte>)
    | Composed(tag: Byte, lenLen: nat, parts: seq<Tlv>)

  function EncodeLen(n: nat, lenLen: nat): seq<Byte> {
    if lenLen == 0 || lenLen > 127 then [n % 256] else [128 + lenLen] + BigEndian(n, lenLen)
  }

  function Contents(t: Tlv): seq<Byte>
    decreases t, 0
  {
    match t case Primitive(_, _, v) => v case Composed(_, _, ps) => EncodeAll(ps)
  }

  function Encode(t: Tlv): seq<Byte>
    decreases t, 1
  {
    [t.tag] + EncodeLen(|Contents(t)|, t.lenLen) + Contents(t)
  }

  function EncodeAll(ts: seq<Tlv>): seq<Byte>
    decreases ts, 0
  {
    if ts == [] then [] else Encode(ts[0]) + EncodeAll(ts[1..])
  }

  /** Lengths fit their form and tags say what follows. */
  predicate WellFormed(t: Tlv) {
    && |Contents(t)| < TWO_32
    && (if t.lenLen == 0 then |Contents(t)| < 128 else t.lenLen <= 127 && |Contents(t)| < Pow256(t.lenLen))
    && match t
       case Primitive(tag, _, _) => !Constructed(tag)
       case Composed(tag, _, ps) => Constructed(tag) && forall p | p in ps :: WellFormed(p)
  }

  /** No composed value is empty. */
  predicate Filled(t: Tlv) {
    t.Composed? ==> t.parts != [] && forall p | p in t.parts :: Filled(p)
  }

  /** The node that stands for t when its encoding starts at `beg`: siblings in reverse. */
  function NodeOf(t: Tlv, beg: nat): Node
    decreases t, 0
  {
    var val := beg + 1 + |EncodeLen(|Contents(t)|, t.lenLen)|;
    Node(t.tag, |Contents(t)|, val, match t case Primitive(_, _, _) => [] case Composed(_, _, ps) => NodesOf(ps, val))
  }

  function NodesOf(ts: seq<Tlv>, beg: nat): seq<Node>
    decreases ts, 0
  {
    if ts == [] then [] else NodesOf(ts[1..], beg + |Encode(ts[0])|) + [NodeOf(ts[0], beg)]
  }

  // ---- the round trip ----

  lemma LongLength(buf: seq<Byte>, at: nat, n: nat, lenLen: nat, first: Byte, digits: seq<Byte>)
    requires 0 < lenLen <= 127 && first == 128 + lenLen && |digits| == lenLen && Horner(0, digits) == n
    requires At(buf, at, [first] + digits)
    ensures at < |buf| && LengthBytes(buf[at]) == lenLen + 1 && at + lenLen + 1 <= |buf| && LengthAt(buf, at) == n
  {
    hide Horner, At;
    AtHalves(buf, at, [first], digits);
    AtOne(buf, at, first);
    AtSlice(buf, at + 1, digits);
  }

  lemma ShortLength(buf: seq<Byte>, at: nat, n: Byte)
    requires n < 128 && At(buf, at, [n])
    ensures at < |buf| && LengthBytes(buf[at]) == 1 && LengthAt(buf, at) == n
  {
    AtOne(buf, at, n);
    hide At;
  }

  lemma LenRoundTrip(buf: seq<Byte>, at: nat, n: nat, lenLen: nat)
    requires n < TWO_32 && lenLen <= 127 && if lenLen == 0 then n < 128 else n < Pow256(lenLen)
    requires At(buf, at, EncodeLen(n, lenLen))
    ensures at < |buf| && LengthBytes(buf[at]) == |EncodeLen(n, lenLen)| && at + LengthBytes(buf[at]) <= |buf|
    ensures LengthAt(buf, at) == n
  {
    hide At, LengthAt, Horner, BigEndian, Pow256;
    if lenLen == 0 {
      ShortLength(buf, at, n);
    } else {
      HornerReads(n, lenLen);
      LongLength(buf, at, n, lenLen, 128 + lenLen, BigEndian(n, lenLen));
    }
  }

  lemma AtEnds(buf: seq<Byte>, beg: nat, e: seq<Byte>)
    requires At(buf, beg, e)
    ensures beg + |e| <= |buf|
  {
  }

  lemma EncodeIs(t: Tlv)
    ensures Encode(t) == [t.tag] + EncodeLen(|Contents(t)|, t.lenLen) + Contents(t)
  {
    hide Contents, EncodeLen;
  }

  lemma LengthFits(t: Tlv)
    requires WellFormed(t)
    ensures var n := |Contents(t)|;
            n < TWO_32 && t.lenLen <= 127 && if t.lenLen == 0 then n < 128 else n < Pow256(t.lenLen)
  {
    hide Contents, Pow256;
  }

  lemma HeadOf(buf: seq<Byte>, beg: nat, t: Tlv)
    requires WellFormed(t) && At(buf, beg, Encode(t))
    ensures var l := EncodeLen(|Contents(t)|, t.lenLen);
            && beg + 1 < |buf| && buf[beg] == t.tag && LengthBytes(buf[beg + 1]) == |l|
            && beg + 1 + |l| + |Contents(t)| == beg + |Encode(t)| <= |buf|
            && LengthAt(buf, beg + 1) == |Contents(t)| && At(buf, beg + 1 + |l|, Contents(t))
  {
    hide At, Encode, EncodeLen, Contents, LengthAt, LengthBytes, WellFormed, Pow256;
    var l, c := EncodeLen(|Contents(t)|, t.lenLen), Contents(t);
    EncodeIs(t);
    LengthFits(t);
    AtHalves(buf, beg, [t.tag] + l, c);
    AtHalves(buf, beg, [t.tag], l);
    AtOne(buf, beg, t.tag);
    LenRoundTrip(buf, beg + 1, |c|, t.lenLen);
    AtEnds(buf, beg, Encode(t));
  }

  lemma NodeIs(t: Tlv, beg: nat)
    ensures var val := beg + 1 + |EncodeLen(|Contents(t)|, t.lenLen)|;
            NodeOf(t, beg) == Node(t.tag, |Contents(t)|, val, if t.Composed? then NodesOf(t.parts, val) else [])
  {
  }

  lemma SplitAll(buf: seq<Byte>, beg: nat, len: nat, node: Node, siblings: seq<Node>)
    ensures DecodeAll(buf, beg, len) == Some(siblings + [node])
            <==> Decode(buf, beg, len) == Some(Decoded(node, siblings))
  {
    hide Decode;
    var d := Decode(buf, beg, len);
    if d.Some? {
      var xs, x := d.value.brothers, d.value.node;
      if xs + [x] == siblings + [node] {
        assert (xs + [x])[..|xs|] == xs && (siblings + [node])[..|siblings|] == siblings;
        assert (xs + [x])[|xs|] == (siblings + [node])[|siblings|];
      }
    }
  }

  /** Even for a length of zero a node is built, from whatever bytes come next. */
  lemma NeverEmpty(buf: seq<Byte>, beg: nat, len: nat)
    ensures DecodeAll(buf, beg, len) != Some([])
  {
    hide Decode;
  }

  lemma DecodeIs(buf: seq<Byte>, beg: nat, len: nat, tag: Byte, n: nat, val: nat,
                 children: seq<Node>, siblings: seq<Node>)
    requires beg + 1 < |buf| && buf[beg] == tag && val == beg + 1 + LengthBytes(buf[beg + 1])
    requires val + n <= |buf| && LengthAt(buf, beg + 1) == n
    ensures Decode(buf, beg, len) == Some(Decoded(Node(tag, n, val, children), siblings)) <==>
            && (if Constructed(tag) then DecodeAll(buf, val, n) == Some(children) else children == [])
            && (if val + n < beg + len then DecodeAll(buf, val + n, beg + len - (val + n)) == Some(siblings)
                else siblings == [])
  {
  }

  lemma PartsFormed(t: Tlv)
    requires t.Composed? && WellFormed(t)
    ensures Contents(t) == EncodeAll(t.parts)
    ensures forall p | p in t.parts :: WellFormed(p)
    ensures Filled(t) <==> t.parts != [] && forall p | p in t.parts :: Filled(p)
  {
  }

  lemma PrimitiveFilled(t: Tlv)
    requires t.Primitive?
    ensures Filled(t)
  {
  }

  lemma TagFits(t: Tlv)
    requires WellFormed(t)
    ensures Constructed(t.tag) <==> t.Composed?
  {
  }

  lemma NotEmpty(ts: seq<Tlv>)
    requires ts != []
    ensures |EncodeAll(ts)| > 0
  {
  }

  const EMPTY_FIRST: seq<Tlv> := [Composed(48, 0, []), Primitive(2, 0, [5])]

  lemma EmptyFirstBytes()
    ensures EncodeAll(EMPTY_FIRST) == [48, 0, 2, 1, 5]
  {
  }

  /** An empty sequence and a number behind it: the number is read as a part of the sequence, and then
      once more as its sibling. */
  lemma EmptyReadsOn()
    ensures forall t | t in EMPTY_FIRST :: WellFormed(t)
    ensures NodesOf(EMPTY_FIRST, 0) == [Node(2, 1, 4, []), Node(48, 0, 2, [])]
    ensures DecodeAll(EncodeAll(EMPTY_FIRST), 0, 5)
            == Some([Node(2, 1, 4, []), Node(48, 0, 2, [Node(2, 1, 4, [])])])
  {
    EmptyFirstBytes();
    var buf: seq<Byte> := [48, 0, 2, 1, 5];
    var number := Node(2, 1, 4, []);
    var sequence := Node(48, 0, 2, [number]);
    assert [] + [number] == [number] && [number] + [sequence] == [number, sequence];
    assert Decode(buf, 2, 3) == Decode(buf, 2, 0) == Some(Decoded(number, []));
    assert DecodeAll(buf, 2, 3) == DecodeAll(buf, 2, 0) == Some([number]);
    assert Decode(buf, 0, 5) == Some(Decoded(sequence, [number]));
  }

  /** For any forest: every node's tag, length and value offset come back, with each list of
      siblings in reverse order, if and only if no composed value is empty. */
  lemma {:induction false} ForestRoundTrip(buf: seq<Byte>, beg: nat, ts: seq<Tlv>)
    requires ts != [] && (forall t | t in ts :: WellFormed(t)) && At(buf, beg, EncodeAll(ts))
    ensures DecodeAll(buf, beg, |EncodeAll(ts)|) == Some(NodesOf(ts, beg)) <==> forall t | t in ts :: Filled(t)
    decreases ts
  {
    hide At, Encode, WellFormed, Decode, LengthAt, LengthBytes, EncodeLen, Contents, Filled;
    var t, rest := ts[0], ts[1..];
    var e := Encode(t);
    assert ts == [t] + rest;
    AtHalves(buf, beg, e, EncodeAll(rest));
    HeadOf(buf, beg, t);
    TagFits(t);
    var val := beg + 1 + |EncodeLen(|Contents(t)|, t.lenLen)|;
    var children := if t.Composed? then NodesOf(t.parts, val) else [];
    if t.Composed? {
      PartsFormed(t);
      if t.parts == [] {
        NeverEmpty(buf, val, |Contents(t)|);
      } else {
        ForestRoundTrip(buf, val, t.parts);
      }
    } else {
      PrimitiveFilled(t);
    }
    var siblings := NodesOf(rest, beg + |e|);
    if rest != [] {
      NotEmpty(rest);
      ForestRoundTrip(buf, beg + |e|, rest);
    }
    var len := |EncodeAll(ts)|;
    DecodeIs(buf, beg, len, t.tag, |Contents(t)|, val, children, siblings);
    NodeIs(t, beg);
    SplitAll(buf, beg, len, NodeOf(t, beg), siblings);
  }
}
