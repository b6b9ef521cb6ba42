/** Names in DNS messages, and the encoder of the question (src/dns.cpp); RFC 1035 section 4.1.4. */
module Dns {
  import opened Text

  const DOT: Byte := 46

  // ---- reading ----

  datatype Name = Name(labels: seq<seq<Byte>>, used: nat)

  function Target(buf: seq<Byte>, at: nat): nat
    requires at + 1 < |buf| && buf[at] >= 192
  {
    256 * (buf[at] as int - 192) + buf[at + 1]
  }

  /** The labels of the name at `at`, and the bytes it takes there. None: the name leaves the
      buffer, has a label over 63 bytes (the source's 64-byte copy would overflow), or follows more
      than `jumps` pointers. */
  function Walk(buf: seq<Byte>, at: nat, jumps: nat): Option<Name>
    decreases jumps, |buf| - at
  {
    if at >= |buf| then None
    else if buf[at] == 0 then Some(Name([], 1))
    else if buf[at] >= 192 then
      if at + 1 >= |buf| || jumps == 0 then None
      else
        match Walk(buf, Target(buf, at), jumps - 1)
        case None => None
        case Some(n) => Some(Name(n.labels, 2))
    else if buf[at] >= 64 || at + 1 + buf[at] > |buf| then None
    else
      match Walk(buf, at + 1 + buf[at], jumps)
      case None => None
      case Some(n) => Some(Name([buf[at + 1..at + 1 + buf[at]]] + n.labels, 1 + buf[at] + n.used))
  }

  function Extended(host: seq<Byte>, text: seq<Byte>): seq<Byte> {
    if host == [] then text else host + [DOT] + text
  }

  /** Each label is appended as a C string, after a dot unless the name is still empty. */
  function Spell(host: seq<Byte>, labels: seq<seq<Byte>>): seq<Byte>
    decreases |labels|
  {
    if labels == [] then host else Spell(Extended(host, UpTo(labels[0], 0)), labels[1..])
  }

  lemma SpellOneMore(host: seq<Byte>, text: seq<Byte>, later: seq<seq<Byte>>)
    ensures Spell(host, [text] + later) == Spell(Extended(host, UpTo(text, 0)), later)
  {
    assert ([text] + later)[1..] == later;
  }

  lemma SpellNothing(host: seq<Byte>)
    ensures Spell(host, []) == host
  {
  }

  lemma WalkStep(buf: seq<Byte>, at: nat, jumps: nat)
    requires Walk(buf, at, jumps).Some?
    ensures at < |buf|
    ensures buf[at] == 0 ==> Walk(buf, at, jumps) == Some(Name([], 1))
    ensures buf[at] >= 192 ==>
              && at + 1 < |buf| && jumps > 0 && Walk(buf, Target(buf, at), jumps - 1).Some?
              && Walk(buf, at, jumps) == Some(Name(Walk(buf, Target(buf, at), jumps - 1).value.labels, 2))
    ensures 0 < buf[at] < 192 ==>
              var next := at + 1 + buf[at];
              && buf[at] < 64 && next <= |buf| && Walk(buf, next, jumps).Some?
              && Walk(buf, at, jumps).value.labels == [buf[at + 1..next]] + Walk(buf, next, jumps).value.labels
              && Walk(buf, at, jumps).value.used == 1 + buf[at] + Walk(buf, next, jumps).value.used
  {
  }

  /** gethostname: the loop over labels, and the recursion on a pointer. */
  method GetHostname(buf: seq<Byte>, seek: nat, hostname: seq<Byte>, ghost jumps: nat)
    returns (used: nat, name: seq<Byte>)
    requires Walk(buf, seek, jumps).Some?
    ensures used == Walk(buf, seek, jumps).value.used
    ensures name == Spell(hostname, Walk(buf, seek, jumps).value.labels)
    decreases jumps
  {
    hide UpTo, Extended, Walk, Spell;
    ghost var whole := Walk(buf, seek, jumps).value;
    var i := 0;
    name := hostname;
    while true
      invariant Walk(buf, seek + i, jumps).Some?
      invariant i + Walk(buf, seek + i, jumps).value.used == whole.used
      invariant Spell(name, Walk(buf, seek + i, jumps).value.labels) == Spell(hostname, whole.labels)
      decreases |buf| - (seek + i)
    {
      WalkStep(buf, seek + i, jumps);
      if buf[seek + i] == 0 {
        SpellNothing(name);
        i := i + 1;
        break;
      } else if buf[seek + i] >= 192 {
        var cptr := 256 * (buf[seek + i] as int - 192);
        i := i + 1;
        cptr := cptr + buf[seek + i];
        var inner;
        inner, name := GetHostname(buf, cptr, name, jumps - 1);
        i := i + 1;
        break;
      } else {
        var text := buf[seek + i + 1..seek + i + 1 + buf[seek + i]];
        SpellOneMore(name, text, Walk(buf, seek + i + 1 + buf[seek + i], jumps).value.labels);
        i := i + buf[seek + i] + 1;
        name := Extended(name, UpTo(text, 0));
      }
    }
    used := i;
  }

  // ---- termination ----

  /** How many pointers are followed. */
  function Depth(buf: seq<Byte>, at: nat, jumps: nat): nat
    requires Walk(buf, at, jumps).Some?
    decreases jumps, |buf| - at
  {
    if buf[at] == 0 then 0
    else if buf[at] >= 192 then 1 + Depth(buf, Target(buf, at), jumps - 1)
    else Depth(buf, at + 1 + buf[at], jumps)
  }

  /** Only the pointers there are count: any bound that covers them gives the same name. */
  lemma {:induction false} BoundDoesNotMatter(buf: seq<Byte>, at: nat, jumps: nat, other: nat)
    requires Walk(buf, at, jumps).Some? && Depth(buf, at, jumps) <= other
    ensures Walk(buf, at, other) == Walk(buf, at, jumps) && Depth(buf, at, other) == Depth(buf, at, jumps)
    decreases jumps, |buf| - at
  {
    if buf[at] >= 192 {
      BoundDoesNotMatter(buf, Target(buf, at), jumps - 1, other - 1);
    } else if buf[at] != 0 {
      BoundDoesNotMatter(buf, at + 1 + buf[at], jumps, other);
    }
  }

  lemma {:induction false} DepthBounded(buf: seq<Byte>, at: nat, jumps: nat)
    requires Walk(buf, at, jumps).Some?
    ensures Depth(buf, at, jumps) <= jumps
    decreases jumps, |buf| - at
  {
    if buf[at] >= 192 {
      DepthBounded(buf, Target(buf, at), jumps - 1);
    } else if buf[at] != 0 {
      DepthBounded(buf, at + 1 + buf[at], jumps);
    }
  }

  /** The names pointed to on the way: as many offsets as pointers, since the number of pointers
      still to come tells them apart. */
  lemma {:induction false} Visited(buf: seq<Byte>, at: nat, jumps: nat) returns (s: set<int>)
    requires Walk(buf, at, jumps).Some?
    ensures |s| == Depth(buf, at, jumps)
    ensures forall p | p in s ::
              0 <= p < |buf| && Walk(buf, p, jumps).Some? && Depth(buf, p, jumps) < Depth(buf, at, jumps)
    decreases jumps, |buf| - at
  {
    if buf[at] == 0 {
      s := {};
    } else if buf[at] >= 192 {
      var next := Target(buf, at);
      var later := Visited(buf, next, jumps - 1);
      s := later + {next};
      assert next !in later;
      forall p | p in s
        ensures 0 <= p < |buf| && Walk(buf, p, jumps).Some? && Depth(buf, p, jumps) < Depth(buf, at, jumps)
      {
        DepthBounded(buf, p, jumps - 1);
        BoundDoesNotMatter(buf, p, jumps - 1, jumps);
      }
    } else {
      s := Visited(buf, at + 1 + buf[at], jumps);
    }
  }

  lemma {:induction false} SmallSet(s: set<int>, n: nat)
    requires forall p :: p in s ==> 0 <= p < n
    ensures |s| <= n
  {
    if exists p :: p in s {
      SmallSet(s - {n - 1}, n - 1);
      assert s <= (s - {n - 1}) + {n - 1};
    } else {
      assert s == {};
    }
  }

  /** A name that is ever read to its end follows at most as many pointers as the buffer has
      bytes, so the bound |buf| decides termination. */
  lemma EndsWithinSize(buf: seq<Byte>, at: nat, jumps: nat)
    requires Walk(buf, at, jumps).Some?
    ensures Walk(buf, at, |buf|) == Walk(buf, at, jumps)
  {
    var s := Visited(buf, at, jumps);
    SmallSet(s, |buf|);
    BoundDoesNotMatter(buf, at, jumps, |buf|);
  }

  /** The name that starts at `from`, seen from its byte `at` on: labels of 1 to 63 bytes inside the
      buffer, and each pointer leads to before the start of the name it stands in. */
  predicate PointsBack(buf: seq<Byte>, from: nat, at: nat)
    decreases from, |buf| - at
  {
    && at < |buf|
    && (buf[at] == 0
        || (buf[at] >= 192 && at + 1 < |buf| && Target(buf, at) < from
            && PointsBack(buf, Target(buf, at), Target(buf, at)))
        || (buf[at] < 64 && at + 1 + buf[at] <= |buf| && PointsBack(buf, from, at + 1 + buf[at])))
  }

  lemma {:induction false} PointingBackEnds(buf: seq<Byte>, from: nat, at: nat, jumps: nat)
    requires PointsBack(buf, from, at) && from <= jumps
    ensures Walk(buf, at, jumps).Some?
    decreases from, |buf| - at
  {
    if buf[at] >= 192 {
      PointingBackEnds(buf, Target(buf, at), Target(buf, at), jumps - 1);
    } else if buf[at] != 0 {
      PointingBackEnds(buf, from, at + 1 + buf[at], jumps);
    }
  }

  // ---- exactly when reading ends ----

  /** What stands behind the labels of a name: the root, a pointer, or neither inside the buffer. */
  datatype Ending = Bad | Root | Jump(target: nat)

  function EndingOf(buf: seq<Byte>, at: nat): Ending
    decreases |buf| - at
  {
    if at >= |buf| then Bad
    else if buf[at] == 0 then Root
    else if buf[at] >= 192 then if at + 1 < |buf| then Jump(Target(buf, at)) else Bad
    else if buf[at] >= 64 || at + 1 + buf[at] > |buf| then Bad
    else EndingOf(buf, at + 1 + buf[at])
  }

  /** Where the k-th name met on the way stands. */
  function NameAt(buf: seq<Byte>, at: nat, k: nat): Option<nat>
    decreases k
  {
    if k == 0 then Some(at)
    else
      match EndingOf(buf, at)
      case Jump(t) => NameAt(buf, t, k - 1)
      case _ => None
  }

  /** Every name met has its labels inside the buffer and leads to the root or to a pointer. */
  predicate NoBadName(buf: seq<Byte>, at: nat) {
    forall k | 0 <= k <= |buf| && NameAt(buf, at, k).Some? :: EndingOf(buf, NameAt(buf, at, k).value) != Bad
  }

  predicate NoNameTwice(buf: seq<Byte>, at: nat) {
    forall j, k | 0 <= j < k <= |buf| && NameAt(buf, at, k).Some? :: NameAt(buf, at, j) != NameAt(buf, at, k)
  }

  lemma {:induction false} WalkEnding(buf: seq<Byte>, at: nat, jumps: nat)
    ensures Walk(buf, at, jumps).Some? <==>
            match EndingOf(buf, at)
            case Bad => false
            case Root => true
            case Jump(t) => jumps > 0 && Walk(buf, t, jumps - 1).Some?
    decreases |buf| - at
  {
    if at < |buf| && 0 < buf[at] < 64 && at + 1 + buf[at] <= |buf| {
      WalkEnding(buf, at + 1 + buf[at], jumps);
    }
  }

  /** Every name met on the way of a name that ends has an end. */
  lemma {:induction false} EachNameEnds(buf: seq<Byte>, at: nat, k: nat, jumps: nat)
    requires NameAt(buf, at, k).Some? && Walk(buf, at, jumps).Some?
    ensures k <= jumps && Walk(buf, NameAt(buf, at, k).value, jumps - k).Some?
    decreases k
  {
    hide Walk, EndingOf;
    if k > 0 {
      WalkEnding(buf, at, jumps);
      EachNameEnds(buf, EndingOf(buf, at).target, k - 1, jumps - 1);
    }
  }

  lemma {:induction false} NamesBehind(buf: seq<Byte>, at: nat, j: nat, k: nat)
    requires NameAt(buf, at, j).Some?
    ensures NameAt(buf, at, j + k) == NameAt(buf, NameAt(buf, at, j).value, k)
    decreases j
  {
    hide EndingOf;
    if j > 0 {
      NamesBehind(buf, EndingOf(buf, at).target, j - 1, k);
    }
  }

  lemma {:induction false} Circle(buf: seq<Byte>, at: nat, n: nat, jumps: nat)
    requires n > 0 && NameAt(buf, at, n) == Some(at)
    ensures Walk(buf, at, jumps) == None
    decreases jumps
  {
    hide Walk, EndingOf, NameAt;
    if Walk(buf, at, jumps).Some? {
      EachNameEnds(buf, at, n, jumps);
      Circle(buf, at, n, jumps - n);
    }
  }

  /** A name on whose way some name is met twice is never read to an end, however many names there
      are between. */
  lemma LoopNeverEnds(buf: seq<Byte>, at: nat, j: nat, k: nat, jumps: nat)
    requires j < k && NameAt(buf, at, j).Some? && NameAt(buf, at, j) == NameAt(buf, at, k)
    ensures Walk(buf, at, jumps) == None
  {
    hide Walk, NameAt;
    if Walk(buf, at, jumps).Some? {
      EachNameEnds(buf, at, j, jumps);
      NamesBehind(buf, at, j, k - j);
      Circle(buf, NameAt(buf, at, j).value, k - j, jumps - j);
    }
  }

  /** As long as each name leads to a pointer there is a next one. */
  lemma {:induction false} NamesGoOn(buf: seq<Byte>, at: nat, n: nat)
    requires forall k | 0 <= k < n && NameAt(buf, at, k).Some? :: EndingOf(buf, NameAt(buf, at, k).value).Jump?
    ensures forall k | 0 <= k <= n :: NameAt(buf, at, k).Some?
    decreases n
  {
    hide EndingOf;
    if n > 0 {
      NamesGoOn(buf, at, n - 1);
      NamesBehind(buf, at, n - 1, 1);
      assert NameAt(buf, at, n - 1).Some?;
      var p := NameAt(buf, at, n - 1).value;
      assert NameAt(buf, p, 1) == NameAt(buf, EndingOf(buf, p).target, 0);
    }
  }

  /** One of the first n names stands at p. */
  ghost predicate Met(buf: seq<Byte>, at: nat, n: nat, p: nat) {
    exists k :: 0 <= k < n && NameAt(buf, at, k) == Some(p)
  }

  /** Names that are all different stand at as many places. */
  lemma {:induction false} Offsets(buf: seq<Byte>, at: nat, n: nat) returns (s: set<int>)
    requires forall k | 0 <= k < n :: NameAt(buf, at, k).Some? && NameAt(buf, at, k).value < |buf|
    requires forall j, k | 0 <= j < k < n :: NameAt(buf, at, j) != NameAt(buf, at, k)
    ensures |s| == n
    ensures forall p | p in s :: 0 <= p < |buf| && Met(buf, at, n, p)
    decreases n
  {
    hide EndingOf;
    if n == 0 {
      s := {};
    } else {
      var before := Offsets(buf, at, n - 1);
      s := before + {NameAt(buf, at, n - 1).value};
    }
  }

  lemma {:induction false} RootEnds(buf: seq<Byte>, at: nat, k: nat, jumps: nat)
    requires k <= jumps && NameAt(buf, at, k).Some? && EndingOf(buf, NameAt(buf, at, k).value) == Root
    ensures Walk(buf, at, jumps).Some?
    decreases k
  {
    hide Walk, EndingOf;
    WalkEnding(buf, at, jumps);
    if k > 0 {
      RootEnds(buf, EndingOf(buf, at).target, k - 1, jumps - 1);
    }
  }

  lemma EndingInside(buf: seq<Byte>, at: nat)
    ensures EndingOf(buf, at) != Bad ==> at < |buf|
  {
  }

  lemma EndsInTime(buf: seq<Byte>, at: nat)
    ensures Walk(buf, at, |buf|).Some? <==> NoBadName(buf, at) && NoNameTwice(buf, at)
  {
    hide Walk, EndingOf, NameAt;
    if Walk(buf, at, |buf|).Some? {
      forall k | 0 <= k <= |buf| && NameAt(buf, at, k).Some?
        ensures EndingOf(buf, NameAt(buf, at, k).value) != Bad
      {
        EachNameEnds(buf, at, k, |buf|);
        WalkEnding(buf, NameAt(buf, at, k).value, |buf| - k);
      }
      forall j, k | 0 <= j < k <= |buf| && NameAt(buf, at, k).Some?
        ensures NameAt(buf, at, j) != NameAt(buf, at, k)
      {
        if NameAt(buf, at, j) == NameAt(buf, at, k) {
          LoopNeverEnds(buf, at, j, k, |buf|);
        }
      }
    } else if NoBadName(buf, at) && NoNameTwice(buf, at) {
      forall k | 0 <= k <= |buf| && NameAt(buf, at, k).Some?
        ensures EndingOf(buf, NameAt(buf, at, k).value).Jump?
      {
        if EndingOf(buf, NameAt(buf, at, k).value) == Root {
          RootEnds(buf, at, k, |buf|);
        }
      }
      NamesGoOn(buf, at, |buf| + 1);
      forall k | 0 <= k <= |buf| ensures NameAt(buf, at, k).value < |buf| {
        EndingInside(buf, NameAt(buf, at, k).value);
      }
      var s := Offsets(buf, at, |buf| + 1);
      SmallSet(s, |buf|);
      assert false;
    }
  }

  /** Reading comes to an end, after however many pointers. */
  ghost predicate Ends(buf: seq<Byte>, at: nat) {
    exists jumps: nat :: Walk(buf, at, jumps).Some?
  }

  /** Reading ends if and only if no bad name is met and no name is met twice. */
  lemma EndsIff(buf: seq<Byte>, at: nat)
    ensures Ends(buf, at) <==> NoBadName(buf, at) && NoNameTwice(buf, at)
  {
    hide NoBadName, NoNameTwice;
    EndsInTime(buf, at);
    if Ends(buf, at) {
      var jumps: nat :| Walk(buf, at, jumps).Some?;
      EndsWithinSize(buf, at, jumps);
    }
  }

  // ---- writing ----

  /** As `query` writes labels: the length as an unsigned char, then the bytes. */
  function Labels(labels: seq<seq<Byte>>): seq<Byte> {
    if labels == [] then [] else [|labels[0]| % 256] + labels[0] + Labels(labels[1..])
  }

  function EncodeName(labels: seq<seq<Byte>>): seq<Byte> { Labels(labels) + [0] }

  lemma {:induction false} LabelsSnoc(labels: seq<seq<Byte>>, l: seq<Byte>)
    ensures Labels(labels + [l]) == Labels(labels) + [|l| % 256] + l
  {
    if labels == [] {
      assert [l][1..] == [];
    } else {
      assert (labels + [l])[1..] == labels[1..] + [l];
      LabelsSnoc(labels[1..], l);
    }
  }

  const HEADER: nat := 12

  lemma {:induction false} LabelsPrefix(labels: seq<seq<Byte>>, i: nat)
    requires i <= |labels|
    ensures |Labels(labels[..i])| <= |Labels(labels)|
    ensures i == 0 ==> Labels(labels[..i]) == []
  {
    if i > 0 {
      assert labels[..i][1..] == labels[1..][..i - 1];
      LabelsPrefix(labels[1..], i - 1);
    }
  }

  method PutLabel(dnsbuf: array<Byte>, at: nat, l: seq<Byte>)
    requires at + 1 + |l| <= dnsbuf.Length
    modifies dnsbuf
    ensures dnsbuf[..at + 1 + |l|] == old(dnsbuf[..at]) + ([|l| % 256] + l)
    ensures forall k | at + 1 + |l| <= k < dnsbuf.Length :: dnsbuf[k] == old(dnsbuf[k])
  {
    Copy(dnsbuf, at, [|l| % 256]);
    Copy(dnsbuf, at + 1, l);
  }

  /** The loop of `query` after the split of the host name, which drops empty labels and is not part
      of this model. */
  method PackName(dnsbuf: array<Byte>, labels: seq<seq<Byte>>) returns (qseek: nat)
    requires 12 + |EncodeName(labels)| <= dnsbuf.Length
    modifies dnsbuf
    ensures qseek == |EncodeName(labels)|
    ensures dnsbuf[..12 + qseek] == old(dnsbuf[..12]) + EncodeName(labels)
    ensures dnsbuf[12 + qseek..] == old(dnsbuf[12 + |EncodeName(labels)|..])
  {
    hide Labels;
    qseek := 0;
    var i := 0;
    LabelsPrefix(labels, 0);
    while i < |labels|
      invariant 0 <= i <= |labels| && qseek == |Labels(labels[..i])| <= |Labels(labels)|
      invariant dnsbuf[..HEADER + qseek] == old(dnsbuf[..HEADER]) + Labels(labels[..i])
      invariant forall k | HEADER + qseek <= k < dnsbuf.Length :: dnsbuf[k] == old(dnsbuf[k])
    {
      var l := labels[i];
      LabelsSnoc(labels[..i], l);
      assert labels[..i + 1] == labels[..i] + [l];
      LabelsPrefix(labels, i + 1);
      PutLabel(dnsbuf, HEADER + qseek, l);
      Assoc(old(dnsbuf[..HEADER]), Labels(labels[..i]), [|l| % 256] + l);
      Assoc(Labels(labels[..i]), [|l| % 256], l);
      qseek := qseek + 1 + |l|;
      i := i + 1;
    }
    assert labels[..i] == labels;
    Copy(dnsbuf, HEADER + qseek, [0]);
    qseek := qseek + 1;
  }

  function Pointer(off: nat): seq<Byte>
    requires off < 0x4000
  {
    [192 + off / 256, off % 256]
  }

  // ---- reading what was written ----

  predicate Fits(text: seq<Byte>) { 0 < |text| <= 63 }

  /** What Walk makes of a label and of the outcome after it. */
  function Joined(labels: seq<seq<Byte>>, size: nat, rest: Option<Name>): Option<Name> {
    match rest case None => None case Some(n) => Some(Name(labels + n.labels, size + n.used))
  }

  lemma OneLabel(buf: seq<Byte>, at: nat, l: seq<Byte>, jumps: nat)
    requires Fits(l) && at + 1 + |l| <= |buf| && buf[at] == |l| && buf[at + 1..at + 1 + |l|] == l
    ensures Walk(buf, at, jumps) == Joined([l], 1 + |l|, Walk(buf, at + 1 + |l|, jumps))
  {
  }

  lemma JoinedTwice(l: seq<Byte>, size: nat, labels: seq<seq<Byte>>, size': nat, rest: Option<Name>)
    ensures Joined([l], size, Joined(labels, size', rest)) == Joined([l] + labels, size + size', rest)
    ensures Joined([], 0, rest) == rest
  {
    if rest.Some? {
      assert [l] + (labels + rest.value.labels) == [l] + labels + rest.value.labels;
      assert [] + rest.value.labels == rest.value.labels;
    }
  }

  lemma FirstLabel(buf: seq<Byte>, at: nat, labels: seq<seq<Byte>>)
    requires labels != [] && At(buf, at, Labels(labels))
    ensures var l := labels[0];
            && at + 1 + |l| <= |buf| && buf[at] == |l| % 256 && buf[at + 1..at + 1 + |l|] == l
            && At(buf, at + 1 + |l|, Labels(labels[1..]))
  {
    var l, rest := labels[0], Labels(labels[1..]);
    var n: Byte := |l| % 256;
    assert Labels(labels) == [n] + l + rest;
    hide At, Labels;
    AtHalves(buf, at, [n] + l, rest);
    AtHalves(buf, at, [n], l);
    AtOne(buf, at, n);
    AtSlice(buf, at + 1, l);
  }

  /** After labels that fit, the rest of the name is read as if it stood alone. */
  lemma {:induction false} AfterLabels(buf: seq<Byte>, at: nat, labels: seq<seq<Byte>>, jumps: nat)
    requires At(buf, at, Labels(labels)) && forall l | l in labels :: Fits(l)
    ensures Walk(buf, at, jumps) == Joined(labels, |Labels(labels)|, Walk(buf, at + |Labels(labels)|, jumps))
    decreases |labels|
  {
    hide At, Walk, Joined;
    var rest := Walk(buf, at + |Labels(labels)|, jumps);
    if labels == [] {
      JoinedTwice([], 0, [], 0, rest);
    } else {
      var l, later := labels[0], labels[1..];
      assert labels == [l] + later;
      FirstLabel(buf, at, labels);
      OneLabel(buf, at, l, jumps);
      AfterLabels(buf, at + 1 + |l|, later, jumps);
      JoinedTwice(l, 1 + |l|, later, |Labels(later)|, rest);
    }
  }

  lemma PointerStep(buf: seq<Byte>, at: nat, off: nat, jumps: nat)
    requires off < 0x4000 && At(buf, at, Pointer(off))
    ensures Walk(buf, at, jumps) ==
            if jumps == 0 || Walk(buf, off, jumps - 1).None? then None
            else Some(Name(Walk(buf, off, jumps - 1).value.labels, 2))
  {
    var p := buf[at..at + 2];
    assert p == Pointer(off) && buf[at] == p[0] && buf[at + 1] == p[1];
    assert Target(buf, at) == off;
  }

  /** A compressed name: its own labels, then those of the name pointed to; two bytes for the pointer. */
  lemma Compressed(buf: seq<Byte>, at: nat, labels: seq<seq<Byte>>, off: nat, jumps: nat)
    requires off < 0x4000 && At(buf, at, Labels(labels) + Pointer(off)) && forall l | l in labels :: Fits(l)
    ensures Walk(buf, at, jumps) ==
            if jumps == 0 || Walk(buf, off, jumps - 1).None? then None
            else Some(Name(labels + Walk(buf, off, jumps - 1).value.labels, |Labels(labels)| + 2))
  {
    hide Walk, Labels, At;
    AtHalves(buf, at, Labels(labels), Pointer(off));
    AfterLabels(buf, at, labels, jumps);
    PointerStep(buf, at + |Labels(labels)|, off, jumps);
  }

  /** A name that points to its own start is the shortest such loop. */
  lemma {:induction false} SelfPointerNeverEnds(buf: seq<Byte>, at: nat, labels: seq<seq<Byte>>, jumps: nat)
    requires at < 0x4000 && At(buf, at, Labels(labels) + Pointer(at)) && forall l | l in labels :: Fits(l)
    ensures Walk(buf, at, jumps) == None
  {
    Compressed(buf, at, labels, at, jumps);
    if jumps > 0 {
      SelfPointerNeverEnds(buf, at, labels, jumps - 1);
    }
  }

  lemma RootName(buf: seq<Byte>, at: nat, jumps: nat)
    requires At(buf, at, EncodeName([]))
    ensures Walk(buf, at, jumps) == Some(Name([], 1))
  {
    assert buf[at..at + 1][0] == 0;
  }

  lemma OneMore(l: seq<Byte>, rest: seq<seq<Byte>>, size: nat, size': nat, later: Option<Name>)
    ensures Joined([l], size, later) == Some(Name([l] + rest, size + size')) <==> later == Some(Name(rest, size'))
  {
    if later.Some? {
      assert ([l] + later.value.labels)[1..] == later.value.labels && ([l] + rest)[1..] == rest;
    }
  }

  /** A length byte that stands for 64 or more: too few bytes are taken, or too short a label. */
  lemma TooLong(buf: seq<Byte>, at: nat, n: nat, jumps: nat)
    requires at < |buf| && n >= 64 && buf[at] == n % 256
    ensures var w := Walk(buf, at, jumps);
            w.Some? ==> w.value.used <= 2 || (w.value.labels != [] && |w.value.labels[0]| < 64)
  {
  }

  /** Reading inverts writing, wherever the name stands in the message, if and only if no label is
      longer than 63 bytes. */
  lemma {:induction false} EncodeRead(buf: seq<Byte>, at: nat, labels: seq<seq<Byte>>, jumps: nat)
    requires At(buf, at, EncodeName(labels)) && [] !in labels
    ensures Walk(buf, at, jumps) == Some(Name(labels, |EncodeName(labels)|)) <==> forall l | l in labels :: Fits(l)
    decreases |labels|
  {
    hide Walk, At, Joined;
    if labels == [] {
      RootName(buf, at, jumps);
    } else {
      var l, rest := labels[0], labels[1..];
      assert labels == [l] + rest;
      AtHalves(buf, at, Labels(labels), [0]);
      FirstLabel(buf, at, labels);
      var head: seq<Byte> := [|l| % 256] + l;
      assert EncodeName(labels) == head + EncodeName(rest);
      AtHalves(buf, at, head, EncodeName(rest));
      if Fits(l) {
        OneLabel(buf, at, l, jumps);
        EncodeRead(buf, at + 1 + |l|, rest, jumps);
        OneMore(l, rest, 1 + |l|, |EncodeName(rest)|, Walk(buf, at + 1 + |l|, jumps));
      } else {
        TooLong(buf, at, |l|, jumps);
      }
    }
  }

  // ---- the spelling ----

  function Dotted(labels: seq<seq<Byte>>): seq<Byte> {
    if labels == [] then []
    else if |labels| == 1 then labels[0]
    else labels[0] + [DOT] + Dotted(labels[1..])
  }

  lemma ExtendedTwice(host: seq<Byte>, l: seq<Byte>, rest: seq<Byte>)
    requires l != []
    ensures Extended(Extended(host, l), rest) == Extended(host, l + [DOT] + rest)
  {
    if host != [] {
      assert host + [DOT] + l + [DOT] + rest == host + [DOT] + (l + [DOT] + rest);
    }
  }

  lemma {:induction false} SpellAfter(host: seq<Byte>, labels: seq<seq<Byte>>)
    requires [] !in labels
    ensures var want := if labels == [] then host else Extended(host, Dotted(labels));
            && |Spell(host, labels)| <= |want|
            && (Spell(host, labels) == want <==> forall l | l in labels :: 0 !in l)
    decreases |labels|
  {
    hide UpTo;
    if labels != [] {
      var l, rest := labels[0], labels[1..];
      assert labels == [l] + rest;
      UpToWhole(l, 0);
      SpellAfter(Extended(host, UpTo(l, 0)), rest);
      if rest != [] {
        ExtendedTwice(host, l, Dotted(rest));
      }
    }
  }

  /** A name read from scratch is its labels joined by dots, if and only if no label holds a NUL. */
  lemma SpellIsDotted(labels: seq<seq<Byte>>)
    requires [] !in labels
    ensures Spell([], labels) == Dotted(labels) <==> forall l | l in labels :: 0 !in l
  {
    SpellAfter([], labels);
  }

  /** Labels read by Walk are never empty. */
  lemma {:induction false} LabelsFit(buf: seq<Byte>, at: nat, jumps: nat)
    requires Walk(buf, at, jumps).Some?
    ensures forall l | l in Walk(buf, at, jumps).value.labels :: Fits(l)
    decreases jumps, |buf| - at
  {
    if buf[at] >= 192 {
      LabelsFit(buf, Target(buf, at), jumps - 1);
    } else if buf[at] != 0 {
      LabelsFit(buf, at + 1 + buf[at], jumps);
    }
  }

  lemma TwoLabelsWritten()
    ensures EncodeName([[97, 98], [99]]) == [2, 97, 98, 1, 99, 0]
  {
    var a: seq<Byte>, c: seq<Byte> := [97, 98], [99];
    assert [a, c][1..] == [c] && [c][1..] == [];
    assert Labels([c]) == [1] + c + [] == [1, 99];
    assert Labels([a, c]) == [2] + a + Labels([c]) == [2, 97, 98, 1, 99];
  }

  /** The name of "ab.c" in a message, and how it is spelt: 97 is a, 46 the dot. */
  lemma TwoLabels()
    ensures EncodeName([[97, 98], [99]]) == [2, 97, 98, 1, 99, 0]
    ensures Walk([2, 97, 98, 1, 99, 0], 0, 0) == Some(Name([[97, 98], [99]], 6))
    ensures Spell([], [[97, 98], [99]]) == [97, 98, 46, 99]
  {
    var a: seq<Byte>, c: seq<Byte> := [97, 98], [99];
    TwoLabelsWritten();
    assert [a, c][1..] == [c];
    hide Labels, EncodeName, Walk, Spell;
    EncodeRead([2, 97, 98, 1, 99, 0], 0, [a, c], 0);
    SpellIsDotted([a, c]);
  }
}
