/** IMAP STORE: flags of the messages in a list of ranges (src/imap.cpp); RFC 3501 section 6.4.6. */
module Store {
  import opened Text
  import opened Mailbox
  import Archive

  // ---- which messages ----

  datatype Range = Range(begin: nat, end: nat)

  function Number(s: string): nat { Archive.ToUnsigned(Archive.ParseInt(s)) }

  /** One element of the list, cut at its colons; with more than one colon nBegin and nEnd stay as
      they are. */
  function NextRange(piece: seq<string>, prev: Range): Range {
    if |piece| == 1 then Range(Number(piece[0]), Number(piece[0]))
    else if |piece| == 2 then Range(Number(piece[0]), if piece[1] == "*" then 0x7FFF_FFFF else Number(piece[1]))
    else prev
  }

  function Ranges(pieces: seq<seq<string>>, prev: Range): (rs: seq<Range>)
    ensures |rs| == |pieces|
  {
    if pieces == [] then []
    else var r := NextRange(pieces[0], prev); [r] + Ranges(pieces[1..], r)
  }

  /** What a message is known by: its mid, or its place in the table from 1. */
  function Handle(table: seq<Message>, x: nat, isUID: bool): int
    requires x < |table|
  {
    if isUID then table[x].mid else x + 1
  }

  predicate Selects(r: Range, table: seq<Message>, x: nat, isUID: bool)
    requires x < |table|
  {
    r.begin <= Handle(table, x, isUID) <= r.end
  }

  ghost predicate Touched(table: seq<Message>, rs: seq<Range>, isUID: bool, mid: int) {
    exists r, x | r in rs && 0 <= x < |table| :: Selects(r, table, x, isUID) && table[x].mid == mid
  }

  /** The places the two loops stop at, in order. */
  function VisitsIn(table: seq<Message>, r: Range, isUID: bool, n: nat): (vs: seq<nat>)
    requires n <= |table|
    ensures forall i | 0 <= i < |vs| :: vs[i] < n
  {
    if n == 0 then []
    else VisitsIn(table, r, isUID, n - 1) + if Selects(r, table, n - 1, isUID) then [n - 1] else []
  }

  predicate InTable(table: seq<Message>, vs: seq<nat>) { forall i | 0 <= i < |vs| :: vs[i] < |table| }

  function Visits(table: seq<Message>, rs: seq<Range>, isUID: bool): (vs: seq<nat>)
    ensures InTable(table, vs)
  {
    if rs == [] then []
    else
      var n := |rs| - 1;
      Visits(table, rs[..n], isUID) + VisitsIn(table, rs[n], isUID, |table|)
  }

  predicate Visited(table: seq<Message>, vs: seq<nat>, mid: int)
    requires InTable(table, vs)
  {
    exists i | 0 <= i < |vs| :: table[vs[i]].mid == mid
  }

  lemma {:induction false} VisitsInAll(table: seq<Message>, r: Range, isUID: bool, n: nat)
    requires n <= |table|
    ensures forall x: nat :: x in VisitsIn(table, r, isUID, n) <==> x < n && Selects(r, table, x, isUID)
  {
    if n > 0 {
      VisitsInAll(table, r, isUID, n - 1);
    }
  }

  lemma NothingTouched(table: seq<Message>, isUID: bool)
    ensures forall mid :: !Touched(table, [], isUID, mid) && !Visited(table, [], mid)
  {
  }

  lemma VisitedByEither(table: seq<Message>, vs: seq<nat>, ws: seq<nat>, mid: int)
    requires InTable(table, vs) && InTable(table, ws)
    ensures InTable(table, vs + ws)
    ensures Visited(table, vs + ws, mid) <==> Visited(table, vs, mid) || Visited(table, ws, mid)
  {
    if Visited(table, vs, mid) {
      var i :| 0 <= i < |vs| && table[vs[i]].mid == mid;
      assert (vs + ws)[i] == vs[i];
    }
    if Visited(table, ws, mid) {
      var i :| 0 <= i < |ws| && table[ws[i]].mid == mid;
      assert (vs + ws)[|vs| + i] == ws[i];
    }
  }

  lemma VisitedByOne(table: seq<Message>, r: Range, isUID: bool, mid: int)
    ensures InTable(table, VisitsIn(table, r, isUID, |table|))
    ensures Visited(table, VisitsIn(table, r, isUID, |table|), mid) <==> Touched(table, [r], isUID, mid)
  {
    hide Selects;
    var ws := VisitsIn(table, r, isUID, |table|);
    VisitsInAll(table, r, isUID, |table|);
    if Visited(table, ws, mid) {
      var i :| 0 <= i < |ws| && table[ws[i]].mid == mid;
      assert ws[i] in ws && r in [r] && Selects(r, table, ws[i], isUID);
    }
    if Touched(table, [r], isUID, mid) {
      var x: nat :| x < |table| && Selects(r, table, x, isUID) && table[x].mid == mid;
      assert x in ws;
    }
  }

  lemma TouchedByEither(table: seq<Message>, rs: seq<Range>, rs': seq<Range>, isUID: bool, mid: int)
    ensures Touched(table, rs + rs', isUID, mid) <==> Touched(table, rs, isUID, mid) || Touched(table, rs', isUID, mid)
  {
    hide Selects;
    if Touched(table, rs, isUID, mid) {
      var r, x :| r in rs && 0 <= x < |table| && Selects(r, table, x, isUID) && table[x].mid == mid;
      assert r in rs + rs';
    } else if Touched(table, rs', isUID, mid) {
      var r, x :| r in rs' && 0 <= x < |table| && Selects(r, table, x, isUID) && table[x].mid == mid;
      assert r in rs + rs';
    }
  }

  /** The loops stop at exactly the messages that some range selects. */
  lemma {:induction false} VisitsAll(table: seq<Message>, rs: seq<Range>, isUID: bool)
    ensures forall mid :: Visited(table, Visits(table, rs, isUID), mid) <==> Touched(table, rs, isUID, mid)
    decreases |rs|
  {
    hide Selects, Touched, Visited;
    if rs == [] {
      NothingTouched(table, isUID);
    } else {
      var n := |rs| - 1;
      var vs, ws := Visits(table, rs[..n], isUID), VisitsIn(table, rs[n], isUID, |table|);
      assert rs == rs[..n] + [rs[n]];
      VisitsAll(table, rs[..n], isUID);
      forall mid
        ensures Visited(table, vs + ws, mid) <==> Touched(table, rs, isUID, mid)
      {
        VisitedByEither(table, vs, ws, mid);
        VisitedByOne(table, rs[n], isUID, mid);
        TouchedByEither(table, rs[..n], [rs[n]], isUID, mid);
      }
    }
  }

  // ---- what is done to them ----

  datatype Mode = Replace | Add | Remove

  /** The word before the flags, and whether no reply is wanted. */
  function ModeOf(item: string): Option<(Mode, bool)> {
    if StartsIgnoreCase(item, "FLAGS.SILENT ") then Some((Replace, true))
    else if StartsIgnoreCase(item, "FLAGS ") then Some((Replace, false))
    else if StartsIgnoreCase(item, "+FLAGS.SILENT ") then Some((Add, true))
    else if StartsIgnoreCase(item, "+FLAGS ") then Some((Add, false))
    else if StartsIgnoreCase(item, "-FLAGS ") then Some((Remove, false))
    else if StartsIgnoreCase(item, "-FLAGS.SILENT ") then Some((Remove, true))
    else None
  }

  predicate Contains(s: string, sub: string) {
    sub <= s || (s != "" && Contains(s[1..], sub))
  }

  const NAMES: seq<(string, bv32)> :=
    [("\\Seen", SEEN), ("\\Answered", ANSWERED), ("\\Flagged", FLAGGED),
     ("\\Deleted", DELETED), ("\\Draft", DRAFT), ("\\Recent", RECENT)]

  function Or(s: bv32, m: bv32): bv32 { s | m }

  function Without(s: bv32, m: bv32): bv32 { s & !m }

  /** The bit, if the name is there. */
  function Named(item: string, name: string, bit: bv32): bv32 { if Contains(item, name) then bit else 0 }

  /** The attributes that are named. */
  function Mask(names: seq<(string, bv32)>, item: string): bv32 {
    if names == [] then 0 else Or(Named(item, names[0].0, names[0].1), Mask(names[1..], item))
  }

  function Apply(mode: Mode, mask: bv32, status: bv32): bv32 {
    match mode case Replace => mask case Add => Or(status, mask) case Remove => Without(status, mask)
  }

  lemma OrAgain(s: bv32, m: bv32, n: bv32)
    ensures Or(Or(s, m), n) == Or(s, Or(m, n))
  {
  }

  lemma OrZero(s: bv32)
    ensures Or(s, 0) == s && Or(0, s) == s && Or(s, s) == s
  {
  }

  lemma WithoutAgain(s: bv32, m: bv32, n: bv32)
    ensures Without(Without(s, m), n) == Without(s, Or(m, n))
  {
  }

  lemma WithoutZero(s: bv32)
    ensures Without(s, 0) == s
  {
  }

  lemma ApplyZero(mode: Mode, status: bv32)
    requires !mode.Replace?
    ensures Apply(mode, 0, status) == status
  {
    OrZero(status);
    WithoutZero(status);
  }

  /** Adding or removing attributes in two goes. */
  lemma ApplyAgain(mode: Mode, m: bv32, n: bv32, status: bv32)
    requires !mode.Replace?
    ensures Apply(mode, n, Apply(mode, m, status)) == Apply(mode, Or(m, n), status)
  {
    OrAgain(status, m, n);
    WithoutAgain(status, m, n);
    hide Or, Without;
  }

  lemma ApplyTwice(mode: Mode, mask: bv32, status: bv32)
    ensures Apply(mode, mask, Apply(mode, mask, status)) == Apply(mode, mask, status)
  {
    if !mode.Replace? {
      ApplyAgain(mode, mask, mask, status);
      OrZero(mask);
    }
    hide Or, Without;
  }

  function Applied(item: string, status: bv32): bv32 {
    match ModeOf(item) case None => status case Some((mode, _)) => Apply(mode, Mask(NAMES, item), status)
  }

  /** The whole effect: each message that some range selects gets its status replaced by, united with
      or reduced by the named attributes, once; no other is changed. */
  ghost predicate Stored(table: seq<Message>, rs: seq<Range>, item: string, isUID: bool,
                         db: map<int, bv32>, db': map<int, bv32>) {
    && db'.Keys == db.Keys
    && forall mid | mid in db :: db'[mid] == if Touched(table, rs, isUID, mid) then Applied(item, db[mid]) else db[mid]
  }

  ghost predicate StoredAt(table: seq<Message>, vs: seq<nat>, item: string, db: map<int, bv32>, db': map<int, bv32>)
    requires InTable(table, vs)
  {
    && db'.Keys == db.Keys
    && forall mid | mid in db :: db'[mid] == if Visited(table, vs, mid) then Applied(item, db[mid]) else db[mid]
  }

  /** The six tests on one message, each with a read and a write of the status. */
  method ChangeFlags(item: string, mid: int, add: bool, db: map<int, bv32>) returns (r: map<int, bv32>)
    requires mid in db
    ensures r == db[mid := Apply(if add then Add else Remove, Mask(NAMES, item), db[mid])]
  {
    hide Or, Without, Contains, Apply;
    var mode := if add then Add else Remove;
    r := db;
    for i := 0 to |NAMES|
      invariant r.Keys == db.Keys
      invariant r == db[mid := r[mid]]
      invariant Apply(mode, Mask(NAMES[i..], item), r[mid]) == Apply(mode, Mask(NAMES, item), db[mid])
    {
      var (name, bit) := NAMES[i];
      assert NAMES[i..][1..] == NAMES[i + 1..];
      var later := Mask(NAMES[i + 1..], item);
      if Contains(item, name) {
        ApplyAgain(mode, bit, later, r[mid]);
        r := r[mid := Apply(mode, bit, r[mid])];
      } else {
        OrZero(later);
      }
    }
    ApplyZero(mode, r[mid]);
  }

  /** An untagged FETCH reply: message number, mid and status. */
  datatype Reply = Reply(number: nat, mid: int, status: bv32)

  method StoreOne(item: string, x: nat, mid: int, db: map<int, bv32>) returns (r: map<int, bv32>, replies: seq<Reply>)
    requires mid in db
    ensures r == db[mid := Applied(item, db[mid])]
    ensures replies == if ModeOf(item).Some? && !ModeOf(item).value.1 then [Reply(x + 1, mid, r[mid])] else []
  {
    hide Mask, StartsIgnoreCase, Or, Without;
    r, replies := db, [];
    OrZero(Mask(NAMES, item));
    if StartsIgnoreCase(item, "FLAGS.SILENT ") {
      r := r[mid := 0];
      r := ChangeFlags(item, mid, true, r);
    } else if StartsIgnoreCase(item, "FLAGS ") {
      r := r[mid := 0];
      r := ChangeFlags(item, mid, true, r);
      replies := [Reply(x + 1, mid, r[mid])];
    } else if StartsIgnoreCase(item, "+FLAGS.SILENT ") {
      r := ChangeFlags(item, mid, true, r);
    } else if StartsIgnoreCase(item, "+FLAGS ") {
      r := ChangeFlags(item, mid, true, r);
      replies := [Reply(x + 1, mid, r[mid])];
    } else if StartsIgnoreCase(item, "-FLAGS ") {
      r := ChangeFlags(item, mid, false, r);
      replies := [Reply(x + 1, mid, r[mid])];
    } else if StartsIgnoreCase(item, "-FLAGS.SILENT ") {
      r := ChangeFlags(item, mid, false, r);
    }
  }

  lemma AppliedTwice(item: string, status: bv32)
    ensures Applied(item, Applied(item, status)) == Applied(item, status)
  {
    if ModeOf(item).Some? {
      ApplyTwice(ModeOf(item).value.0, Mask(NAMES, item), status);
    }
    hide ModeOf, Apply, Mask;
  }

  /** A later visit to the same message leaves it as the first one did. */
  lemma OneMoreVisit(table: seq<Message>, vs: seq<nat>, x: nat, item: string, db: map<int, bv32>, cur: map<int, bv32>)
    requires x < |table| && table[x].mid in db && InTable(table, vs) && StoredAt(table, vs, item, db, cur)
    ensures InTable(table, vs + [x])
    ensures var mid := table[x].mid;
            && StoredAt(table, vs + [x], item, db, cur[mid := Applied(item, cur[mid])])
            && (Visited(table, vs, mid) ==> Applied(item, cur[mid]) == cur[mid])
  {
    hide Applied;
    var mid := table[x].mid;
    AppliedTwice(item, db[mid]);
    forall m
      ensures Visited(table, vs + [x], m) <==> Visited(table, vs, m) || m == mid
    {
      if Visited(table, vs, m) {
        var i :| 0 <= i < |vs| && table[vs[i]].mid == m;
        assert (vs + [x])[i] == vs[i];
      }
      assert (vs + [x])[|vs|] == x;
    }
  }

  predicate Loud(item: string) { ModeOf(item).Some? && !ModeOf(item).value.1 }

  /** Unless silent, one reply for each stop, with the status as it stands in the end. */
  ghost predicate RepliedAt(table: seq<Message>, vs: seq<nat>, item: string, db': map<int, bv32>, replies: seq<Reply>)
    requires InTable(table, vs) && forall m | m in table :: m.mid in db'
  {
    if !Loud(item) then replies == []
    else
      && |replies| == |vs|
      && forall i | 0 <= i < |vs| :: replies[i] == Reply(vs[i] + 1, table[vs[i]].mid, db'[table[vs[i]].mid])
  }

  lemma OneMoreReply(table: seq<Message>, vs: seq<nat>, x: nat, item: string, cur: map<int, bv32>,
                     next: map<int, bv32>, replies: seq<Reply>, more: seq<Reply>)
    requires x < |table| && InTable(table, vs) && InTable(table, vs + [x]) && forall m | m in table :: m.mid in cur
    requires RepliedAt(table, vs, item, cur, replies)
    requires var mid := table[x].mid;
             && next == cur[mid := Applied(item, cur[mid])]
             && (Visited(table, vs, mid) ==> Applied(item, cur[mid]) == cur[mid])
             && more == if Loud(item) then [Reply(x + 1, mid, next[mid])] else []
    ensures RepliedAt(table, vs + [x], item, next, replies + more)
  {
    hide Applied, Loud;
    if Loud(item) {
      forall i | 0 <= i < |vs + [x]|
        ensures var v := (vs + [x])[i]; (replies + more)[i] == Reply(v + 1, table[v].mid, next[table[v].mid])
      {
        if i < |vs| && table[vs[i]].mid == table[x].mid {
          assert Visited(table, vs, table[x].mid);
        }
      }
    }
  }

  lemma StoredIs(table: seq<Message>, rs: seq<Range>, item: string, isUID: bool,
                 db: map<int, bv32>, db': map<int, bv32>)
    requires StoredAt(table, Visits(table, rs, isUID), item, db, db')
    ensures Stored(table, rs, item, isUID, db, db')
  {
    VisitsAll(table, rs, isUID);
    hide Visited, Touched, Applied;
  }

  lemma NoVisit(table: seq<Message>, item: string, db: map<int, bv32>)
    requires forall m | m in table :: m.mid in db
    ensures StoredAt(table, [], item, db, db) && RepliedAt(table, [], item, db, [])
  {
  }

  /** STORE. `prev` is what nBegin and nEnd hold before the first element. */
  method Store(table: seq<Message>, pieces: seq<seq<string>>, item: string, isUID: bool, prev: Range,
               db: map<int, bv32>)
    returns (db': map<int, bv32>, replies: seq<Reply>)
    requires forall m | m in table :: m.mid in db
    ensures Stored(table, Ranges(pieces, prev), item, isUID, db, db')
    ensures RepliedAt(table, Visits(table, Ranges(pieces, prev), isUID), item, db', replies)
  {
    hide Applied, Visited, Selects, NextRange, ModeOf, RepliedAt, StoredAt, Stored;
    ghost var rs := Ranges(pieces, prev);
    var range := prev;
    db', replies := db, [];
    ghost var vs: seq<nat> := [];
    NoVisit(table, item, db);
    for z := 0 to |pieces|
      invariant rs[z..] == Ranges(pieces[z..], range)
      invariant vs == Visits(table, rs[..z], isUID) && db'.Keys == db.Keys
      invariant StoredAt(table, vs, item, db, db') && RepliedAt(table, vs, item, db', replies)
    {
      range := NextRange(pieces[z], range);
      assert pieces[z..][1..] == pieces[z + 1..];
      assert rs[z..][0] == range && rs[z..][1..] == rs[z + 1..];
      ghost var before := vs;
      assert before + [] == before;
      for x := 0 to |table|
        invariant vs == before + VisitsIn(table, range, isUID, x)
        invariant InTable(table, vs) && db'.Keys == db.Keys
        invariant StoredAt(table, vs, item, db, db') && RepliedAt(table, vs, item, db', replies)
      {
        ghost var here := VisitsIn(table, range, isUID, x);
        Assoc(before, here, [x]);
        if Selects(range, table, x, isUID) {
          ghost var cur := db';
          OneMoreVisit(table, vs, x, item, db, db');
          var more;
          db', more := StoreOne(item, x, table[x].mid, db');
          OneMoreReply(table, vs, x, item, cur, db', replies, more);
          replies := replies + more;
          vs := vs + [x];
        } else {
          assert here + [] == here;
        }
      }
      assert rs[..z + 1][..z] == rs[..z] && rs[..z + 1][z] == range;
    }
    assert rs[..|pieces|] == rs;
    StoredIs(table, rs, item, isUID, db, db');
  }

  // ---- order ----

  /** Two lists with the same ranges, in any order and however often, have the same effect. */
  lemma OrderDoesNotMatter(table: seq<Message>, rs: seq<Range>, rs': seq<Range>, item: string, isUID: bool,
                           db: map<int, bv32>, a: map<int, bv32>, b: map<int, bv32>)
    requires forall r :: r in rs <==> r in rs'
    requires Stored(table, rs, item, isUID, db, a) && Stored(table, rs', item, isUID, db, b)
    ensures a == b
  {
    hide Applied, Selects;
    forall mid | mid in db
      ensures a[mid] == b[mid]
    {
      assert Touched(table, rs, isUID, mid) <==> Touched(table, rs', isUID, mid);
    }
  }

  /** One command with two lists is two commands, one after the other. */
  lemma InTwoCommands(table: seq<Message>, rs: seq<Range>, rs': seq<Range>, item: string, isUID: bool,
                      db: map<int, bv32>, a: map<int, bv32>, b: map<int, bv32>)
    requires Stored(table, rs, item, isUID, db, a) && Stored(table, rs', item, isUID, a, b)
    ensures Stored(table, rs + rs', item, isUID, db, b)
  {
    hide Applied, Selects;
    forall mid | mid in db
      ensures b[mid] == if Touched(table, rs + rs', isUID, mid) then Applied(item, db[mid]) else db[mid]
    {
      AppliedTwice(item, db[mid]);
      TouchedByEither(table, rs, rs', isUID, mid);
    }
  }

  predicate In(r: Range, n: nat) { r.begin <= n <= r.end }

  /** RFC 3501 lets `a:b` mean the numbers between the two whichever is greater. The code agrees if
      and only if a <= b. */
  lemma TwoNumbers(a: nat, b: nat, prev: Range)
    requires a < 0x8000_0000 && b < 0x8000_0000
    ensures var r := NextRange([Archive.PrintInt(a), Archive.PrintInt(b)], prev);
            (forall n: nat :: In(r, n) <==> In(Range(a, b), n) || In(Range(b, a), n)) <==> a <= b
  {
    Archive.PrintParse(a);
    Archive.PrintParse(b);
    var r := NextRange([Archive.PrintInt(a), Archive.PrintInt(b)], prev);
    assert Archive.PrintInt(b) != "*" by {
      Archive.ReadPrinted(b, "");
    }
    assert r == Range(a, b);
    if a > b {
      assert !In(r, a) && In(Range(b, a), a);
    }
  }

  /** A lone `*` selects no message. */
  lemma LoneStar(table: seq<Message>, isUID: bool, prev: Range, mid: int)
    requires forall m | m in table :: m.mid > 0
    ensures !Touched(table, Ranges([["*"]], prev), isUID, mid)
  {
    assert Archive.ReadDigits("*", 0) == 0;
    assert NextRange(["*"], prev) == Range(0, 0);
    assert Ranges([["*"]], prev) == [Range(0, 0)];
  }

  /** `last` is the greatest number in use, which `*` stands for in RFC 3501. */
  predicate IsLast(table: seq<Message>, isUID: bool, last: nat) {
    && (exists x | 0 <= x < |table| :: Handle(table, x, isUID) == last)
    && forall x | 0 <= x < |table| :: 0 < Handle(table, x, isUID) <= last
  }

  /** The messages between a and b, whichever is greater. */
  predicate Between(a: nat, b: nat, h: int) { a <= h <= b || b <= h <= a }

  /** `a:*` selects what it should if and only if a is not beyond the last number. */
  lemma UpToStar(table: seq<Message>, a: nat, last: nat, isUID: bool, prev: Range)
    requires a < 0x8000_0000 && last < 0x8000_0000 && IsLast(table, isUID, last)
    ensures var r := NextRange([Archive.PrintInt(a), "*"], prev);
            (forall x | 0 <= x < |table| ::
               Selects(r, table, x, isUID) <==> Between(a, last, Handle(table, x, isUID))) <==> a <= last
    ensures NextRange([Archive.PrintInt(a), "*"], prev).end == 2147483647
  {
    Archive.PrintParse(a);
    var r := NextRange([Archive.PrintInt(a), "*"], prev);
    assert r == Range(a, 0x7FFF_FFFF);
    var x :| 0 <= x < |table| && Handle(table, x, isUID) == last;
    assert Selects(r, table, x, isUID) <==> a <= last;
  }

  /** `*:b` starts at 0. It selects what it should if and only if every message has the last number
      and b is not below it. */
  lemma FromStar(table: seq<Message>, b: nat, last: nat, isUID: bool, prev: Range)
    requires b < 0x8000_0000 && IsLast(table, isUID, last)
    ensures var r := NextRange(["*", Archive.PrintInt(b)], prev);
            (forall x | 0 <= x < |table| ::
               Selects(r, table, x, isUID) <==> Between(last, b, Handle(table, x, isUID)))
            <==> last <= b && forall x | 0 <= x < |table| :: Handle(table, x, isUID) == last
  {
    Archive.PrintParse(b);
    assert Archive.PrintInt(b) != "*" by {
      Archive.ReadPrinted(b, "");
    }
    assert Archive.ReadDigits("*", 0) == 0;
    var r := NextRange(["*", Archive.PrintInt(b)], prev);
    assert r == Range(0, b);
    var x :| 0 <= x < |table| && Handle(table, x, isUID) == last;
    assert Selects(r, table, x, isUID) <==> last <= b;
    assert forall y | 0 <= y < |table| :: Selects(r, table, y, isUID) <==> Handle(table, y, isUID) <= b;
  }

  /** A single number selects the message with that mid, or the message at that place. */
  lemma OneNumber(table: seq<Message>, n: nat, isUID: bool, prev: Range, mid: int)
    requires n < 0x8000_0000
    ensures Touched(table, Ranges([[Archive.PrintInt(n)]], prev), isUID, mid) <==>
            if isUID then mid == n && exists m | m in table :: m.mid == n
            else 1 <= n <= |table| && table[n - 1].mid == mid
  {
    Archive.PrintParse(n);
    assert Ranges([[Archive.PrintInt(n)]], prev) == [Range(n, n)];
    var r := Range(n, n);
    assert r in [r];
    forall x | 0 <= x < |table|
      ensures Selects(r, table, x, isUID) <==> n == if isUID then table[x].mid else x + 1
    {
    }
    if isUID && exists m | m in table :: m.mid == n {
      var m :| m in table && m.mid == n;
      var x :| 0 <= x < |table| && table[x] == m;
      assert Selects(r, table, x, isUID);
    }
    if !isUID && 1 <= n <= |table| {
      assert Selects(r, table, n - 1, isUID);
    }
  }

  /** An element with two colons or more repeats the range before it. */
  lemma TooManyColons(table: seq<Message>, piece: seq<string>, bad: seq<string>, isUID: bool, prev: Range, mid: int)
    requires |bad| > 2
    ensures Touched(table, Ranges([piece, bad], prev), isUID, mid) <==>
            Touched(table, Ranges([piece], prev), isUID, mid)
  {
    hide Selects;
    var r := NextRange(piece, prev);
    assert [piece, bad][1..] == [bad] && [bad][1..] == [] && [piece][1..] == [];
    assert Ranges([bad], r) == [r] && Ranges([piece, bad], prev) == [r, r] && Ranges([piece], prev) == [r];
  }

  // ---- which word does what ----

  lemma {:induction false} ContainsAt(s: string, sub: string)
    ensures Contains(s, sub) <==> exists i :: At(s, i, sub)
    decreases |s|
  {
    assert sub <= s <==> At(s, 0, sub);
    if s != "" {
      ContainsAt(s[1..], sub);
      forall i | i > 0
        ensures At(s, i, sub) <==> At(s[1..], i - 1, sub)
      {
        if i + |sub| <= |s| {
          assert s[1..][i - 1..i - 1 + |sub|] == s[i..i + |sub|];
        }
      }
      if exists i :: At(s[1..], i, sub) {
        var i :| At(s[1..], i, sub);
        assert At(s, i + 1, sub);
      }
    }
  }

  lemma MaskAt(i: nat, item: string)
    requires i < |NAMES|
    ensures Mask(NAMES[i..], item) ==
            Or(Named(item, NAMES[i].0, NAMES[i].1), Mask(NAMES[i + 1..], item))
    ensures Mask(NAMES[|NAMES|..], item) == 0
  {
    assert NAMES[i..][1..] == NAMES[i + 1..];
    hide Named, Or;
  }

  lemma OrSix(a: bv32, b: bv32, c: bv32, d: bv32, e: bv32, f: bv32)
    ensures Or(a, Or(b, Or(c, Or(d, Or(e, Or(f, 0)))))) == a | b | c | d | e | f
  {
  }

  /** The bits of the six names (RFC 3501 section 2.3.2), as src/storage.h numbers them. */
  lemma FlagBits(item: string)
    ensures Mask(NAMES, item) ==
            Named(item, "\\Seen", 1) | Named(item, "\\Answered", 2) | Named(item, "\\Flagged", 4) |
            Named(item, "\\Deleted", 8) | Named(item, "\\Draft", 16) | Named(item, "\\Recent", 32)
  {
    hide Named, Mask, Or;
    assert NAMES[0..] == NAMES;
    MaskAt(0, item);
    MaskAt(1, item);
    MaskAt(2, item);
    MaskAt(3, item);
    MaskAt(4, item);
    MaskAt(5, item);
    OrSix(Named(item, "\\Seen", 1), Named(item, "\\Answered", 2), Named(item, "\\Flagged", 4),
          Named(item, "\\Deleted", 8), Named(item, "\\Draft", 16), Named(item, "\\Recent", 32));
  }

  /** No item has two of the words. */
  lemma OneForm(item: string)
    ensures StartsIgnoreCase(item, "FLAGS.SILENT ") ==> ModeOf(item) == Some((Replace, true))
    ensures StartsIgnoreCase(item, "FLAGS ") ==> ModeOf(item) == Some((Replace, false))
    ensures StartsIgnoreCase(item, "+FLAGS.SILENT ") ==> ModeOf(item) == Some((Add, true))
    ensures StartsIgnoreCase(item, "+FLAGS ") ==> ModeOf(item) == Some((Add, false))
    ensures StartsIgnoreCase(item, "-FLAGS ") ==> ModeOf(item) == Some((Remove, false))
    ensures StartsIgnoreCase(item, "-FLAGS.SILENT ") ==> ModeOf(item) == Some((Remove, true))
  {
    hide StartsIgnoreCase;
    if StartsIgnoreCase(item, "FLAGS ") {
      OneWord(item, "FLAGS ", "FLAGS.SILENT ", 5);
    }
    if StartsIgnoreCase(item, "+FLAGS.SILENT ") {
      OneWord(item, "+FLAGS.SILENT ", "FLAGS.SILENT ", 0);
      OneWord(item, "+FLAGS.SILENT ", "FLAGS ", 0);
    }
    if StartsIgnoreCase(item, "+FLAGS ") {
      OneWord(item, "+FLAGS ", "FLAGS.SILENT ", 0);
      OneWord(item, "+FLAGS ", "FLAGS ", 0);
      OneWord(item, "+FLAGS ", "+FLAGS.SILENT ", 6);
    }
    if StartsIgnoreCase(item, "-FLAGS ") {
      OneWord(item, "-FLAGS ", "FLAGS.SILENT ", 0);
      OneWord(item, "-FLAGS ", "FLAGS ", 0);
      OneWord(item, "-FLAGS ", "+FLAGS.SILENT ", 0);
      OneWord(item, "-FLAGS ", "+FLAGS ", 0);
    }
    if StartsIgnoreCase(item, "-FLAGS.SILENT ") {
      OneWord(item, "-FLAGS.SILENT ", "FLAGS.SILENT ", 0);
      OneWord(item, "-FLAGS.SILENT ", "FLAGS ", 0);
      OneWord(item, "-FLAGS.SILENT ", "+FLAGS.SILENT ", 0);
      OneWord(item, "-FLAGS.SILENT ", "+FLAGS ", 0);
      OneWord(item, "-FLAGS.SILENT ", "-FLAGS ", 6);
    }
  }

  lemma ApplyIs(mask: bv32, status: bv32)
    ensures Apply(Replace, mask, status) == mask
    ensures Apply(Add, mask, status) == status | mask
    ensures Apply(Remove, mask, status) == status & !mask
  {
  }

  lemma EffectOf(item: string, status: bv32, mode: Mode, silent: bool)
    requires ModeOf(item) == Some((mode, silent))
    ensures Applied(item, status) == Apply(mode, Mask(NAMES, item), status) && (Loud(item) <==> !silent)
  {
    hide ModeOf, Mask, Apply;
  }

  /** FLAGS sets the status to the named attributes. Each form is given by its own word. */
  lemma FlagsReplace(item: string, status: bv32)
    requires StartsIgnoreCase(item, "FLAGS ") || StartsIgnoreCase(item, "FLAGS.SILENT ")
    ensures Applied(item, status) == Mask(NAMES, item)
    ensures Loud(item) <==> StartsIgnoreCase(item, "FLAGS ")
  {
    hide ModeOf, Mask, StartsIgnoreCase, Apply, Applied, Loud;
    OneForm(item);
    EffectOf(item, status, Replace, StartsIgnoreCase(item, "FLAGS.SILENT "));
    ApplyIs(Mask(NAMES, item), status);
  }

  /** +FLAGS adds them. */
  lemma FlagsAdd(item: string, status: bv32)
    requires StartsIgnoreCase(item, "+FLAGS ") || StartsIgnoreCase(item, "+FLAGS.SILENT ")
    ensures Applied(item, status) == status | Mask(NAMES, item)
    ensures Loud(item) <==> StartsIgnoreCase(item, "+FLAGS ")
  {
    hide ModeOf, Mask, StartsIgnoreCase, Apply, Applied, Loud;
    OneForm(item);
    EffectOf(item, status, Add, StartsIgnoreCase(item, "+FLAGS.SILENT "));
    ApplyIs(Mask(NAMES, item), status);
  }

  /** -FLAGS takes them away. */
  lemma FlagsRemove(item: string, status: bv32)
    requires StartsIgnoreCase(item, "-FLAGS ") || StartsIgnoreCase(item, "-FLAGS.SILENT ")
    ensures Applied(item, status) == status & !Mask(NAMES, item)
    ensures Loud(item) <==> StartsIgnoreCase(item, "-FLAGS ")
  {
    hide ModeOf, Mask, StartsIgnoreCase, Apply, Applied, Loud;
    OneForm(item);
    EffectOf(item, status, Remove, StartsIgnoreCase(item, "-FLAGS.SILENT "));
    ApplyIs(Mask(NAMES, item), status);
  }

  lemma NoForm(item: string)
    ensures ModeOf(item).None? <==>
            && !StartsIgnoreCase(item, "FLAGS ") && !StartsIgnoreCase(item, "FLAGS.SILENT ")
            && !StartsIgnoreCase(item, "+FLAGS ") && !StartsIgnoreCase(item, "+FLAGS.SILENT ")
            && !StartsIgnoreCase(item, "-FLAGS ") && !StartsIgnoreCase(item, "-FLAGS.SILENT ")
  {
    hide StartsIgnoreCase;
  }
}
