/** From a byte stream to protocol lines: linesock / linessl::lrecv and xrecv (src/base.h), the
    loop of Session::Process (src/session.cpp) and of Session_Group::Poll (src/session_group.cpp). */
module Framing {
  import opened Text

  /** The stream up to the first delimiter or n bytes, whichever comes first. */
  function Piece(u: string, n: nat, delim: char): (p: string)
    ensures |p| <= n && |p| <= |u| && p == u[..|p|]
  {
    if n == 0 || u == "" then ""
    else if u[0] == delim then [u[0]]
    else
      var rest := Piece(u[1..], n - 1, delim);
      assert u == [u[0]] + u[1..];
      [u[0]] + rest
  }

  /** The piece does not have to wait for more bytes. */
  predicate IsWhole(p: string, n: nat, delim: char) {
    |p| == n || (p != "" && p[|p| - 1] == delim)
  }

  /** A piece is known from a stretch without delimiters that is long enough or ends in one. */
  lemma {:induction false} PieceIs(u: string, n: nat, delim: char, k: nat)
    requires k <= n && k <= |u| && delim !in u[..k]
    ensures k == n || k == |u| ==> Piece(u, n, delim) == u[..k]
    ensures k < n && k < |u| && u[k] == delim ==> Piece(u, n, delim) == u[..k + 1]
  {
    if k > 0 {
      assert u[..k] == [u[0]] + u[1..][..k - 1];
      PieceIs(u[1..], n - 1, delim, k - 1);
      if k < |u| { assert u[..k + 1] == [u[0]] + u[1..][..k]; }
    }
  }

  lemma Front(u: string, n: nat, dlen: nat)
    requires n <= dlen <= |u|
    ensures u[..n] == u[..dlen][..n]
  {
  }

  lemma WholeBySize(u: string, n: nat, delim: char)
    requires n <= |u|
    ensures IsWhole(u[..n], n, delim)
  {
  }

  lemma WholeAt(u: string, n: nat, delim: char, p: nat)
    requires p < |u| && u[p] == delim
    ensures IsWhole(if n > p then u[..p + 1] else u[..n], n, delim)
  {
  }

  lemma Further(u: string, n: nat, len: nat)
    requires n + len <= |u|
    ensures u[..n + len] == u[..n] + u[n..][..len] && u[n..][len..] == u[n + len..]
  {
  }

  class LineSock {
    const delim: char
    /** Which calls of recv fail or time out, counted from the first. */
    const faults: nat -> bool
    /** The socket: what the peer will still send, and the calls made so far. */
    var net: string
    var calls: nat
    var dbuf: array<char>
    var dlen: nat
    var closed: bool

    ghost predicate Valid()
      reads this
    {
      dlen <= dbuf.Length
    }

    /** Everything not yet handed out. */
    ghost function Unread(): string
      requires Valid()
      reads this, dbuf
    {
      dbuf[..dlen] + net
    }

    /** Some call of recv from the given one on has failed. */
    ghost predicate FailedSince(start: nat)
      reads this
    {
      exists k | start <= k < calls :: faults(k)
    }

    constructor (delim: char, net: string, faults: nat -> bool)
      ensures Valid() && fresh(dbuf) && Unread() == net && this.delim == delim && !closed
      ensures this.faults == faults && calls == 0
    {
      this.delim, this.net, this.faults := delim, net, faults;
      dbuf := new char[4096];
      dlen, closed, calls := 0, false, 0;
      new;
      assert dbuf[..0] == "";
    }

    /** memchr. */
    static method Find(a: array<char>, n: nat, c: char) returns (i: int)
      requires n <= a.Length
      ensures -1 <= i < n
      ensures i == -1 ==> c !in a[..n]
      ensures i >= 0 ==> a[i] == c && c !in a[..i]
    {
      i := 0;
      while i < n
        invariant 0 <= i <= n && c !in a[..i]
      {
        if a[i] == c {
          return;
        }
        i := i + 1;
      }
      i := -1;
    }

    /** memmove(a, a + k, n - k). */
    static method ShiftDown(a: array<char>, k: nat, n: nat)
      requires k <= n <= a.Length
      modifies a
      ensures a[..n - k] == old(a[k..n])
    {
      ghost var was := a[..];
      var i := 0;
      while i < n - k
        invariant 0 <= i <= n - k
        invariant forall j | 0 <= j < i :: a[j] == was[k + j]
        invariant forall j | i <= j < n :: a[j] == was[j]
      {
        a[i] := a[k + i];
        i := i + 1;
      }
      assert was[k..n] == a[..n - k];
    }

    /** Hands out the first k bytes of the carry-over: memcpy, then memmove of the rest. */
    method Take(pbuf: array<char>, k: nat)
      requires Valid() && k <= dlen && k <= pbuf.Length && pbuf != dbuf
      modifies this`dlen, dbuf, pbuf
      ensures Valid() && Unread() == old(Unread())[k..] && dlen == old(dlen) - k
      ensures pbuf[..k] == old(dbuf[..k])
    {
      ghost var was := dbuf[..dlen];
      var i := 0;
      while i < k
        invariant 0 <= i <= k
        invariant pbuf[..i] == was[..i] && dbuf[..dlen] == was
        modifies pbuf
      {
        pbuf[i] := dbuf[i];
        i := i + 1;
      }
      ShiftDown(dbuf, k, dlen);
      dlen := dlen - k;
      assert dbuf[..dlen] == was[k..];
      assert (was + net)[k..] == was[k..] + net;
    }

    /** select and recv, or SSL_read: some positive number of the bytes that arrive, at most max;
        nothing if the call fails or the peer has closed. Waiting and EAGAIN retries are not visible. */
    method Recv(pbuf: array<char>, off: nat, max: nat) returns (len: int)
      requires off + max <= pbuf.Length && max > 0
      modifies this`net, this`calls, pbuf
      ensures len <= max && pbuf[..off] == old(pbuf[..off]) && calls == old(calls) + 1
      ensures len <= 0 <==> faults(old(calls)) || old(net) == ""
      ensures len > 0 ==> len <= |old(net)| && net == old(net)[len..] && pbuf[off..off + len] == old(net)[..len]
      ensures len <= 0 ==> net == old(net)
    {
      calls := calls + 1;
      if faults(calls - 1) || net == "" {
        return -1;
      }
      len :| 0 < len <= max && len <= |net|;
      ghost var was := pbuf[..off];
      var i := 0;
      while i < len
        invariant 0 <= i <= len
        invariant pbuf[..off] == was && pbuf[off..off + i] == net[..i]
        modifies pbuf
      {
        pbuf[off + i] := net[i];
        i := i + 1;
      }
      net := net[len..];
    }

    /** lrecv (delim LF) and xrecv (delim '>'): the next piece of the unread stream, however the
        stream was segmented; or -1, after which the socket is closed. */
    method LRecv(pbuf: array<char>, blen: nat) returns (nRecv: int)
      requires Valid() && pbuf != dbuf && blen < pbuf.Length
      modifies this, dbuf, pbuf
      ensures Valid() && (dbuf == old(dbuf) || fresh(dbuf)) && calls >= old(calls)
      ensures -1 <= nRecv <= blen
      ensures nRecv >= 0 ==>
                && pbuf[..nRecv] == Piece(old(Unread()), blen, delim) && IsWhole(pbuf[..nRecv], blen, delim)
                && nRecv <= |old(Unread())| && Unread() == old(Unread())[nRecv..] && closed == old(closed)
      ensures nRecv == -1 ==>
                closed && (FailedSince(old(calls)) || !IsWhole(Piece(old(Unread()), blen, delim), blen, delim))
    {
      hide Piece, IsWhole;
      ghost var u := Unread();
      var p := Find(dbuf, dlen, delim);
      if p >= 0 {
        nRecv := FromCarry(pbuf, blen, p);
        return;
      }
      if blen < dlen {
        Front(u, blen, dlen);
        PieceIs(u, blen, delim, blen);
        WholeBySize(u, blen, delim);
        Take(pbuf, blen);
        return blen;
      }
      assert u[..dlen] == dbuf[..dlen];
      var have := dlen;
      Take(pbuf, dlen);
      nRecv := Fill(pbuf, blen, have, u);
    }

    /** A delimiter at p in the carry-over: the line, or as much of it as fits. */
    method FromCarry(pbuf: array<char>, blen: nat, p: nat) returns (nRecv: nat)
      requires Valid() && pbuf != dbuf && blen < pbuf.Length
      requires p < dlen && dbuf[p] == delim && delim !in dbuf[..p]
      modifies this`dlen, dbuf, pbuf
      ensures Valid() && nRecv <= blen
      ensures pbuf[..nRecv] == Piece(old(Unread()), blen, delim) && IsWhole(pbuf[..nRecv], blen, delim)
      ensures nRecv <= |old(Unread())| && Unread() == old(Unread())[nRecv..]
    {
      hide Piece, IsWhole;
      ghost var u := Unread();
      var left := p + 1;
      nRecv := if blen >= left then left else blen;
      assert u[..p] == dbuf[..p] && u[p] == delim;
      assert blen < left ==> u[..blen] == u[..p][..blen];
      PieceIs(u, blen, delim, if blen >= left then p else blen);
      ghost var front := dbuf[..nRecv];
      Front(u, nRecv, dlen);
      assert front == u[..nRecv];
      WholeAt(u, blen, delim, p);
      Take(pbuf, nRecv);
      if blen >= left {
        pbuf[left] := '\0';
      }
      assert pbuf[..nRecv] == front;
    }

    /** The receive loop: pbuf holds the first `have` bytes of u, none of them a delimiter. */
    method Fill(pbuf: array<char>, blen: nat, have: nat, ghost u: string) returns (nRecv: int)
      requires Valid() && dlen == 0 && pbuf != dbuf && have <= blen < pbuf.Length
      requires have <= |u| && pbuf[..have] == u[..have] && delim !in u[..have] && net == u[have..]
      modifies this, dbuf, pbuf
      ensures Valid() && (dbuf == old(dbuf) || fresh(dbuf)) && calls >= old(calls)
      ensures -1 <= nRecv <= blen
      ensures nRecv >= 0 ==>
                && pbuf[..nRecv] == Piece(u, blen, delim) && IsWhole(pbuf[..nRecv], blen, delim)
                && nRecv <= |u| && Unread() == u[nRecv..] && closed == old(closed)
      ensures nRecv == -1 ==> closed && (FailedSince(old(calls)) || !IsWhole(Piece(u, blen, delim), blen, delim))
    {
      nRecv := have;
      while nRecv < blen
        invariant have <= nRecv <= blen && nRecv <= |u| && Valid() && dlen == 0 && dbuf == old(dbuf)
        invariant calls >= old(calls) && closed == old(closed)
        invariant pbuf[..nRecv] == u[..nRecv] && delim !in u[..nRecv] && net == u[nRecv..]
      {
        var len := Recv(pbuf, nRecv, blen - nRecv);
        if len <= 0 {
          NothingMore(u, nRecv, blen);
          closed := true;
          return -1;
        }
        Further(u, nRecv, len);
        assert pbuf[..nRecv + len] == pbuf[..nRecv] + pbuf[nRecv..nRecv + len];
        nRecv := nRecv + len;
        var p := Find(pbuf, nRecv, delim);
        if p >= 0 {
          assert u[..p] == pbuf[..p] && u[p] == delim;
          PieceIs(u, blen, delim, p);
          nRecv := CarryOver(pbuf, p, nRecv, u);
          return;
        }
      }
      PieceIs(u, blen, delim, blen);
      assert dbuf[..0] == "";
    }

    /** A delimiter at p: what came behind it is carried over to the next call. */
    method CarryOver(pbuf: array<char>, p: nat, have: nat, ghost u: string) returns (nRecv: nat)
      requires Valid() && dlen == 0 && pbuf != dbuf && p < have < pbuf.Length
      requires have <= |u| && pbuf[..have] == u[..have] && net == u[have..]
      modifies this, dbuf, pbuf
      ensures Valid() && (dbuf == old(dbuf) || fresh(dbuf)) && closed == old(closed) && calls == old(calls)
      ensures nRecv == p + 1 && pbuf[..nRecv] == u[..nRecv] && Unread() == u[nRecv..]
    {
      var left := p + 1;
      var right := have - left;
      if right > dbuf.Length {
        dbuf := new char[right];
      }
      Copy(dbuf, 0, pbuf[left..have]);
      assert dbuf[..right] == dbuf[0..right] == pbuf[..have][left..];
      dlen := right;
      nRecv := left;
      assert pbuf[..nRecv] == pbuf[..have][..nRecv];
      ghost var line := pbuf[..nRecv];
      pbuf[nRecv] := '\0';
      assert pbuf[..nRecv] == line;
      assert dbuf[..dlen] == u[..have][left..] && u[left..] == u[..have][left..] + u[have..];
    }

    /** A stream that ends before a delimiter and before n bytes holds no whole piece. */
    lemma NothingMore(u: string, k: nat, n: nat)
      requires k < n && k <= |u| && delim !in u[..k]
      ensures k == |u| ==> !IsWhole(Piece(u, n, delim), n, delim)
    {
      PieceIs(u, n, delim, k);
      if k == |u| && u != "" {
        assert u[..k] == u && u[k - 1] in u[..k];
      }
    }
  }

  // ---- lines ----

  function IndexOf(s: string, c: char): (i: nat)
    ensures i <= |s| && (i < |s| ==> s[i] == c) && c !in s[..i]
  {
    if s == "" || s[0] == c then 0
    else
      var i := IndexOf(s[1..], c);
      assert s[..i + 1] == [s[0]] + s[1..][..i];
      i + 1
  }

  /** A text split behind each ending character ... */
  function Lines(s: string, c: char): seq<string>
    decreases |s|
  {
    var i := IndexOf(s, c);
    if i == |s| then [] else [s[..i + 1]] + Lines(s[i + 1..], c)
  }

  /** ... and what follows the last one. */
  function Tail(s: string, c: char): string
    decreases |s|
  {
    var i := IndexOf(s, c);
    if i == |s| then s else Tail(s[i + 1..], c)
  }

  lemma IndexIs(s: string, c: char, i: nat)
    requires i < |s| && s[i] == c && c !in s[..i]
    ensures IndexOf(s, c) == i
  {
    hide IndexOf;
  }

  lemma NoLine(s: string, c: char)
    requires c !in s
    ensures IndexOf(s, c) == |s| && Lines(s, c) == [] && Tail(s, c) == s
  {
  }

  lemma FirstOut(s: string, c: char, i: nat)
    requires i < |s| && i == IndexOf(s, c)
    ensures Lines(s, c) == [s[..i + 1]] + Lines(s[i + 1..], c) && Tail(s, c) == Tail(s[i + 1..], c)
  {
    hide IndexOf;
  }

  lemma {:induction false} LinesAppend(x: string, y: string, c: char)
    ensures Lines(x + y, c) == Lines(x, c) + Lines(Tail(x, c) + y, c)
    ensures Tail(x + y, c) == Tail(Tail(x, c) + y, c)
    ensures c !in Tail(x, c)
    decreases |x|
  {
    hide IndexOf, Lines, Tail;
    var i := IndexOf(x, c);
    if i < |x| {
      var line, rest := x[..i + 1], x[i + 1..];
      assert (x + y)[..i] == x[..i];
      IndexIs(x + y, c, i);
      assert (x + y)[..i + 1] == line && (x + y)[i + 1..] == rest + y;
      FirstOut(x, c, i);
      FirstOut(x + y, c, i);
      LinesAppend(rest, y, c);
      Assoc([line], Lines(rest, c), Lines(Tail(x, c) + y, c));
    } else {
      assert x[..i] == x;
      NoLine(x, c);
      assert [] + Lines(x + y, c) == Lines(x + y, c);
    }
  }

  lemma {:induction false} LinesTile(s: string, c: char)
    ensures Concat(Lines(s, c)) + Tail(s, c) == s
    decreases |s|
  {
    hide IndexOf, Lines, Tail;
    var i := IndexOf(s, c);
    if i < |s| {
      var p, rest := s[..i + 1], s[i + 1..];
      FirstOut(s, c, i);
      LinesTile(rest, c);
      ConcatCons(p, Lines(rest, c));
      Assoc(p, Concat(Lines(rest, c)), Tail(rest, c));
    } else {
      assert s[..i] == s;
      NoLine(s, c);
      assert "" + s == s;
    }
  }

  predicate IsLine(l: string, c: char) { l != "" && l[|l| - 1] == c && c !in l[..|l| - 1] }

  /** Each line ends with the ending character and has no other. */
  lemma {:induction false} LinesEnd(s: string, c: char)
    ensures (forall l | l in Lines(s, c) :: IsLine(l, c)) && c !in Tail(s, c)
    decreases |s|
  {
    hide IndexOf, Lines, Tail;
    var i := IndexOf(s, c);
    if i < |s| {
      FirstOut(s, c, i);
      LinesEnd(s[i + 1..], c);
      assert s[..i + 1][..i] == s[..i];
    } else {
      assert s[..i] == s;
      NoLine(s, c);
    }
  }

  /** Parse accepted every line but the last; the last one too if and only if `ok`. */
  predicate Answered(lines: seq<string>, ok: bool, accepts: nat -> bool, start: nat) {
    && (forall k | start <= k < start + |lines| - 1 :: accepts(k))
    && (if lines == [] then ok else ok == accepts(start + |lines| - 1))
  }

  /** The do-while loop of Process and of Poll: every complete line goes to Parse, until Parse
      refuses one; the rest stays in the buffer. `accepts` is what Parse answers to the line of
      each number, the first of these lines having number `start`. */
  method DrainLines(buf: string, ending: char, accepts: nat -> bool, start: nat)
    returns (rest: string, lines: seq<string>, ok: bool)
    ensures lines + Lines(rest, ending) == Lines(buf, ending) && Tail(rest, ending) == Tail(buf, ending)
    ensures |rest| <= |buf|
    ensures ok ==> lines == Lines(buf, ending) && rest == Tail(buf, ending)
    ensures Answered(lines, ok, accepts, start)
  {
    hide IndexOf;
    rest, lines, ok := buf, [], true;
    while true
      invariant lines + Lines(rest, ending) == Lines(buf, ending) && Tail(rest, ending) == Tail(buf, ending)
      invariant ok && |rest| <= |buf| && Answered(lines, ok, accepts, start)
      decreases |rest|
    {
      var newLine := IndexOf(rest, ending);
      if newLine == |rest| {
        assert rest[..newLine] == rest;
        NoLine(rest, ending);
        break;
      }
      var left := rest[..newLine + 1];
      ghost var before := lines;
      lines := lines + [left];
      assert before + ([left] + Lines(rest[newLine + 1..], ending)) == lines + Lines(rest[newLine + 1..], ending);
      rest := rest[newLine + 1..];
      ok := accepts(start + |lines| - 1);
      if !ok {
        break;
      }
    }
  }

  // ---- Session::Process over a blocking socket ----

  /** The whole pieces a stream falls into. */
  function Pieces(u: string, n: nat, delim: char): seq<string>
    decreases |u|
  {
    var p := Piece(u, n, delim);
    if p == "" || !IsWhole(p, n, delim) then [] else [p] + Pieces(u[|p|..], n, delim)
  }

  lemma NoPiece(u: string, n: nat, delim: char)
    requires n > 0
    ensures !IsWhole(Piece(u, n, delim), n, delim) ==> Pieces(u, n, delim) == []
    ensures IsWhole(Piece(u, n, delim), n, delim) ==> Piece(u, n, delim) != ""
  {
  }

  lemma WholePiece(u: string, n: nat, delim: char)
    requires n > 0
    ensures var p := Piece(u, n, delim);
            IsWhole(p, n, delim) ==> p != "" && Pieces(u, n, delim) == [p] + Pieces(u[|p|..], n, delim)
  {
  }

  lemma AnsweredMore(lines: seq<string>, more: seq<string>, ok: bool, accepts: nat -> bool)
    requires Answered(lines, true, accepts, 0) && Answered(more, ok, accepts, |lines|)
    ensures Answered(lines + more, ok, accepts, 0)
  {
  }

  lemma AnsweredNone(accepts: nat -> bool)
    ensures Answered([], true, accepts, 0)
  {
  }

  const MESSAGE := 4096 + 1024

  /** The lines handed to Parse are the lines of the stream's pieces, whatever the recv sizes
      were: all lines of the first `count` pieces, or fewer when Parse refused one. */
  method Process(sock: LineSock, ending: char, accepts: nat -> bool)
    returns (lines: seq<string>, refused: bool, ghost count: nat)
    requires sock.Valid()
    modifies sock, sock.dbuf
    ensures var pieces := Pieces(old(sock.Unread()), 5120, sock.delim);
            && count <= |pieces|
            && lines <= Lines(CStrings(pieces[..count]), ending)
            && (!refused ==> lines == Lines(CStrings(pieces[..count]), ending))
            && (!refused ==> count == |pieces| || sock.FailedSince(old(sock.calls)))
    ensures Answered(lines, !refused, accepts, 0)
  {
    hide Lines, Tail, CString, Piece, IndexOf, IsWhole, Pieces, Answered;
    var szmsg := new char[MESSAGE + 1];
    var strLine := "";
    ghost var u := sock.Unread();
    ghost var pieces := Pieces(u, MESSAGE, sock.delim);
    lines, refused, count := [], false, 0;
    NoLine("", ending);
    AnsweredNone(accepts);
    while true
      invariant sock.Valid() && szmsg.Length == MESSAGE + 1 && szmsg != sock.dbuf
      invariant sock.dbuf == old(sock.dbuf) || fresh(sock.dbuf)
      invariant !refused && count <= |pieces| && |sock.Unread()| <= |u|
      invariant Answered(lines, true, accepts, 0) && sock.calls >= old(sock.calls)
      invariant Pieces(sock.Unread(), MESSAGE, sock.delim) == pieces[count..]
      invariant lines == Lines(CStrings(pieces[..count]), ending)
      invariant strLine == Tail(CStrings(pieces[..count]), ending)
      decreases |sock.Unread()|
    {
      ghost var before := sock.Unread();
      var result := sock.LRecv(szmsg, MESSAGE);
      if result <= 0 {
        NoPiece(before, MESSAGE, sock.delim);
        break;
      }
      WholePiece(before, MESSAGE, sock.delim);
      ghost var piece := szmsg[..result];
      szmsg[result] := '\0';
      assert szmsg[..result] == piece && szmsg[..][..result] == piece;
      assert pieces[count..][0] == piece && pieces[count..][1..] == pieces[count + 1..];
      assert pieces[..count + 1] == pieces[..count] + [piece];
      CStringsSnoc(pieces[..count], piece);
      NulEnds(szmsg[..], piece);
      LinesAppend(CStrings(pieces[..count]), CString(piece), ending);
      strLine := strLine + CString(szmsg[..]);
      count := count + 1;
      var rest, more, ok := DrainLines(strLine, ending, accepts, |lines|);
      AnsweredMore(lines, more, ok, accepts);
      lines := lines + more;
      strLine := rest;
      if !ok {
        refused := true;
        break;
      }
    }
  }

  // ---- and without NULs the lines are those of the stream ----

  lemma {:induction false} CStringHasNoNul(s: string)
    ensures '\0' !in CString(s)
  {
    if s != "" && s[0] != '\0' {
      CStringHasNoNul(s[1..]);
    }
  }

  lemma {:induction false} CStringsHaveNoNul(pieces: seq<string>)
    ensures '\0' !in CStrings(pieces)
  {
    if pieces != [] {
      CStringHasNoNul(pieces[0]);
      CStringsHaveNoNul(pieces[1..]);
    }
  }

  lemma LineChars(s: string, c: char, x: char)
    requires x !in s
    ensures x !in Concat(Lines(s, c))
  {
    LinesTile(s, c);
    var t := Concat(Lines(s, c));
    assert s == t + Tail(s, c);
    assert t == s[..|t|];
  }

  /** The first delimiter of a stream ends the piece it is in. */
  lemma {:induction false} PieceStopsAt(u: string, n: nat, delim: char)
    requires IndexOf(u, delim) < |u| && n > 0
    ensures var p, i := Piece(u, n, delim), IndexOf(u, delim);
            && p != "" && |p| <= i + 1 && IsWhole(p, n, delim)
            && (|p| <= i ==> delim !in p)
  {
    hide IndexOf, Piece;
    var i := IndexOf(u, delim);
    PieceIs(u, n, delim, if n <= i then n else i);
    if n <= i {
      assert u[..n] == u[..i][..n];
    }
  }

  lemma FirstPiece(u: string, n: nat, delim: char)
    requires var p := Piece(u, n, delim); p != "" && IsWhole(p, n, delim)
    ensures var p := Piece(u, n, delim);
            CStrings(Pieces(u, n, delim)) == CString(p) + CStrings(Pieces(u[|p|..], n, delim))
  {
    hide CString, Piece;
    var p := Piece(u, n, delim);
    var later := Pieces(u[|p|..], n, delim);
    assert ([p] + later)[1..] == later;
  }

  lemma {:induction false} CStringChars(s: string, x: char)
    requires x !in s
    ensures x !in CString(s)
  {
    if s != "" {
      CStringChars(s[1..], x);
    }
  }

  lemma {:induction false} CharsOfPieces(u: string, n: nat, delim: char, x: char)
    requires x !in u
    ensures x !in CStrings(Pieces(u, n, delim))
    decreases |u|
  {
    hide Piece;
    var p := Piece(u, n, delim);
    if p != "" && IsWhole(p, n, delim) {
      CStringChars(p, x);
      CharsOfPieces(u[|p|..], n, delim, x);
    }
  }

  lemma NoDelimiter(t: string, u: string, n: nat, delim: char)
    requires delim !in t && delim !in u
    ensures Lines(t + CStrings(Pieces(u, n, delim)), delim) == [] == Lines(t + u, delim)
  {
    CharsOfPieces(u, n, delim, delim);
    NoLine(t + CStrings(Pieces(u, n, delim)), delim);
    NoLine(t + u, delim);
  }

  lemma FirstLine(t: string, u: string, delim: char, i: nat)
    requires delim !in t && i == IndexOf(u, delim) < |u|
    requires '\0' !in Concat(Lines(t + u, delim))
    ensures '\0' !in u[..i + 1]
  {
    hide IndexOf;
    var s, k := t + u, |t| + i;
    assert s[..k] == t + u[..i];
    IndexIs(s, delim, k);
    var line := s[..k + 1];
    assert line == t + u[..i + 1];
    ConcatCons(line, Lines(s[k + 1..], delim));
  }

  lemma EndOfLine(t: string, p: string, r: string, delim: char, i: nat)
    requires delim !in t && |p| == i + 1 && p[i] == delim && delim !in p[..i]
    ensures Lines((t + p) + r, delim) == [t + p] + Lines(r, delim)
  {
    hide IndexOf;
    var s, k := (t + p) + r, |t| + i;
    assert s[..k] == t + p[..i];
    IndexIs(s, delim, k);
    assert s[..k + 1] == t + p && s[k + 1..] == r;
  }

  /** With `t` waiting in the line buffer (and no delimiter in it): the lines Process makes of
      the pieces of u are the lines of t + u, if those hold no NUL. */
  lemma {:induction false} LinesOfPieces(t: string, u: string, n: nat, delim: char)
    requires n > 0 && delim !in t && '\0' !in t
    requires '\0' !in Concat(Lines(t + u, delim))
    ensures Lines(t + CStrings(Pieces(u, n, delim)), delim) == Lines(t + u, delim)
    decreases |u|
  {
    hide IndexOf, Piece, IsWhole, Lines, Concat, CString;
    var i := IndexOf(u, delim);
    var p := Piece(u, n, delim);
    if i == |u| {
      assert u[..i] == u;
      NoDelimiter(t, u, n, delim);
    } else {
      PieceStopsAt(u, n, delim);
      var rest := u[|p|..];
      var r := CStrings(Pieces(rest, n, delim));
      Assoc(t, p, rest);
      Assoc(t, p, r);
      assert u == p + rest;
      FirstLine(t, u, delim, i);
      assert u[..i + 1][..|p|] == p;
      assert '\0' !in p by { assert forall x | x in p :: x in u[..i + 1]; }
      FirstPiece(u, n, delim);
      CStringWhole(p);
      if |p| == i + 1 {
        EndOfLine(t, p, r, delim, i);
        EndOfLine(t, p, rest, delim, i);
        ConcatCons(t + p, Lines(rest, delim));
        assert "" + rest == rest && "" + r == r;
        LinesOfPieces("", rest, n, delim);
      } else {
        LinesOfPieces(t + p, rest, n, delim);
      }
    }
  }

  /** Line delivery is exact if and only if no line of the stream holds a NUL. */
  lemma DeliveredLines(u: string, delim: char)
    ensures Lines(CStrings(Pieces(u, 5120, delim)), delim) == Lines(u, delim)
            <==> '\0' !in Concat(Lines(u, delim))
  {
    var r := CStrings(Pieces(u, MESSAGE, delim));
    CStringsHaveNoNul(Pieces(u, MESSAGE, delim));
    LineChars(r, delim, '\0');
    if '\0' !in Concat(Lines(u, delim)) {
      assert "" + u == u && "" + r == r;
      LinesOfPieces("", u, MESSAGE, delim);
    }
  }

  // ---- Session_Group::Poll over a non-blocking socket ----

  class SessionInfo {
    const ending: char
    var recvBuf: string
    /** Everything received (as C strings), and every line handed to Parse. */
    ghost var received: string
    ghost var parsed: seq<string>

    /** The lines of all that was received are those parsed and those still in the buffer. */
    ghost predicate Valid()
      reads this
    {
      && Lines(received, ending) == parsed + Lines(recvBuf, ending)
      && Tail(received, ending) == Tail(recvBuf, ending)
    }

    constructor (ending: char)
      ensures Valid() && this.ending == ending && received == "" && parsed == []
    {
      this.ending := ending;
      recvBuf, received, parsed := "", "", [];
    }

    /** One readable event with a chunk of any size. */
    method Poll(chunk: string, accepts: nat -> bool) returns (ok: bool)
      requires Valid()
      modifies this
      ensures Valid() && received == old(received) + CString(chunk)
      ensures old(parsed) <= parsed
      ensures ok ==> parsed == Lines(received, ending) && recvBuf == Tail(received, ending)
      ensures Answered(parsed[|old(parsed)|..], ok, accepts, 0)
    {
      hide Lines, Tail, CString;
      ghost var c := CString(chunk);
      LinesAppend(received, c, ending);
      LinesAppend(recvBuf, c, ending);
      recvBuf := recvBuf + CString(chunk);
      received := received + c;
      assert Lines(received, ending) == parsed + Lines(recvBuf, ending);
      var rest, lines: seq<string>;
      rest, lines, ok := DrainLines(recvBuf, ending, accepts, 0);
      assert parsed + (lines + Lines(rest, ending)) == (parsed + lines) + Lines(rest, ending);
      recvBuf := rest;
      assert (parsed + lines)[|parsed|..] == lines;
      parsed := parsed + lines;
      if ok {
        LinesAppend(received, "", ending);  // a tail holds no ending character
        NoLine(rest, ending);
      }
    }
  }
}
