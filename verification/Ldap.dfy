/** The framing of LDAP messages (src/simple_ldap.cpp). */
module LdapFraming {
  import opened Text
  import opened Ber

  /** CLdap::Parse up to the call of the decoder: bytes are kept until one message is complete. */
  datatype Verdict = Refused | Incomplete | Complete

  /** The length as this code reads it: a lone first byte counts as it is, even 0x80. */
  function LengthHeld(held: seq<Byte>): nat
    requires 2 <= |held| && LengthBytes(held[1]) + 1 <= |held|
  {
    if LengthBytes(held[1]) == 1 then held[1] else LengthAt(held, 1)
  }

  /** The test on what is held so far; its sums are taken modulo 2^32. */
  function Judge(held: seq<Byte>): Verdict {
    if |held| < 2 then Incomplete
    else if held[0] / 64 != 0 || held[0] % 32 != 16 then Refused
    else if |held| < LengthBytes(held[1]) + 1 then Incomplete
    else if |held| >= Wrap32(LengthHeld(held) + LengthBytes(held[1]) + 1) then Complete
    else Incomplete
  }

  class Ldap {
    var buf: array?<Byte>
    var dataLen: nat

    ghost predicate Valid()
      reads this
    {
      if buf == null then dataLen == 0 else dataLen <= buf.Length
    }

    ghost function Held(): seq<Byte>
      requires Valid()
      reads this, buf
    {
      if buf == null then [] else buf[..dataLen]
    }

    constructor ()
      ensures Valid() && Held() == [] && buf == null
    {
      buf, dataLen := null, 0;
    }

    /** The bytes are appended, the buffer growing as needed. */
    method Append(text: seq<Byte>)
      requires Valid() && text != []
      modifies this, buf
      ensures Valid() && buf != null && (buf == old(buf) || fresh(buf)) && Held() == old(Held()) + text
    {
      ghost var was := Held();
      if buf == null {
        buf := new Byte[if |text| < 1024 then 1024 else |text|];
        Copy(buf, 0, text);
        assert buf[..0 + |text|] == buf[..0] + text;
      } else if buf.Length - dataLen < |text| {
        var newBuf := new Byte[dataLen + |text|];
        Copy(newBuf, 0, buf[..dataLen]);
        assert newBuf[..0 + dataLen] == newBuf[..0] + was;
        Copy(newBuf, dataLen, text);
        buf := newBuf;
      } else {
        Copy(buf, dataLen, text);
      }
      dataLen := dataLen + |text|;
    }

    /** One call of Parse. A complete message is released and the buffer is freed; `keep` is
        false when the session is to end. The decoder's own verdict is not part of this model. */
    method Parse(text: seq<Byte>) returns (keep: bool, message: Option<seq<Byte>>)
      requires Valid() && text != []
      modifies this, buf
      ensures Valid() && (buf == null || buf == old(buf) || fresh(buf))
      ensures var held := old(Held()) + text;
              match Judge(held)
              case Refused => !keep && message.None?
              case Incomplete => keep && message.None? && Held() == held
              case Complete => keep && message == Some(held) && Held() == []
    {
      Append(text);
      ghost var held := Held();
      if dataLen >= 2 {
        if buf[0] / 64 != 0 || buf[0] % 32 != 16 {
          return false, None;
        }
        var lenBufLen := 1;
        if buf[1] >= 128 {
          lenBufLen := buf[1] - 128 + 1;
        }
        assert held[0] == buf[0] && held[1] == buf[1] && lenBufLen == LengthBytes(held[1]);
        if dataLen < lenBufLen + 1 {
          return true, None;
        }
        var asnLen := ReadLength(lenBufLen);
        if dataLen >= Wrap32(asnLen + lenBufLen + 1) {
          message := Some(buf[..dataLen]);
          buf, dataLen := null, 0;
          return true, message;
        }
      }
      return true, None;
    }

    method ReadLength(lenBufLen: nat) returns (asnLen: nat)
      requires Valid() && buf != null && dataLen >= 2 && lenBufLen == LengthBytes(buf[1]) && dataLen >= lenBufLen + 1
      ensures asnLen == LengthHeld(Held())
    {
      if lenBufLen == 1 {
        asnLen := buf[1];
      } else {
        ghost var digits := Held()[2..1 + lenBufLen];
        asnLen := 0;
        var x := 0;
        while x < lenBufLen - 1
          invariant 0 <= x <= lenBufLen - 1 && asnLen == Horner(0, digits[..x])
        {
          assert digits[..x + 1] == digits[..x] + [digits[x]];
          HornerAppend(0, digits[..x], digits[x]);
          asnLen := Wrap32(256 * asnLen + buf[x + 2]);
          x := x + 1;
        }
        assert digits[..x] == digits;
      }
    }
  }

  // ---- a stream of messages ----

  /** A session that is fed one byte at a time (ProtRecv reads one): what it holds, and the
      messages released so far. */
  datatype Session = Session(open: bool, held: seq<Byte>, messages: seq<seq<Byte>>)

  function FeedByte(s: Session, b: Byte): Session {
    if !s.open then s
    else
      var held := s.held + [b];
      match Judge(held)
      case Refused => s.(open := false)
      case Incomplete => s.(held := held)
      case Complete => Session(true, [], s.messages + [held])
  }

  function Feed(s: Session, bytes: seq<Byte>): Session
    decreases |bytes|
  {
    if bytes == [] then s else Feed(FeedByte(s, bytes[0]), bytes[1..])
  }

  lemma {:induction false} FeedShut(s: Session, bytes: seq<Byte>)
    requires !s.open || bytes == []
    ensures Feed(s, bytes) == s
    decreases |bytes|
  {
    if bytes != [] {
      FeedShut(s, bytes[1..]);
    }
  }

  /** The session as it runs. */
  method Receive(bytes: seq<Byte>) returns (open: bool, messages: seq<seq<Byte>>)
    ensures open == Feed(Session(true, [], []), bytes).open
    ensures messages == Feed(Session(true, [], []), bytes).messages
  {
    var ldap := new Ldap();
    open, messages := true, [];
    ghost var s := Session(true, [], []);
    var x := 0;
    while x < |bytes| && open
      invariant 0 <= x <= |bytes| && ldap.Valid() && fresh(ldap) && (ldap.buf != null ==> fresh(ldap.buf))
      invariant s.open == open && s.messages == messages && (open ==> s.held == ldap.Held())
      invariant Feed(s, bytes[x..]) == Feed(Session(true, [], []), bytes)
    {
      assert bytes[x..][1..] == bytes[x + 1..];
      s := FeedByte(s, bytes[x]);
      var message;
      open, message := ldap.Parse([bytes[x]]);
      if message.Some? {
        messages := messages + [message.value];
      }
      x := x + 1;
    }
    FeedShut(s, bytes[x..]);
  }

  lemma {:induction false} FeedAppend(s: Session, a: seq<Byte>, b: seq<Byte>)
    ensures Feed(s, a + b) == Feed(Feed(s, a), b)
    decreases |a|
  {
    if a == [] {
      assert a + b == b;
    } else {
      assert (a + b)[1..] == a[1..] + b;
      FeedAppend(FeedByte(s, a[0]), a[1..], b);
    }
  }

  /** The outermost value of an LDAP message: SEQUENCE, universal class. */
  predicate IsSequence(t: Tlv) { t.tag / 64 == 0 && t.tag % 32 == 16 }

  /** A well-formed length never starts with 0x80. */
  lemma ShortForm(t: Tlv)
    requires WellFormed(t) && LengthBytes(Encode(t)[1]) == 1
    ensures Encode(t)[1] < 128
  {
  }

  /** A beginning of a message is judged by its first byte once there are two, and is complete
      only when it is the whole message. */
  lemma Beginnings(t: Tlv, k: nat)
    requires WellFormed(t) && k <= |Encode(t)| < TWO_32
    ensures Judge(Encode(t)[..k]) ==
            if k < 2 then Incomplete else if !IsSequence(t) then Refused
            else if k < |Encode(t)| then Incomplete else Complete
  {
    hide Encode, WellFormed, Contents, EncodeLen;
    var e := Encode(t);
    assert e[..|e|] == e;
    HeadOf(e, 0, t);
    var held := e[..k];
    if 2 <= k {
      var n := LengthBytes(e[1]);
      if n + 1 <= k {
        assert held[2..1 + n] == e[2..1 + n];
        if n == 1 {
          assert e[2..2] == [];
          ShortForm(t);
        }
      }
    }
  }

  lemma TwoBytes(t: Tlv)
    ensures |Encode(t)| >= 2
  {
  }

  /** One message, from its k-th byte on. */
  lemma {:induction false} FeedOne(t: Tlv, k: nat, messages: seq<seq<Byte>>)
    requires WellFormed(t) && k < |Encode(t)| < TWO_32 && (k < 2 || IsSequence(t))
    ensures var s := Feed(Session(true, Encode(t)[..k], messages), Encode(t)[k..]);
            if IsSequence(t) then s == Session(true, [], messages + [Encode(t)])
            else !s.open && s.messages == messages
    decreases |Encode(t)| - k
  {
    hide Encode, WellFormed, Judge;
    var e := Encode(t);
    var s := Session(true, e[..k], messages);
    assert e[..k] + [e[k]] == e[..k + 1] && e[k..][1..] == e[k + 1..];
    Beginnings(t, k + 1);
    if k + 1 < |e| && (k + 1 < 2 || IsSequence(t)) {
      FeedOne(t, k + 1, messages);
    } else {
      assert e[..|e|] == e;
      TwoBytes(t);
      FeedShut(FeedByte(s, e[k]), e[k + 1..]);
    }
  }

  function Each(ts: seq<Tlv>): seq<seq<Byte>> {
    if ts == [] then [] else [Encode(ts[0])] + Each(ts[1..])
  }

  /** Messages sent back to back are released one by one, in order, each as soon as its last byte
      is there, and nothing is left over, if and only if each of them is a SEQUENCE. */
  lemma {:induction false} StreamOfMessages(ts: seq<Tlv>, messages: seq<seq<Byte>>)
    requires forall t | t in ts :: WellFormed(t) && |Encode(t)| < TWO_32
    ensures var s := Feed(Session(true, [], messages), EncodeAll(ts));
            s == Session(true, [], messages + Each(ts)) <==> forall t | t in ts :: IsSequence(t)
    ensures !Feed(Session(true, [], messages), EncodeAll(ts)).open ==> exists t | t in ts :: !IsSequence(t)
    decreases |ts|
  {
    hide Encode, WellFormed, Judge, IsSequence;
    if ts != [] {
      var t, rest := ts[0], ts[1..];
      assert ts == [t] + rest;
      var e, start := Encode(t), Session(true, [], messages);
      TwoBytes(t);
      assert e[..0] == [] && e[0..] == e;
      FeedOne(t, 0, messages);
      FeedAppend(start, e, EncodeAll(rest));
      if IsSequence(t) {
        StreamOfMessages(rest, messages + [e]);
        assert messages + [e] + Each(rest) == messages + Each(ts);
      } else {
        FeedShut(Feed(start, e), EncodeAll(rest));
      }
    }
  }
}
