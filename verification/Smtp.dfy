/** The SMTP session (src/smtp.cpp): what each line does to the status bits and to the queued
    letters; RFC 5321 section 4.1.4. */
module Smtp {
  import opened Text

  // ---- state ----

  /** One flag for each STATUS bit in use. */
  datatype Status = Status(heloed: bool, authStep1: bool, authStep2: bool, authed: bool, mailed: bool, rcpted: bool,
                           dataing: bool, dataed: bool)

  const ORIGINAL := Status(false, false, false, false, false, false, false, false)
  const HELOED_ONLY := ORIGINAL.(heloed := true)

  datatype Mechanism = Login | PlainText | DigestMd5 | CramMd5 | Certificate | GssApi

  /** A letter being written: its own header, if that could be written, then the data lines. */
  datatype Letter = Letter(header: Option<string>, lines: seq<string>)

  datatype Recipient = Recipient(mailTo: string, letter: Option<Letter>)

  datatype Delivery = Delivery(mailTo: string, lines: seq<string>)

  /** `open` is false once a handler has returned FALSE. `proved` and `delivered` record what
      happened: that some login check succeeded, and which letters were entered in the mail index. */
  datatype State = State(open: bool, status: Status, mechanism: Mechanism, letters: seq<Recipient>, proved: bool,
                         delivered: seq<Delivery>)

  /** What the storage knows. A group gives the addresses of its members. */
  datatype Directory = Directory(isLocal: string -> bool, isUser: string -> bool, group: string -> Option<seq<string>>,
                                 relay: bool)

  /** What the world says during one call: whether a storage connection is had and TLS is on, the
      address cut from the line, the outcome of a login check, of the certificate and of the name check at
      HELO, the header written to each letter, how many letters take the line before one fails, and which
      letters are kept. */
  datatype Answers = Answers(storage: bool, tls: bool, address: string, credentials: bool, certified: bool, named: bool,
                             headers: nat -> Option<string>, writes: nat, kept: nat -> bool)

  // ---- handlers ----

  function Bad(s: State): State { s.(open := false) }

  function OnMail(dir: Directory, s: State, a: Answers): State {
    if dir.isLocal(a.address) == s.status.authed then s.(status := s.status.(mailed := true)) else Bad(s)
  }

  /** CheckLogin and the like; `ok` only with a storage connection. */
  function Checked(s: State, ok: bool): State {
    if ok then s.(status := s.status.(authed := true), proved := true) else s
  }

  function Argument(text: string): string { if |text| >= 5 then text[5..] else "" }

  function OnAuth(s: State, text: string, a: Answers): State {
    var arg := Argument(text);
    if StartsIgnoreCase(arg, "LOGIN") then s.(mechanism := Login, status := s.status.(authStep1 := true))
    else if StartsIgnoreCase(arg, "PLAIN") then Checked(s.(mechanism := PlainText), a.storage && a.credentials)
    else if StartsIgnoreCase(arg, "DIGEST-MD5") then s.(mechanism := DigestMd5, status := s.status.(authStep1 := true))
    else if StartsIgnoreCase(arg, "CRAM-MD5") then s.(mechanism := CramMd5, status := s.status.(authStep2 := true))
    else if StartsIgnoreCase(arg, "EXTERNAL") then
      if a.tls then Checked(s.(mechanism := Certificate), a.credentials) else s
    else if StartsIgnoreCase(arg, "GSSAPI") then Checked(s.(mechanism := GssApi), a.credentials)
    else s
  }

  function OnUsername(s: State, a: Answers): State {
    var next := s.(status := s.status.(authStep1 := false, authStep2 := true));
    if s.mechanism.Login? then next
    else if s.mechanism.DigestMd5? then if a.storage then next else Bad(s)
    else s
  }

  function OnPassword(s: State, a: Answers): State {
    var next := s.(status := s.status.(authStep2 := false));
    var known := s.mechanism.Login? || s.mechanism.CramMd5? || s.mechanism.DigestMd5?;
    if a.storage && known && a.credentials then Checked(next, true) else Bad(next)
  }

  function Queued(addresses: seq<string>): seq<Recipient> {
    if addresses == [] then [] else [Recipient(addresses[0], None)] + Queued(addresses[1..])
  }

  function OnRcpt(dir: Directory, s: State, a: Answers): State {
    var more :=
      if !a.storage then None
      else if dir.isLocal(a.address) then
        if dir.group(a.address).Some? then Some(Queued(dir.group(a.address).value))
        else if dir.isUser(a.address) then Some(Queued([a.address]))
        else None
      else if s.status.authed || dir.relay then Some(Queued([a.address]))
      else None;
    match more
    case None => Bad(s)
    case Some(rs) => s.(letters := s.letters + rs, status := s.status.(rcpted := true))
  }

  /** A new letter for every recipient in the vector. */
  function Started(letters: seq<Recipient>, headers: nat -> Option<string>): seq<Recipient> {
    seq(|letters|, i requires 0 <= i < |letters| => letters[i].(letter := Some(Letter(headers(i), []))))
  }

  function OnData(s: State, a: Answers): State {
    if !a.storage then s
    else s.(status := s.status.(dataing := true), letters := Started(s.letters, a.headers))
  }

  function Written(r: Recipient, text: string): Recipient {
    match r.letter case None => r case Some(l) => r.(letter := Some(l.(lines := l.lines + [text])))
  }

  function OnLine(s: State, text: string, a: Answers): State {
    s.(letters := seq(|s.letters|, i requires 0 <= i < |s.letters| =>
         if i < a.writes then Written(s.letters[i], text) else s.letters[i]),
       open := a.writes >= |s.letters|)
  }

  function LinesOf(r: Recipient): seq<string> { match r.letter case None => [] case Some(l) => l.lines }

  function Indexed(letters: seq<Recipient>, kept: nat -> bool): seq<Delivery> {
    if letters == [] then []
    else
      var n := |letters| - 1;
      Indexed(letters[..n], kept) + if kept(n) then [Delivery(letters[n].mailTo, LinesOf(letters[n]))] else []
  }

  function OnFinish(s: State, a: Answers): State {
    if !a.storage then s
    else
      s.(status := s.status.(dataing := false, dataed := true), delivered := s.delivered + Indexed(s.letters, a.kept))
  }

  function OnHelo(s: State, a: Answers): State {
    if !a.certified then Bad(s) else s.(status := s.status.(heloed := true), open := a.named)
  }

  function OnRset(s: State): State { s.(status := s.status.(rcpted := false, mailed := false), letters := []) }

  // ---- dispatch ----

  datatype Kind = Username | Password | Finish | Line | Cancel | Data | Auth | Ehlo | Helo | Mail | Quit | Rcpt | Rset
                | Other

  function KindOf(st: Status, text: string): Kind {
    if st.authStep1 then Username
    else if st.authStep2 then Password
    else if st.dataing then if text == ".\r\n" then Finish else Line
    else if |text| < 4 then Other
    else if text[0] == '*' then Cancel
    else if StartsIgnoreCase(text, "DATA") then if st.rcpted then Data else Other
    else if StartsIgnoreCase(text, "AUTH") then if st.heloed then Auth else Other
    else if StartsIgnoreCase(text, "EHLO") then Ehlo
    else if StartsIgnoreCase(text, "HELO") then Helo
    else if StartsIgnoreCase(text, "MAIL") then if st.heloed then Mail else Other
    else if StartsIgnoreCase(text, "QUIT") then Quit
    else if StartsIgnoreCase(text, "RCPT") then if st.mailed then Rcpt else Other
    else if StartsIgnoreCase(text, "RSET") then Rset
    else Other
  }

  function Next(dir: Directory, s: State, text: string, a: Answers): State {
    if !s.open then s
    else
      match KindOf(s.status, text)
      case Username => OnUsername(s, a)
      case Password => OnPassword(s, a)
      case Finish => OnFinish(s, a)
      case Line => OnLine(s, text, a)
      case Cancel => s.(status := HELOED_ONLY)
      case Data => OnData(s, a)
      case Auth => OnAuth(s, text, a)
      case Ehlo => s.(status := s.status.(heloed := true))
      case Helo => OnHelo(s, a)
      case Mail => OnMail(dir, s, a)
      case Quit => Bad(s)
      case Rcpt => OnRcpt(dir, s, a)
      case Rset => OnRset(s)
      case Other => s
  }

  datatype Input = Input(text: string, answers: Answers)

  function Run(dir: Directory, s: State, inputs: seq<Input>): State
    decreases |inputs|
  {
    if inputs == [] then s else Run(dir, Next(dir, s, inputs[0].text, inputs[0].answers), inputs[1..])
  }

  function Fresh(mechanism: Mechanism): State { State(true, ORIGINAL, mechanism, [], false, []) }

  lemma {:induction false} RunAppend(dir: Directory, s: State, a: seq<Input>, b: seq<Input>)
    ensures Run(dir, s, a + b) == Run(dir, Run(dir, s, a), b)
    decreases |a|
  {
    hide Next;
    if a == [] {
      assert a + b == b;
    } else {
      assert (a + b)[1..] == a[1..] + b;
      RunAppend(dir, Next(dir, s, a[0].text, a[0].answers), a[1..], b);
    }
  }

  // ---- safety of every run ----

  /** What a RCPT line with this address admits, with AUTHED as it is at that moment: the members of
      a local group, a verified local user, or a foreign address under AUTHED or relaying. */
  predicate Admits(dir: Directory, authed: bool, address: string, mailTo: string) {
    if dir.isLocal(address) then
      if dir.group(address).Some? then mailTo in dir.group(address).value
      else dir.isUser(address) && mailTo == address
    else (authed || dir.relay) && mailTo == address
  }

  function Admitted(dir: Directory, s: State, a: Answers): (names: seq<string>)
    ensures forall m :: m in names <==> a.storage && Admits(dir, s.status.authed, a.address, m)
  {
    if !a.storage then []
    else if dir.isLocal(a.address) then
      if dir.group(a.address).Some? then dir.group(a.address).value
      else if dir.isUser(a.address) then [a.address] else []
    else if s.status.authed || dir.relay then [a.address] else []
  }

  lemma RcptAdds(dir: Directory, s: State, a: Answers)
    ensures OnRcpt(dir, s, a).letters == s.letters + Queued(Admitted(dir, s, a))
  {
    assert s.letters + [] == s.letters;
  }

  /** A recipient may be queued: a verified local name or member of a local group, or a foreign
      address after somebody has logged in or with relaying on. */
  ghost predicate Allowed(dir: Directory, proved: bool, mailTo: string) {
    || (dir.isLocal(mailTo) && dir.isUser(mailTo))
    || (exists g :: dir.isLocal(g) && dir.group(g).Some? && mailTo in dir.group(g).value)
    || (!dir.isLocal(mailTo) && (proved || dir.relay))
  }

  ghost predicate AllAllowed(dir: Directory, s: State) {
    && (forall r | r in s.letters :: Allowed(dir, s.proved, r.mailTo))
    && (forall d | d in s.delivered :: Allowed(dir, s.proved, d.mailTo))
  }

  predicate Order(st: Status) {
    && (st.dataing ==> st.rcpted) && (st.rcpted ==> st.mailed) && (st.mailed ==> st.heloed)
    && (st.authStep1 || st.authStep2 ==> st.heloed)
  }

  predicate OneAtATime(st: Status) {
    !(st.authStep1 && st.authStep2) && !(st.authStep1 && st.dataing) && !(st.authStep2 && st.dataing)
  }

  predicate MechanismFits(s: State) {
    && (s.status.authStep1 ==> s.mechanism.Login? || s.mechanism.DigestMd5?)
    && (s.status.authStep2 ==> s.mechanism.Login? || s.mechanism.DigestMd5? || s.mechanism.CramMd5?)
  }

  /** While data comes in every recipient has a letter, and all hold the same lines. */
  predicate SameLines(s: State) {
    s.open && s.status.dataing ==>
      && (forall r | r in s.letters :: r.letter.Some?)
      && (forall r, q | r in s.letters && q in s.letters :: LinesOf(r) == LinesOf(q))
  }

  predicate Sound(s: State) {
    Order(s.status) && OneAtATime(s.status) && MechanismFits(s) && (s.status.authed ==> s.proved)
  }

  ghost predicate Safe(dir: Directory, s: State) { Sound(s) && SameLines(s) && AllAllowed(dir, s) }

  lemma {:induction false} QueuedAre(addresses: seq<string>)
    ensures forall r | r in Queued(addresses) :: r.letter.None? && r.mailTo in addresses
    ensures |Queued(addresses)| == |addresses|
  {
    if addresses != [] {
      QueuedAre(addresses[1..]);
    }
  }

  lemma {:induction false} IndexedFrom(letters: seq<Recipient>, kept: nat -> bool)
    ensures forall d | d in Indexed(letters, kept) ::
              exists r | r in letters :: d == Delivery(r.mailTo, LinesOf(r))
    decreases |letters|
  {
    if letters != [] {
      var n := |letters| - 1;
      IndexedFrom(letters[..n], kept);
      assert letters == letters[..n] + [letters[n]];
    }
  }

  /** What the dispatch makes sure of before a handler runs. */
  lemma KindMeans(st: Status, text: string)
    ensures var k := KindOf(st, text);
            && (k.Username? <==> st.authStep1)
            && (k.Password? <==> !st.authStep1 && st.authStep2)
            && (k.Finish? || k.Line? <==> !st.authStep1 && !st.authStep2 && st.dataing)
            && (k.Finish? ==> text == ".\r\n") && (k.Line? ==> text != ".\r\n")
            && (k.Data? ==> st.rcpted) && (k.Auth? || k.Mail? ==> st.heloed) && (k.Rcpt? ==> st.mailed)
  {
    hide StartsIgnoreCase;
  }

  lemma AllowedStays(dir: Directory, s: State, proved: bool)
    requires AllAllowed(dir, s) && (s.proved ==> proved)
    ensures AllAllowed(dir, s.(proved := proved))
  {
    assert forall m | Allowed(dir, s.proved, m) :: Allowed(dir, proved, m);
  }

  lemma RcptKeeps(dir: Directory, s: State, a: Answers)
    ensures OnRcpt(dir, s, a).delivered == s.delivered && OnRcpt(dir, s, a).proved == s.proved
  {
  }

  lemma RcptAllowed(dir: Directory, s: State, a: Answers)
    requires AllAllowed(dir, s) && (s.status.authed ==> s.proved)
    ensures AllAllowed(dir, OnRcpt(dir, s, a))
  {
    var names, t := Admitted(dir, s, a), OnRcpt(dir, s, a);
    RcptAdds(dir, s, a);
    RcptKeeps(dir, s, a);
    QueuedAre(names);
    assert forall m | m in names :: Allowed(dir, s.proved, m);
    hide OnRcpt, Allowed, Queued, Admitted;
  }

  /** A step that leaves letters and deliveries alone. */
  predicate Quiet(s: State, t: State) {
    && t.letters == s.letters && t.delivered == s.delivered && t.status.dataing == s.status.dataing
    && (t.open ==> s.open) && (s.proved ==> t.proved) && (s.status.heloed ==> t.status.heloed)
  }

  predicate Ready(st: Status) { !st.authStep1 && !st.authStep2 && !st.dataing }

  lemma AuthShapes(s: State, m: Mechanism, ok: bool)
    requires Sound(s) && Ready(s.status) && s.status.heloed
    ensures Quiet(s, s)
    ensures var t := s.(mechanism := Login, status := s.status.(authStep1 := true)); Sound(t) && Quiet(s, t)
    ensures var t := s.(mechanism := DigestMd5, status := s.status.(authStep1 := true)); Sound(t) && Quiet(s, t)
    ensures var t := s.(mechanism := CramMd5, status := s.status.(authStep2 := true)); Sound(t) && Quiet(s, t)
    ensures var t := Checked(s.(mechanism := m), ok); Sound(t) && Quiet(s, t)
  {
  }

  lemma AuthStep(s: State, text: string, a: Answers)
    requires Sound(s) && Ready(s.status) && s.status.heloed
    ensures Sound(OnAuth(s, text, a)) && Quiet(s, OnAuth(s, text, a))
  {
    AuthShapes(s, PlainText, a.storage && a.credentials);
    AuthShapes(s, Certificate, a.credentials);
    AuthShapes(s, GssApi, a.credentials);
    hide StartsIgnoreCase, Argument, Sound, Quiet, Checked, Ready;
  }

  lemma LoginSteps(s: State, a: Answers)
    requires Sound(s)
    ensures s.status.authStep1 ==> Sound(OnUsername(s, a)) && Quiet(s, OnUsername(s, a))
    ensures s.status.authStep2 ==> Sound(OnPassword(s, a)) && Quiet(s, OnPassword(s, a))
  {
  }

  lemma GreetingSteps(dir: Directory, s: State, a: Answers)
    requires Sound(s) && Ready(s.status)
    ensures Sound(OnHelo(s, a)) && (s.open ==> Quiet(s, OnHelo(s, a)))
    ensures s.status.heloed ==> Sound(OnMail(dir, s, a)) && Quiet(s, OnMail(dir, s, a))
    ensures var t := s.(status := s.status.(heloed := true)); Sound(t) && Quiet(s, t)
    ensures var t := s.(status := HELOED_ONLY); Sound(t) && Quiet(s, t)
  {
  }

  lemma RcptStep(dir: Directory, s: State, a: Answers)
    requires Sound(s) && Ready(s.status) && s.status.mailed
    ensures var t := OnRcpt(dir, s, a);
            && Sound(t) && t.delivered == s.delivered && !t.status.dataing && t.proved == s.proved
            && s.letters <= t.letters && t.status.heloed
  {
  }

  lemma DataSound(s: State)
    requires Sound(s) && Ready(s.status) && s.status.rcpted
    ensures forall letters :: Sound(s.(status := s.status.(dataing := true), letters := letters))
  {
  }

  predicate SameNames(a: seq<Recipient>, b: seq<Recipient>) {
    |a| == |b| && forall i | 0 <= i < |a| :: a[i].mailTo == b[i].mailTo
  }

  lemma StartedFresh(letters: seq<Recipient>, headers: nat -> Option<string>)
    ensures SameNames(letters, Started(letters, headers))
    ensures forall r | r in Started(letters, headers) :: r.letter.Some? && LinesOf(r) == []
  {
  }

  lemma DataStep(s: State, a: Answers)
    requires Sound(s) && Ready(s.status) && s.status.rcpted
    ensures var t := OnData(s, a);
            && Sound(t) && SameLines(t) && t.delivered == s.delivered && t.proved == s.proved
            && SameNames(s.letters, t.letters) && t.status.heloed == s.status.heloed
  {
    hide Order, OneAtATime, MechanismFits;
    StartedFresh(s.letters, a.headers);
    DataSound(s);
  }

  lemma WrittenLines(r: Recipient, text: string)
    ensures var w := Written(r, text);
            && w.mailTo == r.mailTo && w.letter.Some? == r.letter.Some?
            && (r.letter.Some? ==> LinesOf(w) == LinesOf(r) + [text])
  {
  }

  lemma LineStep(s: State, text: string, a: Answers)
    requires s.open && SameLines(s)
    ensures var t := OnLine(s, text, a);
            && t == s.(letters := t.letters, open := t.open) && SameNames(s.letters, t.letters) && SameLines(t)
  {
    hide Written, LinesOf;
    var t := OnLine(s, text, a);
    forall i | 0 <= i < |s.letters|
      ensures s.letters[i].mailTo == t.letters[i].mailTo
    {
      WrittenLines(s.letters[i], text);
    }
    if t.open && t.status.dataing {
      forall r, q | r in t.letters && q in t.letters
        ensures r.letter.Some? && LinesOf(r) == LinesOf(q)
      {
        var i :| 0 <= i < |t.letters| && t.letters[i] == r;
        var j :| 0 <= j < |t.letters| && t.letters[j] == q;
        assert s.letters[i] in s.letters && s.letters[j] in s.letters;
        WrittenLines(s.letters[i], text);
        WrittenLines(s.letters[j], text);
      }
    }
  }

  lemma FinishStep(dir: Directory, s: State, a: Answers)
    requires Sound(s) && s.open && SameLines(s) && AllAllowed(dir, s)
    ensures var t := OnFinish(s, a);
            && Sound(t) && SameLines(t) && AllAllowed(dir, t) && t.proved == s.proved
            && t.status.heloed == s.status.heloed
  {
    IndexedFrom(s.letters, a.kept);
    hide Indexed, Allowed;
  }

  lemma NamesAllowed(dir: Directory, s: State, t: State)
    requires AllAllowed(dir, s) && (s.proved ==> t.proved)
    requires t.delivered == s.delivered && SameNames(s.letters, t.letters)
    ensures AllAllowed(dir, t)
  {
    AllowedStays(dir, s, t.proved);
    hide Allowed;
    forall r | r in t.letters
      ensures Allowed(dir, t.proved, r.mailTo)
    {
      var i :| 0 <= i < |t.letters| && t.letters[i] == r;
      assert s.letters[i] in s.letters;
    }
  }

  lemma QuietSafe(dir: Directory, s: State, t: State)
    requires Safe(dir, s) && Sound(t) && Quiet(s, t)
    ensures Safe(dir, t)
  {
    NamesAllowed(dir, s, t);
    hide AllAllowed, Sound;
  }

  lemma NoData(t: State)
    requires !t.status.dataing
    ensures SameLines(t)
  {
  }

  lemma LineSound(s: State, t: State)
    requires Sound(s) && t == s.(letters := t.letters, open := t.open)
    ensures Sound(t)
  {
  }

  lemma RsetSafe(dir: Directory, s: State)
    requires Safe(dir, s) && Ready(s.status)
    ensures Safe(dir, OnRset(s))
  {
  }

  lemma StepSafe(dir: Directory, s: State, text: string, a: Answers)
    requires Safe(dir, s)
    ensures Safe(dir, Next(dir, s, text, a))
  {
    var t, k := Next(dir, s, text, a), KindOf(s.status, text);
    if s.open {
      KindMeans(s.status, text);
      hide KindOf, AllAllowed, Sound, SameLines;
      hide OnAuth, OnUsername, OnPassword, OnHelo, OnMail, OnRcpt, OnData, OnLine, OnFinish, OnRset;
      match k {
        case Username => LoginSteps(s, a); QuietSafe(dir, s, t);
        case Password => LoginSteps(s, a); QuietSafe(dir, s, t);
        case Finish => FinishStep(dir, s, a);
        case Line => LineStep(s, text, a); LineSound(s, t); NamesAllowed(dir, s, t);
        case Cancel => GreetingSteps(dir, s, a); QuietSafe(dir, s, t);
        case Data => DataStep(s, a); NamesAllowed(dir, s, t);
        case Auth => AuthStep(s, text, a); QuietSafe(dir, s, t);
        case Ehlo => GreetingSteps(dir, s, a); QuietSafe(dir, s, t);
        case Helo => GreetingSteps(dir, s, a); QuietSafe(dir, s, t);
        case Mail => GreetingSteps(dir, s, a); QuietSafe(dir, s, t);
        case Quit => LineSound(s, t); QuietSafe(dir, s, t);
        case Rcpt => RcptStep(dir, s, a); RcptAllowed(dir, s, a); NoData(t);
        case Rset => RsetSafe(dir, s);
        case Other =>
      }
    }
  }

  lemma {:induction false} RunSafe(dir: Directory, s: State, inputs: seq<Input>)
    requires Safe(dir, s)
    ensures Safe(dir, Run(dir, s, inputs))
    decreases |inputs|
  {
    if inputs != [] {
      var i := inputs[0];
      StepSafe(dir, s, i.text, i.answers);
      hide Next, Safe;
      RunSafe(dir, Next(dir, s, i.text, i.answers), inputs[1..]);
    }
  }

  /** Whatever the client sends and the world answers. */
  lemma EverySessionIsSafe(dir: Directory, mechanism: Mechanism, inputs: seq<Input>)
    ensures Safe(dir, Run(dir, Fresh(mechanism), inputs))
  {
    RunSafe(dir, Fresh(mechanism), inputs);
  }

  // ---- how each recipient came in ----

  /** The line i, in state s, is a RCPT that admits this name. */
  predicate Accepts(dir: Directory, s: State, i: Input, mailTo: string) {
    && s.open && KindOf(s.status, i.text).Rcpt? && i.answers.storage
    && Admits(dir, s.status.authed, i.answers.address, mailTo)
  }

  /** Some line of the run did. */
  ghost predicate AcceptedIn(dir: Directory, s: State, inputs: seq<Input>, mailTo: string) {
    exists k | 0 <= k < |inputs| :: Accepts(dir, Run(dir, s, inputs[..k]), inputs[k], mailTo)
  }

  lemma {:induction false} QueuedAll(addresses: seq<string>)
    ensures forall m :: m in addresses <==> exists r | r in Queued(addresses) :: r.mailTo == m
  {
    if addresses != [] {
      QueuedAll(addresses[1..]);
      var first, rest := Recipient(addresses[0], None), Queued(addresses[1..]);
      assert addresses == [addresses[0]] + addresses[1..];
      assert first in [first] + rest && forall r | r in rest :: r in [first] + rest;
    }
  }

  /** RCPT queues exactly the names it admits. */
  lemma RcptQueues(dir: Directory, s: State, i: Input)
    requires s.open && KindOf(s.status, i.text).Rcpt?
    ensures var t := Next(dir, s, i.text, i.answers);
            && s.letters <= t.letters
            && (forall m :: Accepts(dir, s, i, m) <==>
                            exists r | r in t.letters[|s.letters|..] :: r.mailTo == m)
  {
    hide KindOf;
    var names := Admitted(dir, s, i.answers);
    RcptAdds(dir, s, i.answers);
    hide OnRcpt;
    var t := OnRcpt(dir, s, i.answers);
    assert t.letters[|s.letters|..] == Queued(names);
    QueuedAll(names);
    hide Queued;
    assert forall m :: Accepts(dir, s, i, m) <==> m in names;
  }

  predicate Names(letters: seq<Recipient>, mailTo: string) { exists r | r in letters :: r.mailTo == mailTo }

  lemma SameNamesNamed(a: seq<Recipient>, b: seq<Recipient>, mailTo: string)
    requires SameNames(a, b) && Names(b, mailTo)
    ensures Names(a, mailTo)
  {
    var r :| r in b && r.mailTo == mailTo;
    var i :| 0 <= i < |b| && b[i] == r;
    assert a[i] in a;
  }

  lemma NamedInHalves(a: seq<Recipient>, b: seq<Recipient>, mailTo: string)
    requires a <= b && Names(b, mailTo)
    ensures Names(a, mailTo) || exists r | r in b[|a|..] :: r.mailTo == mailTo
  {
    assert b == a + b[|a|..];
  }

  lemma NoNames(s: State, mailTo: string)
    ensures !Names(OnRset(s).letters, mailTo)
  {
  }

  lemma FinishNames(s: State, a: Answers)
    ensures OnFinish(s, a).letters == s.letters
  {
  }

  /** A name is in the vector because it was there before or because this line accepted it. */
  lemma StepNamed(dir: Directory, s: State, i: Input, mailTo: string)
    requires Safe(dir, s) && Names(Next(dir, s, i.text, i.answers).letters, mailTo)
    ensures Names(s.letters, mailTo) || Accepts(dir, s, i, mailTo)
  {
    var a, k := i.answers, KindOf(s.status, i.text);
    var t := Next(dir, s, i.text, a);
    if s.open {
      KindMeans(s.status, i.text);
      hide KindOf, AllAllowed, Sound, SameLines, Names, Accepts;
      hide OnAuth, OnUsername, OnPassword, OnHelo, OnMail, OnRcpt, OnData, OnLine, OnFinish, OnRset;
      match k {
        case Username => LoginSteps(s, a);
        case Password => LoginSteps(s, a);
        case Finish => FinishNames(s, a);
        case Line => LineStep(s, i.text, a); SameNamesNamed(s.letters, t.letters, mailTo);
        case Data => DataStep(s, a); SameNamesNamed(s.letters, t.letters, mailTo);
        case Auth => AuthStep(s, i.text, a);
        case Helo => GreetingSteps(dir, s, a);
        case Mail => GreetingSteps(dir, s, a);
        case Rcpt => RcptQueues(dir, s, i); NamedInHalves(s.letters, t.letters, mailTo);
        case Rset => NoNames(s, mailTo);
        case _ =>
      }
    }
  }

  predicate Delivers(delivered: seq<Delivery>, mailTo: string) { exists d | d in delivered :: d.mailTo == mailTo }

  /** A delivery was there before or goes to a recipient in the vector. */
  lemma StepDelivers(dir: Directory, s: State, i: Input, mailTo: string)
    requires Safe(dir, s) && Delivers(Next(dir, s, i.text, i.answers).delivered, mailTo)
    ensures Delivers(s.delivered, mailTo) || Names(s.letters, mailTo)
  {
    var a := i.answers;
    if s.open {
      KindMeans(s.status, i.text);
      hide KindOf, AllAllowed, Sound, SameLines;
      hide OnAuth, OnUsername, OnPassword, OnHelo, OnMail, OnRcpt, OnData, OnLine, Indexed;
      match KindOf(s.status, i.text) {
        case Username => LoginSteps(s, a);
        case Password => LoginSteps(s, a);
        case Finish => IndexedFrom(s.letters, a.kept);
        case Line => LineStep(s, i.text, a);
        case Data => DataStep(s, a);
        case Auth => AuthStep(s, i.text, a);
        case Helo => GreetingSteps(dir, s, a);
        case Mail => GreetingSteps(dir, s, a);
        case Rcpt => RcptStep(dir, s, a);
        case _ =>
      }
    }
  }

  lemma AcceptedLater(dir: Directory, s: State, inputs: seq<Input>, i: Input, mailTo: string)
    ensures AcceptedIn(dir, s, inputs, mailTo) ==> AcceptedIn(dir, s, inputs + [i], mailTo)
    ensures Accepts(dir, Run(dir, s, inputs), i, mailTo) ==> AcceptedIn(dir, s, inputs + [i], mailTo)
  {
    hide Accepts, Run;
    var all := inputs + [i];
    assert all[..|inputs|] == inputs && all[|inputs|] == i;
    if AcceptedIn(dir, s, inputs, mailTo) {
      var k :| 0 <= k < |inputs| && Accepts(dir, Run(dir, s, inputs[..k]), inputs[k], mailTo);
      assert all[..k] == inputs[..k] && all[k] == inputs[k];
    }
  }

  lemma NothingYet(dir: Directory, mechanism: Mechanism, mailTo: string)
    ensures !Names(Fresh(mechanism).letters, mailTo) && !Delivers(Fresh(mechanism).delivered, mailTo)
    ensures Run(dir, Fresh(mechanism), []) == Fresh(mechanism)
  {
  }

  /** Every name in the vector, and every name a letter was delivered to, came in by a RCPT line of the
      session that admitted it: a foreign one, without relaying, while AUTHED was set. */
  lemma {:induction false} EveryRecipientAccepted(dir: Directory, mechanism: Mechanism, inputs: seq<Input>,
                                                  mailTo: string)
    requires var t := Run(dir, Fresh(mechanism), inputs);
             Names(t.letters, mailTo) || Delivers(t.delivered, mailTo)
    ensures AcceptedIn(dir, Fresh(mechanism), inputs, mailTo)
    decreases |inputs|
  {
    hide Next, Safe, Accepts, AcceptedIn, Names, Delivers;
    if inputs == [] {
      NothingYet(dir, mechanism, mailTo);
    } else {
      var n := |inputs| - 1;
      var before, i := inputs[..n], inputs[n];
      assert inputs == before + [i] && [i][1..] == [];
      RunAppend(dir, Fresh(mechanism), before, [i]);
      var s := Run(dir, Fresh(mechanism), before);
      assert Run(dir, s, [i]) == Next(dir, s, i.text, i.answers);
      EverySessionIsSafe(dir, mechanism, before);
      AcceptedLater(dir, Fresh(mechanism), before, i, mailTo);
      if Names(s.letters, mailTo) || Delivers(s.delivered, mailTo) {
        EveryRecipientAccepted(dir, mechanism, before, mailTo);
      } else if Names(Next(dir, s, i.text, i.answers).letters, mailTo) {
        StepNamed(dir, s, i, mailTo);
      } else {
        StepDelivers(dir, s, i, mailTo);
      }
    }
  }

  // ---- a whole transaction ----

  /** Every letter exists and holds exactly these lines. */
  predicate AllHold(letters: seq<Recipient>, lines: seq<string>) {
    forall r | r in letters :: r.letter.Some? && LinesOf(r) == lines
  }

  /** A data line as it should be taken: not the final dot, and no letter refuses it. */
  predicate Takes(i: Input, n: nat) { i.text != ".\r\n" && i.answers.writes >= n }

  predicate Dataing(s: State) { s.open && s.status.dataing && !s.status.authStep1 && !s.status.authStep2 }

  function Texts(inputs: seq<Input>): seq<string> {
    if inputs == [] then [] else [inputs[0].text] + Texts(inputs[1..])
  }

  lemma LineHeld(dir: Directory, s: State, lines: seq<string>, i: Input)
    requires Dataing(s) && AllHold(s.letters, lines) && Takes(i, |s.letters|)
    ensures var t := Next(dir, s, i.text, i.answers);
            && t == s.(letters := t.letters) && SameNames(s.letters, t.letters) && AllHold(t.letters, lines + [i.text])
  {
    KindMeans(s.status, i.text);
    hide KindOf, Written, LinesOf;
    var t := OnLine(s, i.text, i.answers);
    forall k | 0 <= k < |t.letters|
      ensures t.letters[k].mailTo == s.letters[k].mailTo
      ensures t.letters[k].letter.Some? && LinesOf(t.letters[k]) == lines + [i.text]
    {
      assert s.letters[k] in s.letters;
      WrittenLines(s.letters[k], i.text);
    }
  }

  /** Any number of lines. */
  lemma {:induction false} LinesHeld(dir: Directory, s: State, lines: seq<string>, inputs: seq<Input>)
    requires Dataing(s) && AllHold(s.letters, lines) && forall i | i in inputs :: Takes(i, |s.letters|)
    ensures var t := Run(dir, s, inputs);
            && t == s.(letters := t.letters) && SameNames(s.letters, t.letters)
            && AllHold(t.letters, lines + Texts(inputs))
    decreases |inputs|
  {
    hide AllHold, Takes, Next;
    if inputs == [] {
      assert lines + [] == lines;
    } else {
      var i := inputs[0];
      assert i in inputs && forall x | x in inputs[1..] :: x in inputs;
      LineHeld(dir, s, lines, i);
      LinesHeld(dir, Next(dir, s, i.text, i.answers), lines + [i.text], inputs[1..]);
      assert lines + [i.text] + Texts(inputs[1..]) == lines + Texts(inputs);
    }
  }

  function DeliveriesOf(letters: seq<Recipient>, kept: nat -> bool, lines: seq<string>): seq<Delivery> {
    if letters == [] then []
    else
      var n := |letters| - 1;
      DeliveriesOf(letters[..n], kept, lines) + if kept(n) then [Delivery(letters[n].mailTo, lines)] else []
  }

  lemma {:induction false} IndexedIs(letters: seq<Recipient>, named: seq<Recipient>, kept: nat -> bool,
                                     lines: seq<string>)
    requires AllHold(letters, lines) && SameNames(named, letters)
    ensures Indexed(letters, kept) == DeliveriesOf(named, kept, lines)
    decreases |letters|
  {
    if letters != [] {
      var n := |letters| - 1;
      assert letters[n] in letters && forall r | r in letters[..n] :: r in letters;
      IndexedIs(letters[..n], named[..n], kept, lines);
    }
  }

  lemma DataBegins(dir: Directory, s: State, data: Input)
    requires s.open && Sound(s) && KindOf(s.status, data.text).Data? && data.answers.storage
    ensures var t := Next(dir, s, data.text, data.answers);
            Dataing(t) && AllHold(t.letters, []) && SameNames(s.letters, t.letters)
            && t == s.(letters := t.letters, status := s.status.(dataing := true))
  {
    KindMeans(s.status, data.text);
    hide KindOf;
    StartedFresh(s.letters, data.answers.headers);
  }

  lemma DataEnds(dir: Directory, s: State, named: seq<Recipient>, lines: seq<string>, dot: Input)
    requires Dataing(s) && AllHold(s.letters, lines) && SameNames(named, s.letters)
    requires dot.text == ".\r\n" && dot.answers.storage
    ensures Next(dir, s, dot.text, dot.answers)
            == s.(status := s.status.(dataing := false, dataed := true),
                  delivered := s.delivered + DeliveriesOf(named, dot.answers.kept, lines))
  {
    KindMeans(s.status, dot.text);
    hide KindOf;
    IndexedIs(s.letters, named, dot.answers.kept, lines);
  }

  lemma RunOne(dir: Directory, s: State, i: Input)
    ensures Run(dir, s, [i]) == Next(dir, s, i.text, i.answers)
  {
    hide Next;
    assert [i][1..] == [];
  }

  /** DATA, lines that every letter takes, and the dot: each recipient in the vector whose letter is
      kept is delivered exactly those lines, in the order of the vector, and the session can go on. */
  lemma Transaction(dir: Directory, s: State, data: Input, lines: seq<Input>, dot: Input)
    requires Safe(dir, s) && s.open && KindOf(s.status, data.text).Data? && data.answers.storage
    requires forall i | i in lines :: Takes(i, |s.letters|)
    requires dot.text == ".\r\n" && dot.answers.storage
    ensures var t := Run(dir, s, [data] + lines + [dot]);
            && t.open && Ready(t.status) && t.status.rcpted && SameNames(s.letters, t.letters)
            && t.delivered == s.delivered + DeliveriesOf(s.letters, dot.answers.kept, Texts(lines))
  {
    KindMeans(s.status, data.text);
    hide KindOf, Takes, AllHold, AllAllowed, DeliveriesOf, Texts;
    var s1 := Next(dir, s, data.text, data.answers);
    DataBegins(dir, s, data);
    LinesHeld(dir, s1, [], lines);
    assert [] + Texts(lines) == Texts(lines);
    var s2 := Run(dir, s1, lines);
    DataEnds(dir, s2, s.letters, Texts(lines), dot);
    hide Next, Safe, KindOf, AllHold, Run;
    RunAppend(dir, s, [data] + lines, [dot]);
    RunAppend(dir, s, [data], lines);
    RunOne(dir, s, data);
    RunOne(dir, s2, dot);
  }

  // ---- what a session remembers ----

  /** The first |a| recipients are those of a. */
  predicate Extends(a: seq<Recipient>, b: seq<Recipient>) {
    |a| <= |b| && forall i | 0 <= i < |a| :: a[i].mailTo == b[i].mailTo
  }

  lemma StepExtends(dir: Directory, s: State, text: string, a: Answers)
    requires Safe(dir, s)
    requires s.open ==> !KindOf(s.status, text).Rset?
    ensures Extends(s.letters, Next(dir, s, text, a).letters)
  {
    if s.open {
      KindMeans(s.status, text);
      hide KindOf, AllAllowed, Sound, SameLines;
      hide OnAuth, OnUsername, OnPassword, OnHelo, OnMail, OnRcpt, OnData, OnLine, OnFinish, OnRset;
      match KindOf(s.status, text) {
        case Username => LoginSteps(s, a);
        case Password => LoginSteps(s, a);
        case Finish => FinishStep(dir, s, a); FinishNames(s, a);
        case Line => LineStep(s, text, a);
        case Data => DataStep(s, a);
        case Auth => AuthStep(s, text, a);
        case Helo => GreetingSteps(dir, s, a);
        case Mail => GreetingSteps(dir, s, a);
        case Rcpt => RcptStep(dir, s, a);
        case _ =>
      }
    }
  }

  /** No RSET is executed in the run. */
  predicate NeverReset(dir: Directory, s: State, inputs: seq<Input>)
    decreases |inputs|
  {
    inputs == [] ||
    (!(s.open && KindOf(s.status, inputs[0].text).Rset?)
     && NeverReset(dir, Next(dir, s, inputs[0].text, inputs[0].answers), inputs[1..]))
  }

  /** Only RSET takes recipients away: until then the vector grows, across finished messages and
      across `*`, so a later message goes to the recipients of the earlier ones too. */
  lemma {:induction false} RecipientsStay(dir: Directory, s: State, inputs: seq<Input>)
    requires Safe(dir, s) && NeverReset(dir, s, inputs)
    ensures Extends(s.letters, Run(dir, s, inputs).letters)
    decreases |inputs|
  {
    if inputs != [] {
      var i := inputs[0];
      StepSafe(dir, s, i.text, i.answers);
      StepExtends(dir, s, i.text, i.answers);
      hide Next, Safe, KindOf;
      RecipientsStay(dir, Next(dir, s, i.text, i.answers), inputs[1..]);
    }
  }

  /** The vector is empty at some point of the run. */
  predicate EverEmpty(dir: Directory, s: State, inputs: seq<Input>)
    decreases |inputs|
  {
    s.letters == [] ||
    (inputs != [] && EverEmpty(dir, Next(dir, s, inputs[0].text, inputs[0].answers), inputs[1..]))
  }

  lemma ResetEmpties(dir: Directory, s: State, i: Input)
    requires s.open && KindOf(s.status, i.text).Rset?
    ensures Next(dir, s, i.text, i.answers).letters == []
  {
    hide KindOf;
  }

  /** The recipients are forgotten if and only if a RSET is executed. */
  lemma {:induction false} OnlyResetForgets(dir: Directory, s: State, inputs: seq<Input>)
    requires Safe(dir, s) && s.letters != []
    ensures EverEmpty(dir, s, inputs) <==> !NeverReset(dir, s, inputs)
    decreases |inputs|
  {
    if inputs != [] {
      var i := inputs[0];
      var t := Next(dir, s, i.text, i.answers);
      StepSafe(dir, s, i.text, i.answers);
      if s.open && KindOf(s.status, i.text).Rset? {
        ResetEmpties(dir, s, i);
        hide Next, KindOf, Safe;
      } else {
        StepExtends(dir, s, i.text, i.answers);
        hide Next, Safe, KindOf;
        OnlyResetForgets(dir, t, inputs[1..]);
      }
    }
  }

  lemma DataAgain(st: Status, text: string)
    requires Ready(st) && st.rcpted && StartsIgnoreCase(text, "DATA")
    ensures KindOf(st, text).Data?
  {
    assert ToLower(text[..4][0]) == ToLower("DATA"[0]) == 'd';
    assert text[..4][0] == text[0];
  }

  lemma {:induction false} SameDeliveries(a: seq<Recipient>, b: seq<Recipient>, kept: nat -> bool, lines: seq<string>)
    requires SameNames(a, b)
    ensures DeliveriesOf(a, kept, lines) == DeliveriesOf(b, kept, lines)
    decreases |a|
  {
    if a != [] {
      SameDeliveries(a[..|a| - 1], b[..|b| - 1], kept, lines);
    }
  }

  /** A second message right behind the first goes to the recipients of the first. */
  lemma SecondMessage(dir: Directory, s: State, data: Input, lines: seq<Input>, dot: Input,
                      data': Input, lines': seq<Input>, dot': Input)
    requires Safe(dir, s) && s.open && KindOf(s.status, data.text).Data? && data.answers.storage
    requires StartsIgnoreCase(data'.text, "DATA") && data'.answers.storage
    requires forall i | i in lines + lines' :: Takes(i, |s.letters|)
    requires dot.text == dot'.text == ".\r\n" && dot.answers.storage && dot'.answers.storage
    ensures Run(dir, s, ([data] + lines + [dot]) + ([data'] + lines' + [dot'])).delivered ==
            s.delivered + DeliveriesOf(s.letters, dot.answers.kept, Texts(lines))
                        + DeliveriesOf(s.letters, dot'.answers.kept, Texts(lines'))
  {
    hide Next, KindOf, Takes, DeliveriesOf, Safe, Texts;
    var first, second := [data] + lines + [dot], [data'] + lines' + [dot'];
    assert forall i | i in lines :: i in lines + lines';
    assert forall i | i in lines' :: i in lines + lines';
    Transaction(dir, s, data, lines, dot);
    var t := Run(dir, s, first);
    RunSafe(dir, s, first);
    DataAgain(t.status, data'.text);
    Transaction(dir, t, data', lines', dot');
    SameDeliveries(s.letters, t.letters, dot'.answers.kept, Texts(lines'));
    RunAppend(dir, s, first, second);
  }

  /** A step that counts as a greeting. */
  predicate Greets(s: State, i: Input) {
    s.open && (KindOf(s.status, i.text).Ehlo? || KindOf(s.status, i.text).Cancel?
               || (KindOf(s.status, i.text).Helo? && i.answers.certified))
  }

  predicate Greeted(dir: Directory, s: State, inputs: seq<Input>)
    decreases |inputs|
  {
    inputs != [] &&
    (Greets(s, inputs[0]) || Greeted(dir, Next(dir, s, inputs[0].text, inputs[0].answers), inputs[1..]))
  }

  lemma NotGreeted(s: State)
    requires Sound(s) && !s.status.heloed
    ensures Ready(s.status) && !s.status.mailed && !s.status.rcpted
  {
  }

  lemma StepHeloed(dir: Directory, s: State, i: Input)
    requires Safe(dir, s)
    ensures Next(dir, s, i.text, i.answers).status.heloed <==> s.status.heloed || Greets(s, i)
  {
    var a := i.answers;
    if s.open {
      KindMeans(s.status, i.text);
      if !s.status.heloed { NotGreeted(s); }
      hide KindOf, AllAllowed, Sound, SameLines;
      hide OnAuth, OnUsername, OnPassword, OnMail, OnRcpt, OnData, OnLine, OnFinish;
      match KindOf(s.status, i.text) {
        case Username => LoginSteps(s, a);
        case Password => LoginSteps(s, a);
        case Finish => FinishStep(dir, s, a);
        case Line => LineStep(s, i.text, a);
        case Data => DataStep(s, a);
        case Auth => AuthStep(s, i.text, a);
        case Mail => GreetingSteps(dir, s, a);
        case Rcpt => RcptStep(dir, s, a);
        case _ =>
      }
    }
  }

  /** When MAIL and AUTH are let in: after EHLO or a certified HELO, and, against RFC 5321 section
      4.1.4, also after any line that starts with `*`. */
  lemma {:induction false} HeloedIffGreeted(dir: Directory, s: State, inputs: seq<Input>)
    requires Safe(dir, s)
    ensures Run(dir, s, inputs).status.heloed <==> s.status.heloed || Greeted(dir, s, inputs)
    decreases |inputs|
  {
    if inputs != [] {
      StepHeloed(dir, s, inputs[0]);
      StepSafe(dir, s, inputs[0].text, inputs[0].answers);
      hide Next, Greets, Safe;
      HeloedIffGreeted(dir, Next(dir, s, inputs[0].text, inputs[0].answers), inputs[1..]);
    }
  }

  /** Such a session: its first line starts with `*`, and the second is a MAIL that is let in. */
  lemma StarIsEnough(dir: Directory, unset: Mechanism, star: Input, mail: string)
    requires |star.text| >= 4 && star.text[0] == '*' && StartsIgnoreCase(mail, "MAIL")
    ensures var s := Run(dir, Fresh(unset), [star]); s.open && s.status.heloed && KindOf(s.status, mail).Mail?
  {
  }

  // ---- the session object ----

  class CMailSmtp {
    var status: Status
    var mechanism: Mechanism
    var letters: seq<Recipient>
    ghost var proved: bool
    ghost var delivered: seq<Delivery>

    /** The state if the last handler returned `result`. */
    ghost function Now(result: bool): State
      reads this
    {
      State(result, status, mechanism, letters, proved, delivered)
    }

    /** m_authType is not initialised in the source. */
    constructor (unset: Mechanism)
      ensures Now(true) == Fresh(unset)
    {
      status, mechanism, letters, proved, delivered := ORIGINAL, unset, [], false, [];
    }

    method Parse(dir: Directory, text: string, a: Answers) returns (result: bool)
      modifies this
      ensures Now(result) == Next(dir, old(Now(true)), text, a)
    {
      result := true;
      if status.authStep1 {
        result := Username(a);
      } else if status.authStep2 {
        result := Password(a);
      } else if status.dataing {
        if text == ".\r\n" {
          FinishData(a);
        } else {
          result := DataLine(text, a);
        }
      } else if |text| >= 4 {
        result := Command(dir, text, a);
      }
    }

    method Command(dir: Directory, text: string, a: Answers) returns (result: bool)
      requires Ready(status) && |text| >= 4
      modifies this
      ensures Now(result) == Next(dir, old(Now(true)), text, a)
    {
      hide StartsIgnoreCase, OnAuth, OnHelo, OnMail, OnData, OnRcpt, OnRset;
      result := true;
      if text[0] == '*' {
        status := HELOED_ONLY;
      } else if StartsIgnoreCase(text, "DATA") {
        if status.rcpted {
          BeginData(a);
        }
      } else if StartsIgnoreCase(text, "AUTH") {
        if status.heloed {
          Authenticate(text, a);
        }
      } else if StartsIgnoreCase(text, "EHLO") {
        status := status.(heloed := true);
      } else if StartsIgnoreCase(text, "HELO") {
        result := Helo(a);
      } else if StartsIgnoreCase(text, "MAIL") {
        if status.heloed {
          result := Mail(dir, a);
        }
      } else if StartsIgnoreCase(text, "QUIT") {
        result := false;
      } else if StartsIgnoreCase(text, "RCPT") {
        if status.mailed {
          result := Rcpt(dir, a);
        }
      } else if StartsIgnoreCase(text, "RSET") {
        Reset();
      }
    }

    method Helo(a: Answers) returns (result: bool)
      modifies this
      ensures Now(result) == OnHelo(old(Now(true)), a)
    {
      if a.certified {
        status := status.(heloed := true);
        return a.named;
      } else {
        return false;
      }
    }

    method Mail(dir: Directory, a: Answers) returns (result: bool)
      modifies this
      ensures Now(result) == OnMail(dir, old(Now(true)), a)
    {
      if status.authed {
        if dir.isLocal(a.address) {
          status := status.(mailed := true);
          return true;
        } else {
          return false;
        }
      } else {
        if dir.isLocal(a.address) {
          return false;
        } else {
          status := status.(mailed := true);
          return true;
        }
      }
    }

    method Reset()
      modifies this
      ensures Now(true) == OnRset(old(Now(true)))
    {
      status := status.(rcpted := false);
      status := status.(mailed := false);
      letters := [];
    }

    method Authenticate(text: string, a: Answers)
      modifies this
      ensures Now(true) == OnAuth(old(Now(true)), text, a)
    {
      hide StartsIgnoreCase;
      var arg := Argument(text);
      if StartsIgnoreCase(arg, "LOGIN") {
        mechanism := Login;
        status := status.(authStep1 := true);
      } else if StartsIgnoreCase(arg, "PLAIN") {
        mechanism := PlainText;
        if a.storage && a.credentials {
          LoggedIn();
        }
      } else if StartsIgnoreCase(arg, "DIGEST-MD5") {
        mechanism := DigestMd5;
        status := status.(authStep1 := true);
      } else if StartsIgnoreCase(arg, "CRAM-MD5") {
        mechanism := CramMd5;
        status := status.(authStep2 := true);
      } else if StartsIgnoreCase(arg, "EXTERNAL") {
        if a.tls {
          mechanism := Certificate;
          if a.credentials {
            LoggedIn();
          }
        }
      } else if StartsIgnoreCase(arg, "GSSAPI") {
        mechanism := GssApi;
        if a.credentials {
          LoggedIn();
        }
      }
    }

    method LoggedIn()
      modifies this
      ensures Now(true) == Checked(old(Now(true)), true)
    {
      status := status.(authed := true);
      proved := true;
    }

    method Username(a: Answers) returns (result: bool)
      modifies this
      ensures Now(result) == OnUsername(old(Now(true)), a)
    {
      if mechanism == DigestMd5 && !a.storage {
        return false;
      }
      if mechanism == Login || mechanism == DigestMd5 {
        status := status.(authStep1 := false);
        status := status.(authStep2 := true);
      }
      return true;
    }

    method Password(a: Answers) returns (result: bool)
      modifies this
      ensures Now(result) == OnPassword(old(Now(true)), a)
    {
      status := status.(authStep2 := false);
      if !a.storage {
        return false;
      }
      if (mechanism == Login || mechanism == CramMd5 || mechanism == DigestMd5) && a.credentials {
        LoggedIn();
        return true;
      }
      return false;
    }

    method Rcpt(dir: Directory, a: Answers) returns (result: bool)
      modifies this
      ensures Now(result) == OnRcpt(dir, old(Now(true)), a)
    {
      if !a.storage {
        return false;
      }
      if dir.isLocal(a.address) {
        if !dir.isUser(a.address) && dir.group(a.address).None? {
          return false;
        } else if dir.group(a.address).Some? {
          Enqueue(dir.group(a.address).value);
        } else {
          Enqueue([a.address]);
        }
      } else if status.authed {
        Enqueue([a.address]);
      } else if !dir.relay {
        return false;
      } else {
        Enqueue([a.address]);
      }
      status := status.(rcpted := true);
      return true;
    }

    method Enqueue(addresses: seq<string>)
      modifies this`letters
      ensures letters == old(letters) + Queued(addresses)
    {
      for x := 0 to |addresses|
        invariant letters + Queued(addresses[x..]) == old(letters) + Queued(addresses)
      {
        assert addresses[x..][1..] == addresses[x + 1..];
        var r := Recipient(addresses[x], None);
        Assoc(letters, [r], Queued(addresses[x + 1..]));
        letters := letters + [r];
      }
    }

    method BeginData(a: Answers)
      modifies this
      ensures Now(true) == OnData(old(Now(true)), a)
    {
      if !a.storage {
        return;
      }
      status := status.(dataing := true);
      for x := 0 to |letters|
        invariant |letters| == |old(letters)|
        invariant forall k | 0 <= k < x :: letters[k] == Started(old(letters), a.headers)[k]
        invariant forall k | x <= k < |letters| :: letters[k] == old(letters)[k]
        invariant unchanged(`mechanism, `proved, `delivered) && status == old(status).(dataing := true)
      {
        letters := letters[x := letters[x].(letter := Some(Letter(a.headers(x), [])))];
      }
      assert letters == Started(old(letters), a.headers);
    }

    method DataLine(text: string, a: Answers) returns (result: bool)
      modifies this`letters
      ensures Now(result) == OnLine(old(Now(true)), text, a)
    {
      for x := 0 to |letters|
        invariant |letters| == |old(letters)| && x <= a.writes
        invariant forall k | 0 <= k < x :: letters[k] == Written(old(letters)[k], text)
        invariant forall k | x <= k < |letters| :: letters[k] == old(letters)[k]
      {
        if x == a.writes {
          assert letters == OnLine(old(Now(true)), text, a).letters;
          return false;
        }
        letters := letters[x := Written(letters[x], text)];
      }
      assert letters == OnLine(old(Now(true)), text, a).letters;
      return true;
    }

    method FinishData(a: Answers)
      modifies this
      ensures Now(true) == OnFinish(old(Now(true)), a)
    {
      if !a.storage {
        return;
      }
      status := status.(dataing := false);
      status := status.(dataed := true);
      for x := 0 to |letters|
        invariant unchanged(`mechanism, `proved, `letters)
        invariant status == old(status).(dataing := false, dataed := true)
        invariant delivered == old(delivered) + Indexed(letters[..x], a.kept)
      {
        assert letters[..x + 1][..x] == letters[..x];
        if a.kept(x) {
          delivered := delivered + [Delivery(letters[x].mailTo, LinesOf(letters[x]))];
        }
      }
      assert letters[..|letters|] == letters;
    }
  }

  lemma {:induction false} ClosedStays(dir: Directory, s: State, inputs: seq<Input>)
    requires !s.open || inputs == []
    ensures Run(dir, s, inputs) == s
    decreases |inputs|
  {
    if inputs != [] {
      ClosedStays(dir, s, inputs[1..]);
    }
  }

  /** A session: lines are parsed until a handler returns FALSE. */
  method Serve(dir: Directory, unset: Mechanism, inputs: seq<Input>) returns (session: CMailSmtp, open: bool)
    ensures session.Now(open) == Run(dir, Fresh(unset), inputs) && Safe(dir, session.Now(open))
  {
    hide Next, Safe;
    session := new CMailSmtp(unset);
    open := true;
    var x := 0;
    while x < |inputs| && open
      invariant 0 <= x <= |inputs| && fresh(session)
      invariant Run(dir, session.Now(open), inputs[x..]) == Run(dir, Fresh(unset), inputs)
    {
      assert inputs[x..][1..] == inputs[x + 1..];
      open := session.Parse(dir, inputs[x].text, inputs[x].answers);
      x := x + 1;
    }
    ClosedStays(dir, session.Now(open), inputs[x..]);
    EverySessionIsSafe(dir, unset, inputs);
  }
}
