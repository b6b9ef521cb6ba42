/** What each line of an SMTP session does to the status bits, and how they come about over a whole session. */
module SmtpStatus {
  import opened Text
  import opened Smtp

  // ---- which word is which command ----

  const COMMANDS := {"DATA", "AUTH", "EHLO", "HELO", "MAIL", "QUIT", "RCPT", "RSET"}

  lemma CommandLetters(v: string, w: string)
    requires v in COMMANDS && w in COMMANDS
    ensures |v| == 4 && forall k | 0 <= k < 4 :: 'A' <= v[k] <= 'Z'
    ensures v[0] == w[0] && v[1] == w[1] ==> v == w
  {
  }

  /** No line starts with two of them. */
  lemma OneCommand(text: string, v: string, w: string)
    requires v in COMMANDS && w in COMMANDS && StartsIgnoreCase(text, v) && StartsIgnoreCase(text, w)
    ensures v == w && |text| >= 4 && text[0] != '*'
  {
    CommandLetters(v, w);
    CommandLetters(w, v);
    hide COMMANDS;
    assert text[..4][0] == text[0] && text[..4][1] == text[1];
    assert ToLower(text[0]) == ToLower(v[0]) == ToLower(w[0]) && ToLower(text[1]) == ToLower(v[1]) == ToLower(w[1]);
  }

  /** The commands by their words, outside of logins and data. */
  lemma Commands(st: Status, text: string)
    requires Ready(st)
    ensures var k := KindOf(st, text);
            && (k.Cancel? <==> |text| >= 4 && text[0] == '*')
            && (k.Data? <==> StartsIgnoreCase(text, "DATA") && st.rcpted)
            && (k.Auth? <==> StartsIgnoreCase(text, "AUTH") && st.heloed)
            && (k.Ehlo? <==> StartsIgnoreCase(text, "EHLO"))
            && (k.Helo? <==> StartsIgnoreCase(text, "HELO"))
            && (k.Mail? <==> StartsIgnoreCase(text, "MAIL") && st.heloed)
            && (k.Quit? <==> StartsIgnoreCase(text, "QUIT"))
            && (k.Rcpt? <==> StartsIgnoreCase(text, "RCPT") && st.mailed)
            && (k.Rset? <==> StartsIgnoreCase(text, "RSET"))
  {
    hide StartsIgnoreCase;
    forall v, w | v in COMMANDS && w in COMMANDS && StartsIgnoreCase(text, v) && StartsIgnoreCase(text, w)
      ensures v == w && |text| >= 4 && text[0] != '*'
    {
      OneCommand(text, v, w);
    }
  }

  // ---- when each status bit is set ----

  /** AUTH with this mechanism. */
  predicate AuthBy(text: string, name: string) { |text| >= 5 && StartsIgnoreCase(text[5..], name) }

  /** The line passes a login check: the password line of a dialogue, or AUTH with a mechanism that is
      settled at once. */
  predicate Passes(s: State, i: Input) {
    s.open &&
    var a := i.answers;
    match KindOf(s.status, i.text)
    case Password => a.storage && a.credentials
    case Auth =>
      || (AuthBy(i.text, "PLAIN") && a.storage && a.credentials)
      || (AuthBy(i.text, "EXTERNAL") && a.tls && a.credentials)
      || (AuthBy(i.text, "GSSAPI") && a.credentials)
    case _ => false
  }

  /** A line that starts with `*`. */
  predicate Cancels(s: State, i: Input) { s.open && KindOf(s.status, i.text).Cancel? }

  /** MAIL from a local domain by somebody who has logged in, or from elsewhere by somebody who has not. */
  predicate MailTaken(dir: Directory, s: State, i: Input) {
    && s.open && KindOf(s.status, i.text).Mail?
    && (if s.status.authed then dir.isLocal(i.answers.address) else !dir.isLocal(i.answers.address))
  }

  /** RCPT to a local group or user, or elsewhere under AUTHED or relaying. */
  predicate RcptTaken(dir: Directory, s: State, i: Input) {
    var to := i.answers.address;
    && s.open && KindOf(s.status, i.text).Rcpt? && i.answers.storage
    && (if dir.isLocal(to) then dir.group(to).Some? || dir.isUser(to) else s.status.authed || dir.relay)
  }

  predicate Forgets(s: State, i: Input) { Cancels(s, i) || (s.open && KindOf(s.status, i.text).Rset?) }

  predicate DataStarts(s: State, i: Input) { s.open && KindOf(s.status, i.text).Data? && i.answers.storage }

  predicate DataDone(s: State, i: Input) { s.open && KindOf(s.status, i.text).Finish? && i.answers.storage }

  /** The first line of the dialogue is taken. */
  predicate UserTaken(s: State, i: Input) {
    s.open && KindOf(s.status, i.text).Username? && (s.mechanism.Login? || i.answers.storage)
  }

  predicate AsksUser(s: State, i: Input) {
    s.open && KindOf(s.status, i.text).Auth? && (AuthBy(i.text, "LOGIN") || AuthBy(i.text, "DIGEST-MD5"))
  }

  predicate AsksPassword(s: State, i: Input) { s.open && KindOf(s.status, i.text).Auth? && AuthBy(i.text, "CRAM-MD5") }

  predicate GivesPassword(s: State, i: Input) { s.open && KindOf(s.status, i.text).Password? }

  /** The line ends the session. */
  predicate Closes(dir: Directory, s: State, i: Input) {
    var a := i.answers;
    match KindOf(s.status, i.text)
    case Quit => true
    case Helo => !a.certified || !a.named
    case Mail => !MailTaken(dir, s, i)
    case Rcpt => !RcptTaken(dir, s, i)
    case Username => !UserTaken(s, i)
    case Password => !Passes(s, i)
    case Line => a.writes < |s.letters|
    case _ => false
  }

  const MECHANISMS := {"LOGIN", "PLAIN", "DIGEST-MD5", "CRAM-MD5", "EXTERNAL", "GSSAPI"}

  lemma OneMechanism(arg: string, v: string, w: string)
    requires v in MECHANISMS && w in MECHANISMS && StartsIgnoreCase(arg, v) && StartsIgnoreCase(arg, w)
    ensures v == w && arg != ""
  {
    assert arg[..|v|][0] == arg[0] == arg[..|w|][0];
    assert ToLower(v[0]) == ToLower(w[0]);
  }

  predicate Exclusive(arg: string) {
    forall v, w | v in MECHANISMS && w in MECHANISMS && StartsIgnoreCase(arg, v) && StartsIgnoreCase(arg, w) :: v == w
  }

  lemma NamesExclude(arg: string)
    ensures Exclusive(arg)
    ensures arg == "" ==> forall v | v in MECHANISMS :: !StartsIgnoreCase(arg, v)
  {
    forall v, w | v in MECHANISMS && w in MECHANISMS && StartsIgnoreCase(arg, v) && StartsIgnoreCase(arg, w)
      ensures v == w && arg != ""
    {
      OneMechanism(arg, v, w);
    }
  }

  /** What AUTH does, by the name of the mechanism. */
  lemma AuthMeans(s: State, text: string, a: Answers)
    ensures var t := OnAuth(s, text, a);
            && (AuthBy(text, "LOGIN") ==> t == s.(mechanism := Login, status := s.status.(authStep1 := true)))
            && (AuthBy(text, "DIGEST-MD5") ==> t == s.(mechanism := DigestMd5, status := s.status.(authStep1 := true)))
            && (AuthBy(text, "CRAM-MD5") ==> t == s.(mechanism := CramMd5, status := s.status.(authStep2 := true)))
            && (AuthBy(text, "PLAIN") ==> t == Checked(s.(mechanism := PlainText), a.storage && a.credentials))
            && (AuthBy(text, "EXTERNAL") ==>
                  t == if a.tls then Checked(s.(mechanism := Certificate), a.credentials) else s)
            && (AuthBy(text, "GSSAPI") ==> t == Checked(s.(mechanism := GssApi), a.credentials))
            && ((forall v | v in MECHANISMS :: !AuthBy(text, v)) ==> t == s)
  {
    hide StartsIgnoreCase, Checked;
    NamesExclude(Argument(text));
  }

  /** Every status bit of t, the state after a line: set by what sets it, kept unless something clears it.
      And whether the session goes on. */
  predicate BitsFollow(dir: Directory, s: State, i: Input, t: State) {
    && (t.status.authed <==> Passes(s, i) || (s.status.authed && !Cancels(s, i)))
    && (t.status.mailed <==> MailTaken(dir, s, i) || (s.status.mailed && !Forgets(s, i)))
    && (t.status.rcpted <==> RcptTaken(dir, s, i) || (s.status.rcpted && !Forgets(s, i)))
    && (t.status.dataing <==> DataStarts(s, i) || (s.status.dataing && !DataDone(s, i)))
    && (t.status.dataed <==> DataDone(s, i) || (s.status.dataed && !Cancels(s, i)))
    && (t.status.authStep1 <==> AsksUser(s, i) || (s.status.authStep1 && !UserTaken(s, i)))
    && (t.status.authStep2 <==> AsksPassword(s, i) || UserTaken(s, i) || (s.status.authStep2 && !GivesPassword(s, i)))
    && (t.open <==> s.open && !Closes(dir, s, i))
  }

  lemma AuthBits(dir: Directory, s: State, i: Input)
    requires Sound(s) && s.open && KindOf(s.status, i.text).Auth?
    ensures BitsFollow(dir, s, i, OnAuth(s, i.text, i.answers))
  {
    KindMeans(s.status, i.text);
    AuthMeans(s, i.text, i.answers);
    NamesExclude(Argument(i.text));
    hide StartsIgnoreCase, KindOf, OnAuth;
  }

  lemma UsernameBits(dir: Directory, s: State, i: Input)
    requires Sound(s) && s.open && KindOf(s.status, i.text).Username?
    ensures BitsFollow(dir, s, i, OnUsername(s, i.answers))
  {
    KindMeans(s.status, i.text);
    hide KindOf, AuthBy;
  }

  lemma PasswordBits(dir: Directory, s: State, i: Input)
    requires Sound(s) && s.open && KindOf(s.status, i.text).Password?
    ensures BitsFollow(dir, s, i, OnPassword(s, i.answers))
  {
    KindMeans(s.status, i.text);
    hide KindOf, AuthBy;
  }

  lemma DataBits(dir: Directory, s: State, i: Input)
    requires Sound(s) && s.open
    ensures KindOf(s.status, i.text).Data? ==> BitsFollow(dir, s, i, OnData(s, i.answers))
    ensures KindOf(s.status, i.text).Line? ==> BitsFollow(dir, s, i, OnLine(s, i.text, i.answers))
    ensures KindOf(s.status, i.text).Finish? ==> BitsFollow(dir, s, i, OnFinish(s, i.answers))
  {
    KindMeans(s.status, i.text);
    hide KindOf, AuthBy, Started, Indexed, Written;
  }

  lemma MailBits(dir: Directory, s: State, i: Input)
    requires Sound(s) && s.open
    ensures KindOf(s.status, i.text).Mail? ==> BitsFollow(dir, s, i, OnMail(dir, s, i.answers))
    ensures KindOf(s.status, i.text).Rcpt? ==> BitsFollow(dir, s, i, OnRcpt(dir, s, i.answers))
    ensures KindOf(s.status, i.text).Helo? ==> BitsFollow(dir, s, i, OnHelo(s, i.answers))
    ensures KindOf(s.status, i.text).Rset? ==> BitsFollow(dir, s, i, OnRset(s))
  {
    KindMeans(s.status, i.text);
    hide KindOf, AuthBy, Queued;
  }

  lemma StepBits(dir: Directory, s: State, i: Input)
    requires Sound(s)
    ensures BitsFollow(dir, s, i, Next(dir, s, i.text, i.answers))
  {
    KindMeans(s.status, i.text);
    hide KindOf, StartsIgnoreCase, AuthBy;
    if s.open {
      hide OnAuth, OnUsername, OnPassword, OnData, OnLine, OnFinish, OnMail, OnRcpt, OnHelo, OnRset;
      match KindOf(s.status, i.text) {
        case Auth => AuthBits(dir, s, i);
        case Username => UsernameBits(dir, s, i);
        case Password => PasswordBits(dir, s, i);
        case Data => DataBits(dir, s, i);
        case Line => DataBits(dir, s, i);
        case Finish => DataBits(dir, s, i);
        case Mail => MailBits(dir, s, i);
        case Rcpt => MailBits(dir, s, i);
        case Helo => MailBits(dir, s, i);
        case Rset => MailBits(dir, s, i);
        case _ =>
      }
    }
  }

  // ---- over whole sessions ----

  /** Line k of the run sets a bit, and no later line clears it. */
  ghost predicate SetBy(dir: Directory, s: State, inputs: seq<Input>, k: nat, sets: (State, Input) -> bool,
                        clears: (State, Input) -> bool)
    requires k < |inputs|
  {
    && sets(Run(dir, s, inputs[..k]), inputs[k])
    && forall j | k < j < |inputs| :: !clears(Run(dir, s, inputs[..j]), inputs[j])
  }

  ghost predicate Since(dir: Directory, s: State, inputs: seq<Input>, sets: (State, Input) -> bool,
                        clears: (State, Input) -> bool) {
    exists k | 0 <= k < |inputs| :: SetBy(dir, s, inputs, k, sets, clears)
  }

  lemma SetBySnoc(dir: Directory, s: State, inputs: seq<Input>, i: Input, k: nat, sets: (State, Input) -> bool,
                  clears: (State, Input) -> bool)
    requires k <= |inputs|
    ensures var t := Run(dir, s, inputs);
            SetBy(dir, s, inputs + [i], k, sets, clears) <==>
            if k == |inputs| then sets(t, i) else SetBy(dir, s, inputs, k, sets, clears) && !clears(t, i)
  {
    hide Run;
    var all := inputs + [i];
    assert all[..|inputs|] == inputs && all[|inputs|] == i;
    assert forall j | 0 <= j < |inputs| :: all[..j] == inputs[..j] && all[j] == inputs[j];
  }

  lemma SinceSnoc(dir: Directory, s: State, inputs: seq<Input>, i: Input, sets: (State, Input) -> bool,
                  clears: (State, Input) -> bool)
    ensures var t := Run(dir, s, inputs);
            Since(dir, s, inputs + [i], sets, clears) <==>
            sets(t, i) || (Since(dir, s, inputs, sets, clears) && !clears(t, i))
  {
    hide Run, SetBy;
    var all, t := inputs + [i], Run(dir, s, inputs);
    forall k | 0 <= k <= |inputs|
      ensures SetBy(dir, s, all, k, sets, clears) <==>
              if k == |inputs| then sets(t, i) else SetBy(dir, s, inputs, k, sets, clears) && !clears(t, i)
    {
      SetBySnoc(dir, s, inputs, i, k, sets, clears);
    }
    if sets(t, i) {
      assert SetBy(dir, s, all, |inputs|, sets, clears);
    }
  }

  lemma RunSnoc(dir: Directory, s: State, inputs: seq<Input>, i: Input)
    ensures Run(dir, s, inputs + [i]) == Next(dir, Run(dir, s, inputs), i.text, i.answers)
  {
    RunAppend(dir, s, inputs, [i]);
    assert [i][1..] == [];
    hide Next;
  }

  /** The client counts as logged in exactly when some line passed its login check and no line that starts
      with `*` came after it. */
  lemma {:induction false} AuthedIffPassed(dir: Directory, mechanism: Mechanism, inputs: seq<Input>)
    ensures Run(dir, Fresh(mechanism), inputs).status.authed <==>
            Since(dir, Fresh(mechanism), inputs, Passes, Cancels)
    decreases |inputs|
  {
    if inputs != [] {
      var before, i := inputs[..|inputs| - 1], inputs[|inputs| - 1];
      assert inputs == before + [i];
      AuthedIffPassed(dir, mechanism, before);
      EverySessionIsSafe(dir, mechanism, before);
      StepBits(dir, Run(dir, Fresh(mechanism), before), i);
      RunSnoc(dir, Fresh(mechanism), before, i);
      hide Run, Next, Since, Passes, Cancels, Fresh;
      SinceSnoc(dir, Fresh(mechanism), before, i, Passes, Cancels);
    }
  }

  /** A sender is on record exactly when some MAIL was taken, from a local domain after a login or from
      elsewhere without one, and neither RSET nor `*` came after it. */
  lemma {:induction false} MailedIffTaken(dir: Directory, mechanism: Mechanism, inputs: seq<Input>)
    ensures Run(dir, Fresh(mechanism), inputs).status.mailed <==>
            Since(dir, Fresh(mechanism), inputs, (s, i) => MailTaken(dir, s, i), Forgets)
    decreases |inputs|
  {
    if inputs != [] {
      var before, i := inputs[..|inputs| - 1], inputs[|inputs| - 1];
      assert inputs == before + [i];
      MailedIffTaken(dir, mechanism, before);
      EverySessionIsSafe(dir, mechanism, before);
      StepBits(dir, Run(dir, Fresh(mechanism), before), i);
      RunSnoc(dir, Fresh(mechanism), before, i);
      hide Run, Next, Since, Forgets, Fresh, MailTaken;
      SinceSnoc(dir, Fresh(mechanism), before, i, (s, i) => MailTaken(dir, s, i), Forgets);
    }
  }

  /** The session is open exactly as long as no line has closed it. */
  lemma {:induction false} OpenUntilClosed(dir: Directory, mechanism: Mechanism, inputs: seq<Input>)
    ensures Run(dir, Fresh(mechanism), inputs).open <==>
            forall k | 0 <= k < |inputs| :: !Closes(dir, Run(dir, Fresh(mechanism), inputs[..k]), inputs[k])
    decreases |inputs|
  {
    if inputs != [] {
      var n := |inputs| - 1;
      var before, i := inputs[..n], inputs[n];
      assert inputs == before + [i];
      assert forall k | 0 <= k < n :: before[..k] == inputs[..k] && before[k] == inputs[k];
      OpenUntilClosed(dir, mechanism, before);
      EverySessionIsSafe(dir, mechanism, before);
      StepBits(dir, Run(dir, Fresh(mechanism), before), i);
      RunSnoc(dir, Fresh(mechanism), before, i);
      hide Run, Next, Closes, Fresh;
    }
  }

  // ---- logins ----

  /** AUTH with this mechanism, before any other login or data. */
  predicate Asks(s: State, auth: Input, name: string) {
    && s.open && Ready(s.status) && s.status.heloed && StartsIgnoreCase(auth.text, "AUTH")
    && AuthBy(auth.text, name)
  }

  lemma AuthLine(dir: Directory, s: State, auth: Input)
    requires s.open && Ready(s.status) && s.status.heloed && StartsIgnoreCase(auth.text, "AUTH")
    ensures Next(dir, s, auth.text, auth.answers) == OnAuth(s, auth.text, auth.answers)
  {
    hide KindOf, StartsIgnoreCase;
    Commands(s.status, auth.text);
    hide OnAuth, OnUsername, OnPassword, OnData, OnLine, OnFinish, OnMail, OnRcpt, OnHelo, OnRset;
  }

  /** The first line of a dialogue. */
  lemma FirstLine(dir: Directory, s: State, auth: Input)
    ensures Asks(s, auth, "LOGIN") ==>
              Next(dir, s, auth.text, auth.answers) == s.(mechanism := Login, status := s.status.(authStep1 := true))
    ensures Asks(s, auth, "DIGEST-MD5") ==>
              Next(dir, s, auth.text, auth.answers) ==
              s.(mechanism := DigestMd5, status := s.status.(authStep1 := true))
    ensures Asks(s, auth, "CRAM-MD5") ==>
              Next(dir, s, auth.text, auth.answers) == s.(mechanism := CramMd5, status := s.status.(authStep2 := true))
  {
    hide KindOf, StartsIgnoreCase, OnAuth, AuthBy, Next;
    AuthMeans(s, auth.text, auth.answers);
    if Asks(s, auth, "LOGIN") || Asks(s, auth, "DIGEST-MD5") || Asks(s, auth, "CRAM-MD5") {
      AuthLine(dir, s, auth);
    }
  }

  lemma LastLine(dir: Directory, s: State, pass: Input)
    requires s.open && s.status.authStep2 && !s.status.authStep1
    requires s.mechanism.Login? || s.mechanism.DigestMd5? || s.mechanism.CramMd5?
    ensures var t, ok := Next(dir, s, pass.text, pass.answers), pass.answers.storage && pass.answers.credentials;
            t.open == ok && t.status == s.status.(authStep2 := false, authed := s.status.authed || ok)
  {
  }

  lemma TwoLines(dir: Directory, s: State, a: Input, b: Input)
    ensures Run(dir, s, [a, b]) == Next(dir, Next(dir, s, a.text, a.answers), b.text, b.answers)
  {
    hide Next;
    assert [] + [a] == [a] && [a] + [b] == [a, b];
    RunSnoc(dir, s, [], a);
    RunSnoc(dir, s, [a], b);
  }

  lemma ThreeLines(dir: Directory, s: State, a: Input, b: Input, c: Input)
    ensures Run(dir, s, [a, b, c]) == Next(dir, Run(dir, s, [a, b]), c.text, c.answers)
  {
    hide Next;
    assert [a, b] + [c] == [a, b, c];
    RunSnoc(dir, s, [a, b], c);
  }

  lemma MiddleLine(dir: Directory, s: State, user: Input)
    requires s.open && s.status.authStep1 && (s.mechanism.Login? || s.mechanism.DigestMd5?)
    ensures Next(dir, s, user.text, user.answers) ==
            if s.mechanism.DigestMd5? && !user.answers.storage then s.(open := false)
            else s.(status := s.status.(authStep1 := false, authStep2 := true))
  {
  }

  /** AUTH LOGIN, a user name, a password: logged in if and only if storage is had and the password is right;
      otherwise the session is closed. AUTH DIGEST-MD5 needs storage at the user line as well. */
  lemma LoginDialogue(dir: Directory, s: State, auth: Input, user: Input, pass: Input)
    requires Asks(s, auth, "LOGIN") || (Asks(s, auth, "DIGEST-MD5") && user.answers.storage)
    ensures var t, ok := Run(dir, s, [auth, user, pass]), pass.answers.storage && pass.answers.credentials;
            t.open == ok && t.status == s.status.(authed := s.status.authed || ok)
  {
    FirstLine(dir, s, auth);
    TwoLines(dir, s, auth, user);
    ThreeLines(dir, s, auth, user, pass);
    var t := Next(dir, s, auth.text, auth.answers);
    hide Next, Run, StartsIgnoreCase, AuthBy;
    MiddleLine(dir, t, user);
    LastLine(dir, Run(dir, s, [auth, user]), pass);
  }

  lemma DigestNeedsStorage(dir: Directory, s: State, auth: Input, user: Input)
    requires Asks(s, auth, "DIGEST-MD5") && !user.answers.storage
    ensures !Run(dir, s, [auth, user]).open
  {
    FirstLine(dir, s, auth);
    TwoLines(dir, s, auth, user);
    var t := Next(dir, s, auth.text, auth.answers);
    hide Next, Run, StartsIgnoreCase, AuthBy;
    MiddleLine(dir, t, user);
  }

  /** AUTH CRAM-MD5: the answer follows at once. */
  lemma CramDialogue(dir: Directory, s: State, auth: Input, pass: Input)
    requires Asks(s, auth, "CRAM-MD5")
    ensures var t, ok := Run(dir, s, [auth, pass]), pass.answers.storage && pass.answers.credentials;
            t.open == ok && t.status == s.status.(authed := s.status.authed || ok)
  {
    FirstLine(dir, s, auth);
    TwoLines(dir, s, auth, pass);
    var t := Next(dir, s, auth.text, auth.answers);
    hide Next, Run, StartsIgnoreCase, AuthBy;
    LastLine(dir, t, pass);
  }

  // ---- what goes wrong while data comes in ----

  /** A line goes to the letters in order up to the first that cannot take it, which ends the session. */
  lemma RefusedLine(dir: Directory, s: State, i: Input)
    requires Dataing(s) && i.text != ".\r\n"
    ensures var t := Next(dir, s, i.text, i.answers);
            && |t.letters| == |s.letters| && (t.open <==> i.answers.writes >= |s.letters|)
            && forall k | 0 <= k < |s.letters| && s.letters[k].letter.Some? ::
                 LinesOf(t.letters[k]) == LinesOf(s.letters[k]) + if k < i.answers.writes then [i.text] else []
  {
    KindMeans(s.status, i.text);
    hide KindOf;
    assert forall k | 0 <= k < |s.letters| :: LinesOf(s.letters[k]) + [] == LinesOf(s.letters[k]);
  }

  /** Without a storage connection DATA and the final dot do nothing at all; with one, DATA gives each
      recipient a letter with its own header. */
  lemma DataNeedsStorage(dir: Directory, s: State, i: Input)
    requires s.open
    ensures var k, t := KindOf(s.status, i.text), Next(dir, s, i.text, i.answers);
            && ((k.Data? || k.Finish?) && !i.answers.storage ==> t == s)
            && (k.Data? && i.answers.storage ==>
                  |t.letters| == |s.letters| &&
                  forall n | 0 <= n < |s.letters| ::
                    t.letters[n] == Recipient(s.letters[n].mailTo, Some(Letter(i.answers.headers(n), []))))
  {
    hide KindOf;
  }
}
