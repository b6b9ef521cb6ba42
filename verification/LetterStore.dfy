/** Storing an incoming letter (MailLetter::Write, SetOK and Close of src/letter.cpp): a file, a
    copy in the database cut into fragments, and the running summary. */
module LetterStore {
  import opened Text
  import opened Fields
  import opened Summary
  import opened SummaryObjects
  import opened LetterSummaries

  const FRAGMENT: nat := 65535 - 1024
  const LAST_FRAGMENT: nat := 65535 - 4096

  /** The output stream: not created, open, or created but not open. */
  datatype Stream = NoStream | Open | Broken

  ghost predicate FragmentsFit(db: seq<string>) {
    forall f | f in db :: |f| <= 64511
  }

  lemma NoFragments()
    ensures FragmentsFit([]) && Concat([]) == ""
  {
  }

  class MailLetter {
    const incoming: bool  // m_att == laIn
    const maxSize: nat
    const summary: LetterSummary
    /** Which storage operations (opening the file, writing to it, saving to the database) succeed,
        counted from the first, and how many there have been. */
    const works: nat -> bool
    var calls: nat
    var fragment: string
    var stream: Stream
    var hasPath: bool     // m_eml_full_path != ""
    var size: nat
    var letterOk: bool
    /** What is on disk and, in order, in the database under this letter's name. */
    var file: Option<string>
    var db: seq<string>
    /** The chunks that were stored. */
    ghost var stored: seq<string>
    /** No storage call of a Write has failed, and the letter was not reopened. */
    ghost var good: bool

    ghost predicate Valid()
      reads this, summary, summary.Repr
    {
      && this !in summary.Repr && summary !in summary.Repr
      && summary.Valid() && summary.Built() && summary.InStep() && summary.writing
      && (!hasPath ==> file.None? && db == [] && fragment == "")
      && (stream.Open? ==> file.Some? && hasPath)
      && size < TWO_32
      && FragmentsFit(db)
      && (good ==> Conserved() && |fragment| <= FRAGMENT)
    }

    /** Every storage operation from the given one on has succeeded. */
    ghost predicate WorkedSince(start: nat)
      reads this
    {
      forall k | start <= k < calls :: works(k)
    }

    ghost function Bytes(): string
      reads `file
    {
      match file case None => "" case Some(f) => f
    }

    /** The file holds the chunks; fragments and summary, which take each chunk as a C string, hold
        what is before its first NUL. What is stored fits the quota. */
    ghost predicate Conserved()
      reads this, summary
    {
      && Bytes() == Concat(stored) && size == Wrap32(|Bytes()|)
      && Concat(db) + fragment == CStrings(stored)
      && summary.flushed == [] && summary.text == CStrings(stored)
      && (|Bytes()| < TWO_32 ==> |Bytes()| <= maxSize)
    }

    constructor (decoder: Decoder, incoming: bool, maxSize: nat, works: nat -> bool)
      ensures Valid() && good && fresh(summary) && fresh(summary.Repr)
      ensures this.incoming == incoming && this.maxSize == maxSize && this.works == works && calls == 0
      ensures file.None? && db == [] && stored == [] && stream.NoStream? && !letterOk
    {
      this.incoming, this.maxSize, this.works, calls := incoming, maxSize, works, 0;
      fragment, stream, hasPath, size, letterOk := "", NoStream, false, 0, false;
      file, db, stored, good := None, [], [], true;
      summary := new LetterSummary(decoder);
    }

    /** One storage operation. */
    method Attempt() returns (ok: bool)
      modifies `calls
      ensures calls == old(calls) + 1 && ok == works(old(calls))
    {
      ok := works(calls);
      calls := calls + 1;
    }

    /** SaveMailBodyToDB: appends a fragment or fails. */
    method SaveToDB(piece: string) returns (ok: bool)
      modifies `db, `calls
      ensures calls == old(calls) + 1 && ok == works(old(calls))
      ensures FragmentsFit(old(db)) && |piece| <= FRAGMENT ==> FragmentsFit(db)
      ensures Concat(db) == Concat(old(db)) + (if ok then piece else "")
      ensures db == if ok then old(db) + [piece] else old(db)
    {
      ok := Attempt();
      if ok {
        ConcatSnoc(db, piece);
        db := db + [piece];
      }
    }

    /** The stream is created on first use; opening truncates the file. */
    method OpenStream()
      requires stream.NoStream?
      modifies `hasPath, `stream, `file, `calls
      ensures calls == old(calls) + 1 && hasPath
      ensures stream == if works(old(calls)) then Open else Broken
      ensures file == if stream.Open? then Some("") else old(file)
    {
      hasPath := true;
      var ok := Attempt();
      if ok {
        stream, file := Open, Some("");
      } else {
        stream := Broken;
      }
    }

    /** Before the bytes are written: a stream that has not been created yet is opened. Opening over
        bytes that were stored before loses them. */
    method EnsureStream()
      requires Valid()
      modifies `hasPath, `stream, `file, `calls, `good
      ensures Valid() && !stream.NoStream?
      ensures old(stream).NoStream? ==>
                && calls == old(calls) + 1 && stream == (if works(old(calls)) then Open else Broken)
                && file == (if stream.Open? then Some("") else old(file))
      ensures !old(stream).NoStream? ==> calls == old(calls) && stream == old(stream) && file == old(file)
      ensures good <==>
              old(good) && !(old(stream).NoStream? && stream.Open? && old(file) != None && old(file) != Some(""))
    {
      hide MimeSummary.Valid, Feed, Emitted, Pending, LetterSummary.Built, LetterSummary.InStep, Concat, FragmentsFit;
      if stream.NoStream? {
        ghost var lost := file != None && file != Some("");
        OpenStream();
        if stream.Open? && lost {
          good := false;
        }
      }
    }

    /** Cuts n bytes off the waiting text and saves them. */
    method SaveBlock(n: nat) returns (ok: bool)
      requires n < |fragment| && n <= FRAGMENT
      modifies `fragment, `db, `calls
      ensures calls == old(calls) + 1 && ok == works(old(calls))
      ensures fragment == old(fragment)[n..] && (FragmentsFit(old(db)) ==> FragmentsFit(db))
      ensures db == if ok then old(db) + [old(fragment)[..n]] else old(db)
      ensures ok ==> Concat(db) + fragment == Concat(old(db)) + old(fragment)
    {
      hide Concat, FragmentsFit;
      var block := fragment[..n];
      ghost var f, before := fragment, Concat(db);
      fragment := fragment[n..];
      assert f == block + fragment;
      ok := SaveToDB(block);
      Assoc(before, block, fragment);
    }

    /** Cuts full fragments off and saves them, until what is left is no longer than one or a save
        fails. */
    method SaveFragments() returns (ok: bool)
      requires FragmentsFit(db)
      modifies `fragment, `db, `calls
      ensures FragmentsFit(db) && calls >= old(calls) && (ok <==> WorkedSince(old(calls)))
      ensures old(db) <= db && forall k | |old(db)| <= k < |db| :: |db[k]| == 64511
      ensures ok ==> |fragment| <= FRAGMENT && Concat(db) + fragment == Concat(old(db)) + old(fragment)
    {
      hide Concat, FragmentsFit;
      ok := true;
      while |fragment| > FRAGMENT && ok
        invariant FragmentsFit(db) && calls >= old(calls) && (ok <==> WorkedSince(old(calls)))
        invariant old(db) <= db && forall k | |old(db)| <= k < |db| :: |db[k]| == 64511
        invariant ok ==> Concat(db) + fragment == Concat(old(db)) + old(fragment)
      {
        ok := SaveBlock(FRAGMENT);
      }
    }

    /** A write succeeds exactly when the direction, the quota and the stream allow it and no storage
        operation fails. A rejected one (direction, quota) changes nothing; a successful one extends file,
        fragments and summary and leaves the stream open for the next. The summary would read beyond an
        empty text. */
    method Write(buf: string) returns (r: int)
      requires Valid() && 0 < |buf| < TWO_32 && (buf[0] == '\0' ==> summary.strField != "")
      modifies this, summary, summary.Repr
      ensures Valid() && fresh(summary.Repr - old(summary.Repr)) && letterOk == old(letterOk)
      ensures calls >= old(calls)
      ensures r == if incoming && Wrap32(old(size) + |buf|) <= maxSize && !old(stream).Broken? &&
                      WorkedSince(old(calls)) then 0 else -1
      ensures r == 0 ==> stream.Open? && summary.strField != ""
      ensures r == 0 ==> Bytes() == (if old(stream).Open? then old(Bytes()) else "") + buf
      ensures r == 0 && good ==> old(good) && Bytes() == old(Bytes()) + buf && stored == old(stored) + [buf]
      ensures r == 0 && old(good) && (old(stream).Open? || old(file.None?)) ==> good
      ensures !incoming || Wrap32(old(size) + |buf|) > maxSize ==>
                r == -1 && good == old(good) && file == old(file) && db == old(db) && size == old(size) &&
                fragment == old(fragment) && hasPath == old(hasPath) && calls == old(calls) && stored == old(stored)
    {
      hide MimeSummary.Valid, Feed, Emitted, Pending, LetterSummary.Built, LetterSummary.InStep;
      hide Concat, CStrings, CString, FragmentsFit;
      if !incoming {
        return -1;
      }
      if Wrap32(size + |buf|) > maxSize {
        return -1;
      }
      EnsureStream();
      if !stream.Open? {
        return -1;
      }
      r := Append(buf);
    }

    /** Nothing but Writes that succeeded has happened. */
    ghost predicate Writing()
      reads this, summary
    {
      good && if stored == [] then stream.NoStream? && file.None? else stream.Open? && summary.strField != ""
    }

    /** One Write of a letter that is being written. */
    method WriteNext(chunk: string) returns (ok: bool)
      requires Valid() && incoming && Writing()
      requires 0 < |chunk| < TWO_32 && (stored == [] ==> chunk[0] != '\0')
      modifies this, summary, summary.Repr
      ensures Valid() && fresh(summary.Repr - old(summary.Repr)) && letterOk == old(letterOk)
      ensures calls >= old(calls)
      ensures ok <==>
              Wrap32(Wrap32(|Concat(old(stored))|) + |chunk|) <= maxSize && WorkedSince(old(calls))
      ensures ok ==> Writing() && stored == old(stored) + [chunk]
    {
      hide MimeSummary.Valid, Feed, Emitted, Pending, LetterSummary.Built, LetterSummary.InStep;
      hide LetterSummary.Valid, Concat, CStrings, CString, FragmentsFit, Wrap32;
      var r := Write(chunk);
      ok := r == 0;
    }

    /** The bytes go to the database, as a C string, and to the file. */
    method StoreBytes(buf: string) returns (ok: bool)
      requires FragmentsFit(db) && file.Some?
      modifies `fragment, `db, `file, `calls
      ensures FragmentsFit(db) && calls > old(calls) && (ok <==> WorkedSince(old(calls)))
      ensures ok ==>
                && file == Some(old(file).value + buf) && |fragment| <= FRAGMENT
                && Concat(db) + fragment == Concat(old(db)) + old(fragment) + CString(buf)
      ensures !ok ==> file == old(file)
    {
      hide Concat, FragmentsFit, CString;
      Assoc(Concat(db), fragment, CString(buf));
      fragment := fragment + CString(buf);
      ok := SaveFragments();
      if ok {
        ok := Attempt();  // the file write
      } else {
        assert calls > old(calls);
      }
      if ok {
        file := Some(file.value + buf);
      }
    }

    /** The part of Write behind the checks. */
    method Append(buf: string) returns (r: int)
      requires Valid() && buf != "" && stream.Open? && (buf[0] == '\0' ==> summary.strField != "")
      requires Wrap32(size + |buf|) <= maxSize
      modifies this, summary, summary.Repr
      ensures Valid() && fresh(summary.Repr - old(summary.Repr)) && letterOk == old(letterOk)
      ensures calls > old(calls) && (r == if WorkedSince(old(calls)) then 0 else -1)
      ensures stream == old(stream) && (r == 0 ==> summary.strField != "")
      ensures r == 0 ==> good == old(good) && file == Some(old(file).value + buf) && stored == old(stored) + [buf]
    {
      hide MimeSummary.Valid, Feed, Emitted, Pending, LetterSummary.Built, LetterSummary.InStep;
      hide LetterSummary.Valid, Concat, CStrings, CString, FragmentsFit, Wrap32;
      WrapAdd(|file.value|, |buf|);
      WrapSmall(|file.value + buf|);
      var ok := StoreBytes(buf);
      if !ok {
        good := false;
        return -1;
      }
      PassOn(buf);
      ConcatSnoc(stored, buf);
      CStringsSnoc(stored, buf);
      stored := stored + [buf];
      size := Wrap32(size + |buf|);
      return 0;
    }

    /** The copy of the bytes that goes to the summary ends at their first NUL. */
    method PassOn(buf: string)
      requires summary.Valid() && summary.Built() && summary.InStep() && summary.writing
      requires buf != "" && (buf[0] == '\0' ==> summary.strField != "")
      modifies summary, summary.Repr
      ensures summary.Valid() && summary.Built() && summary.InStep() && summary.writing
      ensures fresh(summary.Repr - old(summary.Repr))
      ensures summary.flushed == old(summary.flushed) && summary.text == old(summary.text) + CString(buf)
      ensures summary.strField != "" && summary !in summary.Repr
    {
      hide MimeSummary.Valid, Feed, Emitted, Pending, LetterSummary.Built;
      assert buf[0] != '\0' ==> CString(buf) != "";
      summary.Parse(CString(buf));
      PendingHasNoCut(summary.text);
    }

    method SetOK()
      requires Valid()
      modifies `letterOk
      ensures Valid() && letterOk
    {
      letterOk := true;
    }

    /** Nothing is left to be written, and a letter that is not OK has left no trace. */
    ghost predicate Finished()
      reads this
    {
      incoming && fragment == "" && stream.NoStream? && (!letterOk ==> !hasPath)
    }

    /** The rest of the text goes to the database in smaller fragments; a failed save, and nothing
        else, makes the letter not OK. A letter that is not OK is removed from disk and from the database. */
    method Close()
      requires Valid() && incoming
      modifies this
      ensures Valid() && Finished()
      ensures calls >= old(calls) && (letterOk <==> old(letterOk) && WorkedSince(old(calls)))
      ensures letterOk ==> good == old(good) && file == old(file) && Concat(db) == Concat(old(db)) + old(fragment)
      ensures letterOk ==> FragmentsFit(db)
      ensures letterOk && good ==>
                Bytes() == Concat(stored) && Concat(db) == summary.text == CStrings(stored) && stored == old(stored)
      ensures !letterOk ==> file.None? && db == []
      ensures old(Finished()) ==> file == old(file) && db == old(db) && size == old(size) && letterOk == old(letterOk)
    {
      hide MimeSummary.Valid, Feed, Emitted, Pending, LetterSummary.Built, LetterSummary.InStep;
      hide LetterSummary.Valid, Concat, CStrings, CString, Count, FragmentsFit, Wrap32;
      NoFragments();
      var failed := SaveRest();
      if failed {
        letterOk := false;
      }
      stream := NoStream;
      if !letterOk {
        Remove();
      }
    }

    /** DeleteMailBodyFromDB and unlink. */
    method Remove()
      requires !hasPath ==> db == [] && file.None?
      modifies `db, `file, `hasPath, `good
      ensures db == [] && file.None? && !hasPath && !good
    {
      db, file, hasPath, good := [], None, false, false;
    }

    /** After a failure the remaining text is still saved in one piece, however long. */
    method SaveRest() returns (failed: bool)
      requires FragmentsFit(db)
      modifies `fragment, `db, `calls
      ensures calls >= old(calls) && (failed <==> !WorkedSince(old(calls)))
      ensures fragment == "" && (!failed ==> FragmentsFit(db))
      ensures !failed ==> Concat(db) == Concat(old(db)) + old(fragment)
      ensures !failed ==> old(db) <= db && forall k | |old(db)| <= k < |db| :: 0 < |db[k]| <= 61439
      ensures old(fragment) == "" ==> !failed && db == old(db)
    {
      hide Concat, FragmentsFit;
      failed := false;
      while |fragment| > LAST_FRAGMENT && !failed
        invariant FragmentsFit(db) && calls >= old(calls) && (failed <==> !WorkedSince(old(calls)))
        invariant !failed ==> Concat(db) + fragment == Concat(old(db)) + old(fragment)
        invariant !failed ==> old(db) <= db && forall k | |old(db)| <= k < |db| :: 0 < |db[k]| <= 61439
        invariant old(fragment) == "" ==> fragment == "" && !failed && db == old(db)
      {
        var ok := SaveBlock(LAST_FRAGMENT);
        failed := !ok;
      }
      if fragment != "" {
        var ok := SaveToDB(fragment);
        failed := failed || !ok;
        fragment := "";
      }
      assert Concat(db) + "" == Concat(db);
    }
  }

  // ---- storing a whole letter ----

  /** The size, which is kept modulo 2^32, passes the check at every chunk. */
  predicate FitsQuota(chunks: seq<string>, maxSize: nat) {
    forall i | 0 < i <= |chunks| :: Wrap32(|Concat(chunks[..i])|) <= maxSize
  }

  lemma QuotaSnoc(chunks: seq<string>, i: nat, maxSize: nat)
    requires i < |chunks|
    ensures chunks[..i + 1] == chunks[..i] + [chunks[i]]
    ensures FitsQuota(chunks[..i + 1], maxSize) <==>
            FitsQuota(chunks[..i], maxSize) && Wrap32(Wrap32(|Concat(chunks[..i])|) + |chunks[i]|) <= maxSize
  {
    hide Concat, Wrap32;
    var before, after := chunks[..i], chunks[..i + 1];
    assert after == before + [chunks[i]];
    ConcatSnoc(before, chunks[i]);
    WrapAdd(|Concat(before)|, |chunks[i]|);
    assert after[..i + 1] == after;
    assert forall k | 0 < k <= i :: after[..k] == before[..k];
  }

  lemma NothingFits(chunks: seq<string>, maxSize: nat)
    ensures chunks[..0] == [] && FitsQuota(chunks[..0], maxSize)
  {
  }

  lemma QuotaPrefix(chunks: seq<string>, i: nat, maxSize: nat)
    requires i <= |chunks| && FitsQuota(chunks, maxSize)
    ensures FitsQuota(chunks[..i], maxSize)
  {
    assert forall k | 0 < k <= i :: chunks[..i][..k] == chunks[..k];
  }

  /** Below 2^32 bytes the total decides. */
  lemma QuotaIsTotal(chunks: seq<string>, maxSize: nat)
    requires |Concat(chunks)| < TWO_32
    ensures FitsQuota(chunks, maxSize) <==> |Concat(chunks)| <= maxSize
  {
    hide Concat;
    assert chunks[..|chunks|] == chunks;
    forall i | 0 < i <= |chunks| ensures Wrap32(|Concat(chunks[..i])|) <= |Concat(chunks)| {
      ConcatAppend(chunks[..i], chunks[i..]);
      assert chunks == chunks[..i] + chunks[i..];
    }
    NoFragments();
  }

  /** As IMAP APPEND stores a literal that arrives in chunks, completely or not: until a Write fails. The
      letter is OK exactly when everything arrived, the quota allows every chunk and every storage
      operation succeeds. Then the file holds all the chunks, and database and summary hold the same text
      if and only if there is no NUL in it; otherwise nothing is left. */
  method StoreLetter(decoder: Decoder, maxSize: nat, works: nat -> bool, chunks: seq<string>, complete: bool)
    returns (l: MailLetter)
    requires forall c | c in chunks :: 0 < |c| < TWO_32
    requires chunks != [] ==> chunks[0][0] != '\0'
    ensures l.Valid() && l.Finished() && l.works == works
    ensures l.letterOk <==> complete && FitsQuota(chunks, maxSize) && l.WorkedSince(0)
    ensures l.letterOk ==>
              && l.Bytes() == Concat(chunks) && FragmentsFit(l.db)
              && Concat(l.db) == l.summary.text == CStrings(chunks)
              && (Concat(l.db) == l.Bytes() <==> '\0' !in Concat(chunks))
    ensures !l.letterOk ==> l.file.None? && l.db == []
  {
    hide MailLetter.Valid, Concat, CStrings, CString, FragmentsFit, FitsQuota, Wrap32;
    l := new MailLetter(decoder, true, maxSize, works);
    var i, ok := 0, complete;
    NothingFits(chunks, maxSize);
    while i < |chunks| && ok
      invariant 0 <= i <= |chunks| && fresh(l) && fresh(l.summary) && fresh(l.summary.Repr)
      invariant l.Valid() && l.incoming && l.maxSize == maxSize && l.works == works && !l.letterOk
      invariant ok ==> l.Writing() && l.stored == chunks[..i]
      invariant ok <==> complete && FitsQuota(chunks[..i], maxSize) && l.WorkedSince(0)
    {
      QuotaSnoc(chunks, i, maxSize);
      ok := l.WriteNext(chunks[i]);
      i := i + 1;
    }
    if ok {
      assert chunks[..i] == chunks;
      l.SetOK();
    } else if FitsQuota(chunks, maxSize) {
      QuotaPrefix(chunks, i, maxSize);
    }
    l.Close();
    CStringsWhole(chunks);
  }
}
