/** LetterSummary (src/letter.cpp): text arrives in arbitrary chunks, is cut into fields, and
    every field goes to the letter's header or data block and to its MIME tree. */
module LetterSummaries {
  import opened Text
  import opened Fields
  import opened Summary
  import opened SummaryObjects
  import opened Tiling

  lemma PartGrows(d: Decoder, p: Part, field: string)
    ensures PartStep(d, p, field).blk == Grow(p.blk, field)
  {
  }

  lemma DataGrows(d: Decoder, s: Data, field: string)
    ensures DataStep(d, s, field).blk == Grow(s.blk, field)
  {
  }

  class LetterSummary {
    /** The tree so far, the fields it was built from, the text received since the last flush,
        and the fields there were at that flush. */
    ghost var state: Part
    ghost var fields: seq<string>
    ghost var text: string
    ghost var flushed: seq<string>
    ghost var Repr: set<object>

    const decoder: Decoder
    var writing: bool  // m_mode is sWT or sWR
    var strField: string
    var isHeader: bool
    var blk: Block
    var header: Option<Block>
    var data: Option<Block>
    var mime: MimeSummary?

    ghost predicate Valid()
      reads `state, `Repr, `isHeader, `blk, `header, `data, `mime, Repr
    {
      && this !in Repr
      && (mime == null ==> state == NewPart(0))
      && (mime != null ==>
            mime in Repr && mime.Repr <= Repr && mime.Valid() && mime.state == state)
      && isHeader == state.inHeader && blk == Stored(state.blk) && state.blk.beg == 0
      && header == (match state.header case None => None case Some(h) => Some(Stored(h.blk)))
      && data == (match state.data case None => None case Some(s) => Some(Stored(s.blk)))
    }

    /** The tree is what all the fields so far have built. */
    ghost predicate Built()
      reads `state, `fields, `mime
    {
      state == Feed(decoder, NewPart(0), fields) && (mime == null <==> fields == [])
    }

    /** Everything that could be cut has been cut. */
    ghost predicate InStep()
      reads `fields, `flushed, `text, `strField
    {
      fields == flushed + Emitted(text) && strField == Pending(text)
    }

    constructor (decoder: Decoder)
      ensures Valid() && Built() && InStep() && fresh(Repr) && writing
      ensures this.decoder == decoder && flushed == [] && text == ""
    {
      this.decoder := decoder;
      writing, strField, isHeader := true, "", true;
      blk, header, data, mime := NewBlock(0), None, None, null;
      state, fields, text, flushed, Repr := NewPart(0), [], "", [], {};
    }

    method FieldParse(field: string)
      requires Valid() && Built() && writing
      modifies this, Repr
      ensures Valid() && Built() && fresh(Repr - old(Repr))
      ensures fields == old(fields) + [field]
      ensures text == old(text) && flushed == old(flushed) && strField == old(strField) && writing
    {
      hide MimeSummary.Valid;
      FeedSnoc(decoder, NewPart(0), fields, field);
      Dispatch(field);
      fields := fields + [field];
    }

    /** A field goes to the letter's block and to the tree. */
    method Dispatch(field: string)
      requires Valid()
      modifies this, Repr
      ensures Valid() && fresh(Repr - old(Repr)) && mime != null
      ensures state == PartStep(decoder, old(state), field)
      ensures text == old(text) && flushed == old(flushed) && strField == old(strField)
      ensures writing == old(writing) && fields == old(fields)
    {
      hide MimeSummary.Valid;
      AddToLetter(field);
      AddToTree(field);
    }

    /** The letter's own header or data block; the tree and `blk` follow in AddToTree. */
    method AddToLetter(field: string)
      requires Valid()
      modifies `isHeader, `header, `data
      ensures isHeader == PartStep(decoder, state, field).inHeader
      ensures header == (match PartStep(decoder, state, field).header
                         case None => None case Some(h) => Some(Stored(h.blk)))
      ensures data == (match PartStep(decoder, state, field).data
                       case None => None case Some(s) => Some(Stored(s.blk)))
    {
      StoredGrows(HeaderOf(state).blk, field);
      StoredGrows(DataOf(state).blk, field);
      if isHeader {
        if field == "\r\n" || field == "\n" {
          isHeader := false;
        }
        header := Some(GrowStored(match header case None => NewBlock(0) case Some(b) => b, field));
      } else {
        DataGrows(decoder, DataOf(state), field);
        data := Some(GrowStored(match data case None => NewBlock(blk.end) case Some(b) => b, field));
      }
    }

    method AddToTree(field: string)
      requires this !in Repr && blk == Stored(state.blk)
      requires mime == null ==> state == NewPart(0)
      requires mime != null ==> mime in Repr && mime.Repr <= Repr && mime.Valid() && mime.state == state
      modifies `mime, `state, `blk, `Repr, Repr
      ensures fresh(Repr - old(Repr)) && this !in Repr
      ensures mime != null && mime in Repr && mime.Repr <= Repr && mime.Valid()
      ensures mime.state == state == PartStep(decoder, old(state), field) && blk == Stored(state.blk)
    {
      hide PartStep;
      StoredGrows(state.blk, field);
      PartGrows(decoder, state, field);
      if mime == null {
        mime := new MimeSummary(0, 0);
      }
      mime.FieldParse(decoder, field);
      blk := GrowStored(blk, field);
      state := mime.state;
      Repr := Repr + mime.Repr;
    }

    /** One pass of the cutting loop: `more` says whether a field was cut off. An empty pending
        text would make the source compare against length() - 1 of an empty string. */
    method CutOne() returns (more: bool)
      requires Valid() && Built() && writing && strField != ""
      modifies this, Repr
      ensures Valid() && Built() && fresh(Repr - old(Repr)) && writing && strField != ""
      ensures text == old(text) && flushed == old(flushed)
      ensures var s, k := old(strField), NextCut(old(strField), 0);
              if more then k < |s| && fields == old(fields) + [s[..k + 1]] && strField == s[k + 1..]
              else k == |s| && fields == old(fields) && strField == s
    {
      hide Feed, MimeSummary.Valid;
      var x := 0;
      while x < |strField| && !CutsAt(strField, x)
        invariant 0 <= x <= |strField|
        invariant forall y | 0 <= y < x :: !CutsAt(strField, y)
      {
        x := x + 1;
      }
      if x < |strField| {
        NextCutUnique(strField, x);
        FieldParse(strField[..x + 1]);
      }
      more := x < |strField| - 1;
      if more {
        strField := strField[x + 1..];
      }
    }

    method ParsePending()
      requires Valid() && Built() && writing && strField != ""
      modifies this, Repr
      ensures Valid() && Built() && fresh(Repr - old(Repr)) && writing
      ensures fields == old(fields) + Emitted(old(strField)) && strField == Pending(old(strField))
      ensures text == old(text) && flushed == old(flushed)
    {
      hide Feed, MimeSummary.Valid, Emitted, Pending, CutsAt, NextCut;
      var more := true;
      ghost var done: seq<string> := [];
      while more
        invariant Valid() && Built() && writing && strField != "" && fresh(Repr - old(Repr))
        invariant text == old(text) && flushed == old(flushed)
        invariant fields == old(fields) + done
        invariant done + Emitted(strField) == Emitted(old(strField))
        invariant Pending(strField) == Pending(old(strField))
        invariant !more ==> NextCut(strField, 0) == |strField|
        decreases |strField|, more
      {
        ghost var s := strField;
        ghost var k := NextCut(s, 0);
        more := CutOne();
        FirstCut(s, k);
        if more {
          Assoc(done, [s[..k + 1]], Emitted(s[k + 1..]));
          Assoc(old(fields), done, [s[..k + 1]]);
          done := done + [s[..k + 1]];
        }
      }
      FirstCut(strField, |strField|);
      assert done + [] == done;
    }

    method Parse(buf: string)
      requires Valid() && Built() && InStep()
      requires writing ==> strField + buf != ""
      modifies this, Repr
      ensures Valid() && Built() && InStep() && fresh(Repr - old(Repr))
      ensures flushed == old(flushed) && writing == old(writing)
      ensures text == if writing then old(text) + buf else old(text)
    {
      hide Feed, MimeSummary.Valid, Emitted, Pending;
      if !writing {
        return;
      }
      CutAppend(text, buf);
      strField := strField + buf;
      ghost var pending := strField;
      ParsePending();
      assert fields == flushed + (Emitted(text) + Emitted(pending));
      text := text + buf;
    }

    method Flush()
      requires Valid() && Built() && InStep()
      modifies this, Repr
      ensures Valid() && Built() && InStep() && fresh(Repr - old(Repr)) && writing == old(writing)
      ensures writing ==> flushed == old(flushed) + Cut(old(text)) && fields == flushed && text == ""
    {
      hide Feed, MimeSummary.Valid;
      if !writing {
        return;
      }
      if strField != "" {
        FieldParse(strField);
      }
      strField := "";
      flushed, text := fields, "";
    }
  }

  /** Reading a message chunk by chunk, as the loop that rebuilds a missing summary does: the
      tree depends on the text alone, never on how it was split, and tiles that text. */
  method Summarise(decoder: Decoder, chunks: seq<string>) returns (s: LetterSummary)
    requires "" !in chunks
    ensures s.Valid() && s.Built() && s.fields == Cut(Concat(chunks))
    ensures s.mime != null ==>
              s.mime.state == Feed(decoder, NewPart(0), Cut(Concat(chunks))) &&
              Tiled(Concat(chunks), s.mime.state) && s.mime.state.blk.end == |Concat(chunks)|
  {
    s := new LetterSummary(decoder);
    var i := 0;
    hide MimeSummary.Valid, Feed, Emitted, Pending, Tiled;
    assert chunks[..0] == [];
    while i < |chunks|
      invariant 0 <= i <= |chunks|
      invariant s.Valid() && s.Built() && s.InStep() && fresh(s) && fresh(s.Repr)
      invariant s.writing && s.decoder == decoder
      invariant s.flushed == [] && s.text == Concat(chunks[..i])
    {
      ConcatSnoc(chunks[..i], chunks[i]);
      assert chunks[..i + 1] == chunks[..i] + [chunks[i]];
      s.Parse(chunks[i]);
      i := i + 1;
    }
    assert chunks[..i] == chunks;
    s.Flush();
    CutTiles(Concat(chunks));
    RunTiled(decoder, Cut(Concat(chunks)));
  }
}
