/** The summary objects of src/letter.cpp, updated in place field by field. Each carries its
    value from `Summary` as ghost state; its own counters are that value modulo 2^32. */
module SummaryObjects {
  import opened Text
  import opened Summary

  class HeaderSummary {
    ghost var state: Header
    var blk: Block
    var attrs: map<Kind, Value>
    var seen: seq<(Kind, Value)>

    ghost predicate Valid()
      reads this
    {
      blk == Stored(state.blk) && attrs == state.attrs && seen == state.seen
    }

    constructor (beg: nat, ghost at: nat)
      requires beg == Wrap32(at)
      ensures Valid() && state == NewHeader(at)
    {
      state := NewHeader(at);
      blk := NewBlock(beg);
      attrs, seen := map[], [];
    }

    method FieldParse(d: Decoder, field: string)
      requires Valid()
      modifies this
      ensures Valid() && state == HeaderStep(d, old(state), field)
    {
      var kind := KindOf(field);
      if kind.Some? {
        var v := Decode(d, kind.value, field);
        attrs, seen := attrs[kind.value := v], seen + [(kind.value, v)];
      }
      StoredGrows(state.blk, field);
      blk := GrowStored(blk, field);
      state := HeaderStep(d, state, field);
    }
  }

  class DataSummary {
    ghost var state: Data
    ghost var Repr: set<object>
    var blk: Block
    var boundary: string
    var boundaryBeg: string
    var boundaryEnd: string
    var subParts: seq<MimeSummary>
    var newSummary: MimeSummary?

    ghost predicate Valid()
      reads this, Repr
      ensures Valid() ==> this in Repr
      decreases Repr
    {
      && this in Repr
      && blk == Stored(state.blk)
      && boundary == state.boundary
      && (boundary != "" ==> boundaryBeg == BeginMarker(boundary) && boundaryEnd == EndMarker(boundary))
      && (newSummary == null <==> state.open.None?)
      && (newSummary != null ==>
            newSummary in Repr && newSummary.Repr <= Repr && this !in newSummary.Repr &&
            newSummary.Valid() && newSummary.state == state.open.value)
      && |subParts| == |state.closed|
      && (forall i | 0 <= i < |subParts| ::
            subParts[i] in Repr && subParts[i].Repr <= Repr && this !in subParts[i].Repr &&
            subParts[i].Valid() && subParts[i].state == state.closed[i] &&
            (newSummary != null ==> subParts[i].Repr !! newSummary.Repr))
    }

    constructor (beg: nat, ghost at: nat)
      requires beg == Wrap32(at)
      ensures Valid() && fresh(Repr) && state == NewData(at, "")
    {
      state := NewData(at, "");
      blk := NewBlock(beg);
      boundary, boundaryBeg, boundaryEnd := "", "", "";
      subParts, newSummary := [], null;
      Repr := {this};
    }

    method SetBoundary(b: string)
      requires Valid() && state.closed == [] && state.open.None?
      modifies this
      ensures Valid() && Repr == old(Repr) && state == old(state).(boundary := b)
    {
      boundary := b;
      boundaryBeg := "--" + b + "\r\n";
      boundaryEnd := "--" + b + "--\r\n";
      state := state.(boundary := b);
    }

    method ClosePart()
      requires Valid()
      modifies this
      ensures Valid() && Repr == old(Repr)
      ensures state == old(state).(closed := Close(old(state)), open := None)
    {
      if newSummary != null {
        subParts := subParts + [newSummary];
      }
      newSummary := null;
      state := state.(closed := Close(state), open := None);
    }

    method OpenPart(beg: nat, ghost at: nat)
      requires Valid() && state.open.None? && beg == Wrap32(at)
      modifies this
      ensures Valid() && fresh(Repr - old(Repr))
      ensures state == old(state).(open := Some(NewPart(at)))
    {
      newSummary := new MimeSummary(beg, at);
      Repr := Repr + newSummary.Repr;
      state := state.(open := Some(NewPart(at)));
    }

    method Advance(field: string)
      requires Valid()
      modifies this
      ensures Valid() && Repr == old(Repr)
      ensures state == old(state).(blk := Grow(old(state.blk), field))
    {
      StoredGrows(state.blk, field);
      blk := GrowStored(blk, field);
      state := state.(blk := Grow(state.blk, field));
    }

    /** A begin marker: the open part is closed and a new one opened behind the marker. */
    method NextPart(field: string)
      requires Valid()
      modifies this
      ensures Valid() && fresh(Repr - old(Repr))
      ensures state == old(state).(closed := Close(old(state)), open := Some(NewPart(old(state.blk.end) + |field|)))
    {
      ClosePart();
      WrapAdd(state.blk.end, |field|);
      OpenPart(Wrap32(blk.end + |field|), state.blk.end + |field|);
    }

    /** A field of the open part. */
    method PartField(d: Decoder, field: string)
      requires Valid() && newSummary != null
      modifies Repr
      ensures Valid() && fresh(Repr - old(Repr))
      ensures state == old(state).(open := Some(PartStep(d, old(state).open.value, field)))
      decreases DataDepth(state), 2
    {
      hide PartStep;
      newSummary.FieldParse(d, field);
      Repr := Repr + newSummary.Repr;
      state := state.(open := Some(newSummary.state));
    }

    method FieldParse(d: Decoder, field: string)
      requires Valid()
      modifies Repr
      ensures Valid() && fresh(Repr - old(Repr))
      ensures state == DataStep(d, old(state), field)
      decreases DataDepth(state), 3
    {
      hide PartStep;
      if boundary != "" {
        if field == boundaryBeg {
          NextPart(field);
        } else if field == boundaryEnd {
          ClosePart();
        } else if newSummary != null {
          PartField(d, field);
        }
      }
      Advance(field);
    }
  }

  class MimeSummary {
    ghost var state: Part
    ghost var Repr: set<object>
    var blk: Block
    var isHeader: bool
    var header: HeaderSummary?
    var data: DataSummary?

    ghost predicate Valid()
      reads this, Repr
      ensures Valid() ==> this in Repr
      decreases Repr
    {
      && this in Repr
      && blk == Stored(state.blk) && isHeader == state.inHeader
      && (!isHeader ==> header != null)
      && (header == null <==> state.header.None?)
      && (header != null ==> header in Repr && header.Valid() && header.state == state.header.value)
      && (data == null <==> state.data.None?)
      && (data != null ==>
            data in Repr && data.Repr <= Repr && this !in data.Repr && header !in data.Repr &&
            data.Valid() && data.state == state.data.value)
    }

    constructor (beg: nat, ghost at: nat)
      requires beg == Wrap32(at)
      ensures Valid() && fresh(Repr) && state == NewPart(at)
    {
      state := NewPart(at);
      blk := NewBlock(beg);
      isHeader, header, data := true, null, null;
      Repr := {this};
    }

    /** The header object, created on first use at the part's own offset. */
    method NeedHeader()
      requires Valid()
      modifies this
      ensures Valid() && fresh(Repr - old(Repr))
      ensures header != null && state == old(state).(header := Some(HeaderOf(old(state))))
      ensures data == old(data) && isHeader == old(isHeader)
    {
      if header == null {
        header := new HeaderSummary(blk.beg, state.blk.beg);
        Repr := Repr + {header};
        state := state.(header := Some(header.state));
      }
    }

    /** The data object, created where the header ends. */
    method NeedData()
      requires Valid() && !isHeader
      modifies this
      ensures Valid() && fresh(Repr - old(Repr))
      ensures data != null && state == old(state).(data := Some(DataOf(old(state))))
      ensures isHeader == old(isHeader)
    {
      if data == null {
        data := new DataSummary(blk.end, state.blk.end);
        if ContentType in header.attrs && header.attrs[ContentType].TypeValue? &&
           EqualsIgnoreCase(header.attrs[ContentType].type1, "multipart") {
          data.SetBoundary(header.attrs[ContentType].boundary);
        }
        Repr := Repr + data.Repr;
        state := state.(data := Some(data.state));
      }
    }

    method Advance(field: string)
      requires Valid()
      modifies this
      ensures Valid() && Repr == old(Repr)
      ensures state == old(state).(blk := Grow(old(state.blk), field))
    {
      StoredGrows(state.blk, field);
      blk := GrowStored(blk, field);
      state := state.(blk := Grow(state.blk, field));
    }

    /** A field of the header. */
    method HeaderField(d: Decoder, field: string)
      requires Valid() && isHeader
      modifies Repr
      ensures Valid() && fresh(Repr - old(Repr)) && data == old(data)
      ensures state ==
              old(state).(header := Some(HeaderStep(d, HeaderOf(old(state)), field)), inHeader := !IsBlank(field))
    {
      NeedHeader();
      header.FieldParse(d, field);
      state := state.(header := Some(header.state));
      if field == "\r\n" || field == "\n" {
        isHeader := false;
        state := state.(inHeader := false);
      }
    }

    /** A field of the data. */
    method DataField(d: Decoder, field: string)
      requires Valid() && !isHeader
      modifies Repr
      ensures Valid() && fresh(Repr - old(Repr))
      ensures state == old(state).(data := Some(DataStep(d, DataOf(old(state)), field)))
      decreases PartDepth(state), 0
    {
      hide DataStep;
      NeedData();
      data.FieldParse(d, field);
      Repr := Repr + data.Repr;
      state := state.(data := Some(data.state));
    }

    method FieldParse(d: Decoder, field: string)
      requires Valid()
      modifies Repr
      ensures Valid() && fresh(Repr - old(Repr))
      ensures state == PartStep(d, old(state), field)
      decreases PartDepth(state), 1
    {
      hide HeaderStep, DataStep;
      if isHeader {
        HeaderField(d, field);
      } else {
        DataField(d, field);
      }
      Advance(field);
    }
  }
}
