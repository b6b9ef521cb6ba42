/** fbuffer (src/fstring.cpp): a byte buffer that grows in memory and, past a threshold, moves
    to a temporary file for good. */
module FileBuffer {
  import opened Text

  const MAX_MEMORY_THRESHOLD: nat := 1024 * 1024 * 2
  const MEMORY_BLOCK_SIZE: nat := 1024 * 64

  class FBuffer {
    /** The temporary file, once there is one; its writes are taken to succeed. */
    var tmpFile: Option<string>
    /** m_buf: the memory block or, after c_buffer on a file, the mapping. */
    var buf: array?<char>
    var bufLen: nat
    var bufRealLen: nat

    ghost predicate Valid()
      reads this, buf
    {
      match tmpFile
      case Some(f) => bufLen == |f|
      case None =>
        && (buf == null ==> bufLen == bufRealLen == 0)
        && (buf != null ==> buf.Length == bufRealLen + 1 && bufLen <= bufRealLen)
    }

    /** Everything appended so far. */
    ghost function Contents(): (s: string)
      requires Valid()
      reads this, buf
      ensures |s| == bufLen
    {
      match tmpFile
      case Some(f) => f
      case None => if buf == null then "" else buf[..bufLen]
    }

    constructor ()
      ensures Valid() && Contents() == "" && tmpFile.None? && buf == null
    {
      tmpFile, buf, bufLen, bufRealLen := None, null, 0, 0;
    }

    method BufCat(data: string)
      requires Valid() && bufLen + |data| < TWO_32
      modifies this, buf
      ensures Valid() && Contents() == old(Contents()) + data
      ensures bufLen == old(bufLen) + |data|
      ensures old(tmpFile.Some?) ==> tmpFile.Some?
      ensures tmpFile.None? ==> bufLen <= 2_097_152
      ensures tmpFile.Some? && old(tmpFile.None?) ==> bufLen > 2_097_152
      ensures buf == null || buf == old(buf) || fresh(buf)
    {
      if tmpFile.Some? {
        tmpFile := Some(tmpFile.value + data);
        bufLen := bufLen + |data|;
      } else if bufLen + |data| <= MAX_MEMORY_THRESHOLD {
        Grow(data);
      } else {
        Spill(data);
      }
    }

    method Grow(data: string)
      requires Valid() && tmpFile.None?
      modifies this, buf
      ensures Valid() && tmpFile.None? && Contents() == old(Contents()) + data
      ensures bufLen == old(bufLen) + |data| && buf != null && (buf == old(buf) || fresh(buf))
    {
      var eLen := if |data| > MEMORY_BLOCK_SIZE then |data| else MEMORY_BLOCK_SIZE;
      if buf == null {
        buf := new char[eLen + 1];
        bufRealLen := eLen;
        Copy(buf, 0, data);
        assert "" + data == buf[..|data|];
      } else if bufLen + |data| <= bufRealLen {
        Copy(buf, bufLen, data);
      } else {
        buf := Enlarged(eLen, data);
        bufRealLen := bufRealLen + eLen;
      }
      bufLen := bufLen + |data|;
    }

    /** A larger block with the old content and the new data. */
    method Enlarged(eLen: nat, data: string) returns (tBuf: array<char>)
      requires Valid() && tmpFile.None? && buf != null && |data| <= eLen
      ensures fresh(tBuf) && tBuf.Length == bufRealLen + eLen + 1
      ensures tBuf[..bufLen + |data|] == Contents() + data
    {
      tBuf := new char[bufRealLen + eLen + 1];
      Copy(tBuf, 0, buf[..bufLen]);
      assert tBuf[..bufLen] == tBuf[0..bufLen];
      Copy(tBuf, bufLen, data);
    }

    /** The memory block goes to the file in pieces. */
    static method WriteOut(block: array?<char>, len: nat) returns (file: string)
      requires if block == null then len == 0 else len <= block.Length
      ensures file == if block == null then "" else block[..len]
    {
      file := "";
      var wLen := 0;
      while true
        invariant 0 <= wLen <= len && file == if block == null then "" else block[..wLen]
        decreases len - wLen, if wLen == 0 then 1 else 0
      {
        var piece := if len - wLen > MEMORY_BLOCK_SIZE then MEMORY_BLOCK_SIZE else len - wLen;
        if block != null {
          file := file + block[wLen..wLen + piece];
        }
        wLen := wLen + piece;
        if wLen >= len {
          break;
        }
      }
    }

    /** The block, then the new data. */
    method Spill(data: string)
      requires Valid() && tmpFile.None?
      modifies this
      ensures Valid() && tmpFile.Some? && Contents() == old(Contents()) + data
      ensures bufLen == old(bufLen) + |data| && buf == null
    {
      var file := WriteOut(buf, bufLen);
      tmpFile := Some(file + data);
      buf := null;
      bufRealLen := 0;
      bufLen := bufLen + |data|;
    }

    /** c_buffer: in file mode the file is mapped afresh. What is read through the pointer is
        what was appended. */
    method CBuffer() returns (p: array?<char>)
      requires Valid()
      modifies this
      ensures Valid() && Contents() == old(Contents()) && tmpFile == old(tmpFile) && bufLen == old(bufLen)
      ensures p == buf && (p == null ==> Contents() == "")
      ensures p != null ==> bufLen <= p.Length && p[..bufLen] == Contents()
      ensures buf == old(buf) || fresh(buf)
    {
      if tmpFile.Some? {
        var f := tmpFile.value;
        bufLen := |f|;
        var mapping := new char[|f|](i requires 0 <= i < |f| => f[i]);
        assert mapping[..bufLen] == f;
        buf := mapping;
      }
      p := buf;
    }
  }

  datatype Call = Append(data: string) | Read

  function Appended(calls: seq<Call>): string {
    if calls == [] then ""
    else Appended(calls[..|calls| - 1]) + match calls[|calls| - 1] case Append(d) => d case Read => ""
  }

  lemma {:induction false} AppendedGrows(calls: seq<Call>, i: nat)
    requires i <= |calls|
    ensures |Appended(calls[..i])| <= |Appended(calls)|
    decreases |calls|
  {
    if i == |calls| {
      assert calls[..i] == calls;
    } else {
      var before := calls[..|calls| - 1];
      AppendedGrows(before, i);
      assert before[..i] == calls[..i];
    }
  }

  /** Any sequence of calls: what can be read is what was appended, in order. */
  method UseBuffer(calls: seq<Call>) returns (b: FBuffer, ghost whole: string)
    requires |Appended(calls)| < TWO_32
    ensures whole == Appended(calls) && b.Valid() && b.Contents() == whole && b.bufLen == |whole|
    ensures b.tmpFile.Some? <==> |whole| > 2_097_152
  {
    b := new FBuffer();
    var i := 0;
    assert calls[..0] == [];
    while i < |calls|
      invariant 0 <= i <= |calls| && fresh(b) && (b.buf == null || fresh(b.buf))
      invariant b.Valid() && b.Contents() == Appended(calls[..i])
      invariant b.tmpFile.Some? <==> b.bufLen > 2_097_152
    {
      assert calls[..i + 1][..i] == calls[..i];
      AppendedGrows(calls, i + 1);
      match calls[i] {
        case Append(data) => b.BufCat(data);
        case Read => var p := b.CBuffer();
      }
      i := i + 1;
    }
    assert calls[..i] == calls;
    whole := b.Contents();
  }
}
