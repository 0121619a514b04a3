/** The HBase-backed Lucene `Directory` (`org.apache.james.mailbox.lucene.hbase.HBaseDirectory`):
    each index file is one row of the segments table whose single cell holds
    the whole file. An output stream keeps the file in a byte array with a
    cursor and writes the array to the table on `flush`; an input stream
    reads the stored bytes once and walks them with a pointer. */
module SegmentDirectory {
  import opened Wrappers
  import opened Bytes
  import opened ScanOrder
  import Utf8

  /** The unchecked exceptions the directory and its streams throw:
      `IllegalStateException` from `checkState`, `IndexOutOfBoundsException`
      from `checkPositionIndex` and from array copies, and
      `IllegalArgumentException` from `Arrays.copyOfRange`. */
  datatype StoreError = IllegalState | IndexOutOfBounds | IllegalArgument

  /** The byte `readByte` returns on a stream that is not open. */
  const NotOpenByte: byte := 'b' as int

  class HBaseDirectory {
    var open: bool
    /** The segments table: file name to file contents. */
    var segments: map<string, seq<byte>>

    /** The constructor drops and recreates the segments table and opens the
        directory. */
    constructor ()
      ensures open && segments == map[]
    {
      open := true;
      segments := map[];
    }

    /** `listAll`: the scan of the segments table hands over the rows in
        ascending byte order of their keys, and each key is decoded back
        into a file name; so every stored name comes once, in ascending
        order of its UTF-8 bytes. */
    method ListAll() returns (r: Result<seq<string>, StoreError>)
      ensures !open ==> r == Failure(IllegalState)
      ensures open ==> r.Success? && Encodings(r.value) == SortedKeys(SegmentRows(segments))
      ensures open ==> r.Success? && Ascending(Encodings(r.value))
      ensures open ==>
        r.Success? && (forall n :: n in r.value <==> n in segments) &&
        forall i, j :: 0 <= i < j < |r.value| ==> r.value[i] != r.value[j]
    {
      if !open {
        return Failure(IllegalState);
      }
      var rows := SortedKeys(SegmentRows(segments));
      var files: seq<string> := [];
      var i := 0;
      while i < |rows|
        invariant 0 <= i <= |rows|
        invariant Encodings(files) == rows[..i]
      {
        var name := Utf8.Decode(rows[i]);
        DecodedRow(segments, rows[i]);
        EncodingsSnoc(files, name);
        assert rows[..i + 1] == rows[..i] + [rows[i]];
        files := files + [name];
        i := i + 1;
      }
      assert rows[..i] == rows;
      ListedNames(files, segments);
      r := Success(files);
    }

    /** `fileExists`: whether the table has a row for the name. */
    method FileExists(name: string) returns (r: Result<bool, StoreError>)
      ensures !open ==> r == Failure(IllegalState)
      ensures open ==> r == Success(name in segments)
    {
      if !open {
        return Failure(IllegalState);
      }
      r := Success(name in segments);
    }

    /** `deleteFile`: deletes the name's row; deleting a missing row is
        allowed. */
    method DeleteFile(name: string) returns (r: Outcome<StoreError>)
      modifies this
      ensures !old(open) ==> r == Fail(IllegalState) && segments == old(segments)
      ensures old(open) ==> r == Pass && segments == old(segments) - {name}
      ensures open == old(open)
    {
      if !open {
        return Fail(IllegalState);
      }
      segments := segments - {name};
      r := Pass;
    }

    /** `fileLength`: the length an input stream on the name reports; for a
        missing name that stream is not open and `length` fails its state
        check. */
    method FileLength(name: string) returns (r: Result<nat, StoreError>)
      ensures !open ==> r == Failure(IllegalState)
      ensures open && name in segments ==> r == Success(|segments[name]|)
      ensures open && name !in segments ==> r == Failure(IllegalState)
    {
      if !open {
        return Failure(IllegalState);
      }
      var input := new HIndexInput(this, name);
      r := input.Length();
      input.Close();
    }

    /** `createOutput`: a new, empty, open output stream for the name; the
        table is not touched until the stream flushes. */
    method CreateOutput(name: string) returns (r: Result<HIndexOutput, StoreError>)
      ensures !open ==> r == Failure(IllegalState)
      ensures open ==>
        r.Success? && fresh(r.value) && r.value.dir == this && r.value.name == name &&
        r.value.open && r.value.contents == [] && r.value.position == 0
    {
      if !open {
        return Failure(IllegalState);
      }
      var output := new HIndexOutput(this, name);
      r := Success(output);
    }

    /** `openInput`: an input stream on the name's stored bytes. */
    method OpenInput(name: string) returns (r: Result<HIndexInput, StoreError>)
      ensures !open ==> r == Failure(IllegalState)
      ensures open ==>
        r.Success? && fresh(r.value) && r.value.pointer == 0 &&
        (name in segments ==> r.value.open && r.value.contents == segments[name]) &&
        (name !in segments ==> !r.value.open)
    {
      if !open {
        return Failure(IllegalState);
      }
      var input := new HIndexInput(this, name);
      r := Success(input);
    }

    /** `close` as written: it checks that the directory is open and then
        sets the open flag to true again, so the directory stays open. */
    method Close() returns (r: Outcome<StoreError>)
      modifies this
      ensures !old(open) ==> r == Fail(IllegalState)
      ensures old(open) ==> r == Pass
      ensures open == old(open) && segments == old(segments)
    {
      if !open {
        return Fail(IllegalState);
      }
      open := true;
      r := Pass;
    }

    /** `close` as intended: the directory is closed afterwards, so every
        later operation fails its state check. */
    method CloseIntended() returns (r: Outcome<StoreError>)
      modifies this
      ensures !old(open) ==> r == Fail(IllegalState) && !open
      ensures old(open) ==> r == Pass && !open
      ensures segments == old(segments)
    {
      if !open {
        return Fail(IllegalState);
      }
      open := false;
      r := Pass;
    }
  }

  /** The row keys of the segments table: each file name's UTF-8 bytes. */
  function SegmentRows(segments: map<string, seq<byte>>): set<seq<byte>>
  {
    set n | n in segments :: Utf8.Encode(n)
  }

  /** The UTF-8 bytes of each name, in order. */
  function Encodings(names: seq<string>): (r: seq<seq<byte>>)
    ensures |r| == |names|
    ensures forall i :: 0 <= i < |names| ==> r[i] == Utf8.Encode(names[i])
  {
    seq(|names|, i requires 0 <= i < |names| => Utf8.Encode(names[i]))
  }

  lemma EncodingsSnoc(names: seq<string>, n: string)
    ensures Encodings(names + [n]) == Encodings(names) + [Utf8.Encode(n)]
  {
    assert (names + [n])[|names|] == n;
    assert forall i :: 0 <= i < |names| ==> (names + [n])[i] == names[i];
  }

  /** Every row key of the segments table decodes to the name it was
      written for. */
  lemma DecodedRow(segments: map<string, seq<byte>>, row: seq<byte>)
    requires row in SegmentRows(segments)
    ensures Utf8.Decode(row) in segments && Utf8.Encode(Utf8.Decode(row)) == row
  {
    var n :| n in segments && Utf8.Encode(n) == row;
    Utf8.DecodeEncode(n);
  }

  /** Names whose encodings are the sorted row keys are exactly the stored
      names, each once. */
  lemma ListedNames(files: seq<string>, segments: map<string, seq<byte>>)
    requires Encodings(files) == SortedKeys(SegmentRows(segments))
    ensures forall n :: n in files <==> n in segments
    ensures forall i, j :: 0 <= i < j < |files| ==> files[i] != files[j]
  {
    var rows := SortedKeys(SegmentRows(segments));
    forall n | n in segments
      ensures n in files
    {
      assert Utf8.Encode(n) in SegmentRows(segments);
      var k :| 0 <= k < |rows| && rows[k] == Utf8.Encode(n);
      Utf8.EncodeInjective(files[k], n);
    }
    forall k | 0 <= k < |files|
      ensures files[k] in segments
    {
      assert rows[k] in SegmentRows(segments);
      var m :| m in segments && Utf8.Encode(m) == rows[k];
      Utf8.EncodeInjective(files[k], m);
    }
    forall i, j | 0 <= i < j < |files|
      ensures files[i] != files[j]
    {
      assert Precedes(rows, i, j);
    }
  }

  /** `Arrays.copyOfRange(b, from, to)`: the new length `to - from` is
      computed in Java `int` arithmetic and checked first (a negative one
      throws `IllegalArgumentException`); then `from` must lie within `b`
      or at its end (`ArrayIndexOutOfBoundsException` from the array
      copy); the copy is padded with zeros past the end of `b`. */
  function CopyOfRange(b: seq<byte>, from: int32, to: int32): (r: Result<seq<byte>, StoreError>)
    ensures Wrap32(to - from) < 0 ==> r == Failure(IllegalArgument)
    ensures 0 <= Wrap32(to - from) && !(0 <= from <= |b|) ==> r == Failure(IndexOutOfBounds)
    ensures 0 <= Wrap32(to - from) && 0 <= from <= |b| ==> r.Success? && |r.value| == Wrap32(to - from)
    ensures r.Success? && from <= to ==> |r.value| == to - from
    ensures r.Success? ==> forall i :: 0 <= i < |r.value| ==>
      r.value[i] == (if from + i < |b| then b[from + i] else 0)
  {
    var newLength := Wrap32(to - from);
    if newLength < 0 then Failure(IllegalArgument)
    else if from < 0 || from > |b| then Failure(IndexOutOfBounds)
    else
      Success(seq(newLength, (i: int) => if 0 <= i && from + i < |b| then b[from + i] else 0))
  }

  /** The length is checked before the start index: a negative start with
      an end before it is an illegal argument, not an index out of
      bounds. */
  lemma CopyOfRangeChecksLengthFirst()
    ensures CopyOfRange([1, 2, 3], -1, -6) == Failure(IllegalArgument)
    ensures CopyOfRange([1, 2, 3], -1, 2) == Failure(IndexOutOfBounds)
    ensures CopyOfRange([1, 2, 3], 4, 4) == Failure(IndexOutOfBounds)
  {
  }

  /** Where `to - from` overflows, the wrapped length is non-negative and
      the start index decides: `copyOfRange(b, 1, -2^31)` passes the length
      check. */
  lemma CopyOfRangeLengthWraps()
    ensures Wrap32(-0x8000_0000 - 1) == 0x7FFF_FFFF
    ensures CopyOfRange([], 1, -0x8000_0000) == Failure(IndexOutOfBounds)
  {
  }

  /** The bytes `writeBytes(b, offset, length)` is meant to append, as
      Lucene's `DataOutput` defines it: `length` bytes starting at
      `offset`. */
  function IntendedRange(b: seq<byte>, offset: int, length: int): (r: Result<seq<byte>, StoreError>)
    ensures r.Success? <==> 0 <= offset && 0 <= length && offset + length <= |b|
    ensures r.Success? ==> |r.value| == length && forall i :: 0 <= i < length ==> r.value[i] == b[offset + i]
  {
    if offset < 0 || length < 0 || offset + length > |b| then Failure(IndexOutOfBounds)
    else Success(b[offset..offset + length])
  }

  /** With a non-zero offset the written range is `offset` bytes short:
      `writeBytes([1, 2, 3], 1, 2)` appends `[2]` where `[2, 3]` is meant. */
  lemma WriteBytesEndIndex()
    ensures CopyOfRange([1, 2, 3], 1, 2) == Success([2])
    ensures IntendedRange([1, 2, 3], 1, 2) == Success([2, 3])
  {
    var written := CopyOfRange([1, 2, 3], 1, 2);
    assert |written.value| == 1 && written.value[0] == 2;
    assert written.value == [2];
    assert [1, 2, 3][1..3] == [2, 3];
  }

  /** From offset 0 the two agree, which is how every caller at that offset
      sees the intended behaviour. */
  lemma WriteBytesAtZero(b: seq<byte>, length: int32)
    requires 0 <= length <= |b|
    ensures CopyOfRange(b, 0, length) == IntendedRange(b, 0, length)
  {
    var written, intended := CopyOfRange(b, 0, length), IntendedRange(b, 0, length);
    assert written.value == intended.value;
  }

  /** `HIndexOutput`: the whole file in `contents`, written at `position`. */
  class HIndexOutput {
    const dir: HBaseDirectory
    const name: string
    var contents: seq<byte>
    var open: bool
    var position: int

    ghost predicate Valid()
      reads this
    {
      0 <= position <= |contents|
    }

    constructor (dir: HBaseDirectory, name: string)
      ensures this.dir == dir && this.name == name
      ensures open && contents == [] && position == 0 && Valid()
    {
      this.dir := dir;
      this.name := name;
      contents := [];
      open := true;
      position := 0;
    }

    /** `writeByte`: at the end the byte is appended, elsewhere it
        overwrites the byte at the position; the position advances. */
    method WriteByte(b: byte) returns (r: Outcome<StoreError>)
      requires Valid()
      modifies this
      ensures Valid() && open == old(open)
      ensures !old(open) ==> r == Fail(IllegalState) && contents == old(contents) && position == old(position)
      ensures old(open) && old(position) == |old(contents)| ==>
        r == Pass && contents == old(contents) + [b] && position == |contents|
      ensures old(open) && old(position) < |old(contents)| ==>
        r == Pass && contents == old(contents)[old(position) := b] && position == old(position) + 1
    {
      if !open {
        return Fail(IllegalState);
      }
      if position == |contents| {
        contents := contents + [b];
        position := |contents|;
      } else {
        contents := contents[position := b];
        position := position + 1;
      }
      r := Pass;
    }

    /** `writeBytes` as written: `checkPositionIndex(offset, b.length)`
        first, then appends `CopyOfRange(b, offset, length)` at the end of
        the file, whatever the position, and moves the position to the
        end. */
    method WriteBytes(b: seq<byte>, offset: int32, length: int32) returns (r: Outcome<StoreError>)
      requires Valid()
      modifies this
      ensures Valid() && open == old(open)
      ensures !old(open) ==> r == Fail(IllegalState) && contents == old(contents) && position == old(position)
      ensures old(open) && !(0 <= offset <= |b|) ==>
        r == Fail(IndexOutOfBounds) && contents == old(contents) && position == old(position)
      ensures old(open) && 0 <= offset <= |b| ==> match CopyOfRange(b, offset, length)
        case Failure(e) => r == Fail(e) && contents == old(contents) && position == old(position)
        case Success(bytes) => r == Pass && contents == old(contents) + bytes && position == |contents|
    {
      if !open {
        return Fail(IllegalState);
      }
      if offset < 0 || offset > |b| {
        return Fail(IndexOutOfBounds);
      }
      var copied := CopyOfRange(b, offset, length);
      if copied.Failure? {
        return Fail(copied.error);
      }
      contents := contents + copied.value;
      position := |contents|;
      r := Pass;
    }

    method GetFilePointer() returns (r: Result<int, StoreError>)
      ensures !open ==> r == Failure(IllegalState)
      ensures open ==> r == Success(position)
    {
      if !open {
        return Failure(IllegalState);
      }
      r := Success(position);
    }

    /** `seek`: the position becomes `(int) pos`, which must lie within the
        file or at its end. */
    method Seek(pos: long) returns (r: Outcome<StoreError>)
      requires Valid()
      modifies this
      ensures Valid() && open == old(open) && contents == old(contents)
      ensures !old(open) ==> r == Fail(IllegalState) && position == old(position)
      ensures old(open) && !(0 <= Wrap32(pos) <= |contents|) ==> r == Fail(IndexOutOfBounds) && position == old(position)
      ensures old(open) && 0 <= Wrap32(pos) <= |contents| ==> r == Pass && position == Wrap32(pos)
    {
      if !open {
        return Fail(IllegalState);
      }
      var p := Wrap32(pos);
      if p < 0 || p > |contents| {
        return Fail(IndexOutOfBounds);
      }
      position := p;
      r := Pass;
    }

    method Length() returns (r: Result<nat, StoreError>)
      ensures !open ==> r == Failure(IllegalState)
      ensures open ==> r == Success(|contents|)
    {
      if !open {
        return Failure(IllegalState);
      }
      r := Success(|contents|);
    }

    /** `flush`: the whole file replaces the name's row, and the position
        returns to 0; the file is kept, not truncated. */
    method Flush() returns (r: Outcome<StoreError>)
      requires Valid()
      modifies this, dir
      ensures Valid() && open == old(open) && contents == old(contents)
      ensures dir.open == old(dir.open)
      ensures !old(open) ==> r == Fail(IllegalState) && position == old(position) && dir.segments == old(dir.segments)
      ensures old(open) ==> r == Pass && position == 0 && dir.segments == old(dir.segments)[name := contents]
    {
      if !open {
        return Fail(IllegalState);
      }
      dir.segments := dir.segments[name := contents];
      position := 0;
      r := Pass;
    }

    /** `close`: flushes, then the stream is closed. */
    method Close() returns (r: Outcome<StoreError>)
      requires Valid()
      modifies this, dir
      ensures Valid() && !open && contents == old(contents)
      ensures dir.open == old(dir.open)
      ensures !old(open) ==> r == Fail(IllegalState) && position == old(position) && dir.segments == old(dir.segments)
      ensures old(open) ==> r == Pass && position == 0 && dir.segments == old(dir.segments)[name := contents]
    {
      if !open {
        return Fail(IllegalState);
      }
      r := Flush();
      open := false;
    }
  }

  /** `HIndexInput`: the bytes stored under a name, read through a
      pointer. */
  class HIndexInput {
    var contents: seq<byte>
    var open: bool
    var pointer: int

    /** On a stored name the stream holds its bytes and is open; on a
        missing name it stays not open (the state check before its throw
        sees the initial `false`). */
    constructor (dir: HBaseDirectory, name: string)
      ensures pointer == 0
      ensures name in dir.segments ==> open && contents == dir.segments[name]
      ensures name !in dir.segments ==> !open && contents == []
    {
      pointer := 0;
      if name in dir.segments {
        contents := dir.segments[name];
        open := true;
      } else {
        contents := [];
        open := false;
      }
    }

    method Close()
      modifies this
      ensures !open && contents == old(contents) && pointer == old(pointer)
    {
      if open {
        open := false;
      }
    }

    method GetFilePointer() returns (r: Result<int, StoreError>)
      ensures !open ==> r == Failure(IllegalState)
      ensures open ==> r == Success(pointer)
    {
      if !open {
        return Failure(IllegalState);
      }
      r := Success(pointer);
    }

    /** `seek`: the pointer becomes `(int) pos`, unchecked. */
    method Seek(pos: long) returns (r: Outcome<StoreError>)
      modifies this
      ensures open == old(open) && contents == old(contents)
      ensures !old(open) ==> r == Fail(IllegalState) && pointer == old(pointer)
      ensures old(open) ==> r == Pass && pointer == Wrap32(pos)
    {
      if !open {
        return Fail(IllegalState);
      }
      pointer := Wrap32(pos);
      r := Pass;
    }

    method Length() returns (r: Result<nat, StoreError>)
      ensures !open ==> r == Failure(IllegalState)
      ensures open ==> r == Success(|contents|)
    {
      if !open {
        return Failure(IllegalState);
      }
      r := Success(|contents|);
    }

    /** `readByte`: the byte at the pointer, which then advances; a stream
        that is not open answers `'b'`. A pointer outside the file fails the
        position check, except a pointer at the very end: that one passes
        it, is incremented by the index expression, and only then fails the
        array access. */
    method ReadByte() returns (r: Result<byte, StoreError>)
      modifies this
      ensures open == old(open) && contents == old(contents)
      ensures !old(open) ==> r == Success(NotOpenByte) && pointer == old(pointer)
      ensures old(open) && 0 <= old(pointer) < |contents| ==>
        r == Success(contents[old(pointer)]) && pointer == old(pointer) + 1
      ensures old(open) && old(pointer) == |contents| ==>
        r == Failure(IndexOutOfBounds) && pointer == old(pointer) + 1
      ensures old(open) && !(0 <= old(pointer) <= |contents|) ==>
        r == Failure(IndexOutOfBounds) && pointer == old(pointer)
    {
      if !open {
        return Success(NotOpenByte);
      }
      if pointer < 0 || pointer > |contents| {
        return Failure(IndexOutOfBounds);
      }
      var index := pointer;
      pointer := pointer + 1;
      if index == |contents| {
        return Failure(IndexOutOfBounds);
      }
      r := Success(contents[index]);
    }

    /** `readBytes`: copies `len` bytes from the pointer into `b` at
        `offset` and advances the pointer by `len`; the range must lie in
        the file and in `b`. */
    method ReadBytes(b: array<byte>, offset: int32, len: int32) returns (r: Outcome<StoreError>)
      modifies this, b
      ensures open == old(open) && contents == old(contents)
      ensures !old(open) ==> r == Fail(IllegalState) && pointer == old(pointer) && b[..] == old(b[..])
      ensures old(open) && !ReadRangeValid(old(pointer), |contents|, b.Length, offset, len) ==>
        r == Fail(IndexOutOfBounds) && pointer == old(pointer) && b[..] == old(b[..])
      ensures old(open) && ReadRangeValid(old(pointer), |contents|, b.Length, offset, len) ==>
        r == Pass && pointer == old(pointer) + len &&
        b[..] == old(b[..offset]) + contents[old(pointer)..old(pointer) + len] + old(b[offset + len..])
    {
      if !open {
        return Fail(IllegalState);
      }
      if !ReadRangeValid(pointer, |contents|, b.Length, offset, len) {
        return Fail(IndexOutOfBounds);
      }
      var source, start := contents, pointer;
      var k := 0;
      while k < len
        invariant 0 <= k <= len
        invariant b[..offset] == old(b[..offset]) && b[offset + len..] == old(b[offset + len..])
        invariant b[offset..offset + k] == source[start..start + k]
        modifies b
      {
        b[offset + k] := source[start + k];
        assert b[offset..offset + k + 1] == b[offset..offset + k] + [source[start + k]];
        assert source[start..start + k + 1] == source[start..start + k] + [source[start + k]];
        k := k + 1;
      }
      assert b[..] == b[..offset] + b[offset..offset + len] + b[offset + len..];
      pointer := pointer + len;
      r := Pass;
    }
  }

  /** The checks of `readBytes`: `checkPositionIndex(pointer + len, length)`
      and those of `System.arraycopy`. */
  predicate ReadRangeValid(pointer: int, length: nat, capacity: nat, offset: int, len: int)
  {
    0 <= pointer && 0 <= len && pointer + len <= length && 0 <= offset && offset + len <= capacity
  }

  /** A file written byte by byte, closed and opened again reads back as
      written. */
  method WriteThenRead(dir: HBaseDirectory, name: string, data: seq<byte>) returns (read: seq<byte>)
    requires dir.open
    modifies dir
    ensures dir.segments == old(dir.segments)[name := data]
    ensures read == data
  {
    var created := dir.CreateOutput(name);
    var output := created.value;
    var i := 0;
    while i < |data|
      invariant 0 <= i <= |data|
      invariant output.open && output.Valid() && output.contents == data[..i] && output.position == i
      invariant dir.segments == old(dir.segments) && dir.open
      modifies output
    {
      var _ := output.WriteByte(data[i]);
      assert data[..i + 1] == data[..i] + [data[i]];
      i := i + 1;
    }
    var _ := output.Close();
    assert data[..i] == data;
    var input := new HIndexInput(dir, name);
    read := [];
    while |read| < |data|
      invariant input.open && input.contents == data && input.pointer == |read| <= |data|
      invariant read == data[..|read|]
      modifies input
    {
      var b := input.ReadByte();
      assert data[..|read| + 1] == data[..|read|] + [data[|read|]];
      read := read + [b.value];
    }
    assert data[..|data|] == data;
  }

  /** The start index is checked against the array before the copy: an
      offset past the end, or a negative one, is out of bounds even where
      the copy itself would reject the length first, and the file is left
      as it was. */
  method WriteBytesChecksOffsetFirst(out: HIndexOutput) returns (past: Outcome<StoreError>, negative: Outcome<StoreError>)
    requires out.Valid() && out.open
    modifies out
    ensures past == Fail(IndexOutOfBounds) && negative == Fail(IndexOutOfBounds)
    ensures out.contents == old(out.contents) && out.position == old(out.position)
  {
    assert CopyOfRange([1, 2, 3], 4, 2) == Failure(IllegalArgument);
    past := out.WriteBytes([1, 2, 3], 4, 2);
    negative := out.WriteBytes([1, 2, 3], -1, -5);
  }
}
