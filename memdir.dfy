/** The in-memory Lucene `Directory` of the LuceneTest prototype
    (`LuceneTest/.../hbase/HBaseDirectory.java` with `HBaseFile.java`): a map
    from file name to `HBaseFile`, each file a list of byte buffers. The
    output stream appends every flushed chunk to the file's buffer list and
    also puts it in the segments table. */
module MemoryDirectory {
  import opened Wrappers
  import opened Bytes
  import SD = SegmentDirectory

  /** `AlreadyClosedException` from `ensureOpen`, `FileNotFoundException`,
      `IndexOutOfBoundsException` from list access,
      `NegativeArraySizeException` from `new byte[size]`, and the failures of
      `Arrays.copyOfRange`. */
  datatype DirectoryError =
    | AlreadyClosed
    | FileNotFound(name: string)
    | IndexOutOfBounds
    | NegativeArraySize
    | CopyFailed(cause: SD.StoreError)

  /** `HBaseFile`: the buffers written so far, the byte count `addBuffer`
      keeps, the owning directory and the modification time. */
  class HBaseFile {
    var buffers: seq<array<byte>>
    var directory: HBaseDirectory?
    var sizeInBytes: long
    var lastModified: long

    /** A new file has no buffers and was last modified at `now`, the clock
        reading taken when it is created. */
    constructor (now: long)
      ensures buffers == [] && directory == null && sizeInBytes == 0 && lastModified == now
    {
      buffers := [];
      directory := null;
      sizeInBytes := 0;
      lastModified := now;
    }

    /** `getLength`: the number of buffers, not of bytes. */
    method GetLength() returns (r: nat)
      ensures r == |buffers|
    {
      r := |buffers|;
    }

    method NumBuffers() returns (r: nat)
      ensures r == |buffers|
    {
      r := |buffers|;
    }

    method GetLastModified() returns (r: long)
      ensures r == lastModified
    {
      r := lastModified;
    }

    method SetLastModified(t: long)
      modifies this
      ensures lastModified == t
      ensures buffers == old(buffers) && sizeInBytes == old(sizeInBytes) && directory == old(directory)
    {
      lastModified := t;
    }

    method GetSizeInBytes() returns (r: long)
      ensures r == sizeInBytes
    {
      r := sizeInBytes;
    }

    /** `newBuffer`: a fresh zero-filled array of the given size. */
    method NewBuffer(size: int32) returns (r: Result<array<byte>, DirectoryError>)
      ensures size < 0 ==> r == Failure(NegativeArraySize)
      ensures 0 <= size ==>
        r.Success? && fresh(r.value) && r.value.Length == size &&
        forall i :: 0 <= i < size ==> r.value[i] == 0
    {
      if size < 0 {
        return Failure(NegativeArraySize);
      }
      var buffer := new byte[size](_ => 0);
      r := Success(buffer);
    }

    /** `addBuffer`: appends a new buffer of the given size, adds the size
        to the byte count, and returns the buffer, which the caller then
        fills in place. */
    method AddBuffer(size: int32) returns (r: Result<array<byte>, DirectoryError>)
      modifies this
      ensures directory == old(directory) && lastModified == old(lastModified)
      ensures size < 0 ==> r == Failure(NegativeArraySize) && buffers == old(buffers) && sizeInBytes == old(sizeInBytes)
      ensures 0 <= size ==>
        r.Success? && fresh(r.value) && r.value.Length == size &&
        buffers == old(buffers) + [r.value] && sizeInBytes == Wrap64(old(sizeInBytes) + size)
    {
      r := NewBuffer(size);
      if r.Success? {
        buffers := buffers + [r.value];
        sizeInBytes := Wrap64(sizeInBytes + size);
      }
    }

    /** `getBuffer`: the buffer appended at that index. */
    method GetBuffer(index: int32) returns (r: Result<array<byte>, DirectoryError>)
      ensures 0 <= index < |buffers| ==> r == Success(buffers[index])
      ensures !(0 <= index < |buffers|) ==> r == Failure(IndexOutOfBounds)
    {
      if index < 0 || index >= |buffers| {
        return Failure(IndexOutOfBounds);
      }
      r := Success(buffers[index]);
    }
  }

  /** The directory. The source keeps the file map in a static field shared
      by every instance; here it belongs to one directory object. */
  class HBaseDirectory {
    var isOpen: bool
    var files: map<string, HBaseFile>
    var sizeInBytes: long
    /** The segments table `flushBuffer` puts each chunk in, by file name. */
    var segments: map<string, seq<byte>>

    constructor ()
      ensures isOpen && files == map[] && sizeInBytes == 0 && segments == map[]
    {
      isOpen := true;
      files := map[];
      sizeInBytes := 0;
      segments := map[];
    }

    /** `listAll`: every file name, once each. */
    method ListAll() returns (r: Result<seq<string>, DirectoryError>)
      ensures !isOpen ==> r == Failure(AlreadyClosed)
      ensures isOpen ==>
        r.Success? && (forall n :: n in r.value <==> n in files) &&
        forall i, j :: 0 <= i < j < |r.value| ==> r.value[i] != r.value[j]
    {
      if !isOpen {
        return Failure(AlreadyClosed);
      }
      var names: seq<string> := [];
      var remaining := files.Keys;
      while remaining != {}
        invariant remaining <= files.Keys
        invariant forall n :: n in names <==> n in files && n !in remaining
        invariant forall i, j :: 0 <= i < j < |names| ==> names[i] != names[j]
        decreases remaining
      {
        var name :| name in remaining;
        names := names + [name];
        remaining := remaining - {name};
      }
      r := Success(names);
    }

    method FileExists(name: string) returns (r: Result<bool, DirectoryError>)
      ensures !isOpen ==> r == Failure(AlreadyClosed)
      ensures isOpen ==> r == Success(name in files)
    {
      if !isOpen {
        return Failure(AlreadyClosed);
      }
      r := Success(name in files);
    }

    /** `fileModified`: the file's modification time. */
    method FileModified(name: string) returns (r: Result<long, DirectoryError>)
      ensures !isOpen ==> r == Failure(AlreadyClosed)
      ensures isOpen && name !in files ==> r == Failure(FileNotFound(name))
      ensures isOpen && name in files ==> r == Success(files[name].lastModified)
    {
      if !isOpen {
        return Failure(AlreadyClosed);
      }
      if name !in files {
        return Failure(FileNotFound(name));
      }
      var time := files[name].GetLastModified();
      r := Success(time);
    }

    /** `touchFile`: the file's modification time becomes `later`, the first
        clock reading after the call started that differs from the first. */
    method TouchFile(name: string, later: long) returns (r: Outcome<DirectoryError>)
      modifies if name in files then {files[name]} else {}
      ensures !isOpen ==> r == Fail(AlreadyClosed)
      ensures isOpen && name !in files ==> r == Fail(FileNotFound(name))
      ensures isOpen && name in files ==> r == Pass && files[name].lastModified == later
      ensures name in files ==>
        var f := files[name];
        f.buffers == old(f.buffers) && f.sizeInBytes == old(f.sizeInBytes) && f.directory == old(f.directory) &&
        (r.Fail? ==> f.lastModified == old(f.lastModified))
    {
      if !isOpen {
        return Fail(AlreadyClosed);
      }
      if name !in files {
        return Fail(FileNotFound(name));
      }
      files[name].SetLastModified(later);
      r := Pass;
    }

    /** `deleteFile`: removes the name's file, detaches it from the
        directory and adds its byte count to the directory's. */
    method DeleteFile(name: string) returns (r: Outcome<DirectoryError>)
      modifies this, if name in files then {files[name]} else {}
      ensures isOpen == old(isOpen) && segments == old(segments)
      ensures !old(isOpen) ==> r == Fail(AlreadyClosed) && files == old(files) && sizeInBytes == old(sizeInBytes)
      ensures old(isOpen) && name !in old(files) ==>
        r == Fail(FileNotFound(name)) && files == old(files) && sizeInBytes == old(sizeInBytes)
      ensures old(isOpen) && name in old(files) ==>
        r == Pass && files == old(files) - {name} && old(files)[name].directory == null &&
        sizeInBytes == Wrap64(old(sizeInBytes) + old(files[name].sizeInBytes))
      ensures name in old(files) ==>
        var f := old(files)[name];
        f.buffers == old(f.buffers) && f.sizeInBytes == old(f.sizeInBytes) && f.lastModified == old(f.lastModified) &&
        (!old(isOpen) ==> f.directory == old(f.directory))
    {
      if !isOpen {
        return Fail(AlreadyClosed);
      }
      if name !in files {
        return Fail(FileNotFound(name));
      }
      var file := files[name];
      files := files - {name};
      file.directory := null;
      sizeInBytes := Wrap64(sizeInBytes + file.sizeInBytes);
      r := Pass;
    }

    /** `fileLength`: the file's `getLength`, its number of buffers. */
    method FileLength(name: string) returns (r: Result<nat, DirectoryError>)
      ensures !isOpen ==> r == Failure(AlreadyClosed)
      ensures isOpen && name !in files ==> r == Failure(FileNotFound(name))
      ensures isOpen && name in files ==> r == Success(|files[name].buffers|)
    {
      if !isOpen {
        return Failure(AlreadyClosed);
      }
      if name !in files {
        return Failure(FileNotFound(name));
      }
      var length := files[name].GetLength();
      r := Success(length);
    }

    /** `createOutput`: a fresh empty file under the name, replacing any
        file of that name, and a stream writing it. */
    method CreateOutput(name: string, now: long) returns (r: Result<HBaseIndexOutput, DirectoryError>)
      modifies this
      ensures isOpen == old(isOpen) && sizeInBytes == old(sizeInBytes) && segments == old(segments)
      ensures !old(isOpen) ==> r == Failure(AlreadyClosed) && files == old(files)
      ensures old(isOpen) ==>
        r.Success? && fresh(r.value) && fresh(r.value.file) &&
        files == old(files)[name := r.value.file] &&
        r.value.dir == this && r.value.name == name &&
        r.value.file.buffers == [] && r.value.file.sizeInBytes == 0 && r.value.file.lastModified == now
    {
      if !isOpen {
        return Failure(AlreadyClosed);
      }
      var file := new HBaseFile(now);
      files := files[name := file];
      var output := new HBaseIndexOutput(this, name);
      r := Success(output);
    }

    /** `close`: no state check; the directory is closed and its file map
        emptied. */
    method Close()
      modifies this
      ensures !isOpen && files == map[]
      ensures sizeInBytes == old(sizeInBytes) && segments == old(segments)
    {
      isOpen := false;
      files := map[];
    }
  }

  /** `HBaseIndexOutput`: the stream `createOutput` returns, bound to the file
      the map held under its name when it was made. */
  class HBaseIndexOutput {
    const dir: HBaseDirectory
    const file: HBaseFile
    const name: string

    constructor (dir: HBaseDirectory, name: string)
      requires name in dir.files
      ensures this.dir == dir && this.name == name && file == dir.files[name]
    {
      this.dir := dir;
      this.name := name;
      file := dir.files[name];
    }

    /** `flushBuffer`: copies `b[offset, offset + len)` (the end index in
        Java `int` arithmetic), appends the copy to the file's buffers and
        puts it in the name's segments cell. */
    method FlushBuffer(b: array<byte>, offset: int32, len: int32) returns (r: Outcome<DirectoryError>)
      modifies file, dir
      ensures file.sizeInBytes == old(file.sizeInBytes) && file.lastModified == old(file.lastModified)
      ensures file.directory == old(file.directory)
      ensures dir.isOpen == old(dir.isOpen) && dir.files == old(dir.files) && dir.sizeInBytes == old(dir.sizeInBytes)
      ensures SD.CopyOfRange(b[..], offset, Wrap32(offset + len)).Failure? ==>
        r == Fail(CopyFailed(SD.CopyOfRange(b[..], offset, Wrap32(offset + len)).error)) &&
        file.buffers == old(file.buffers) && dir.segments == old(dir.segments)
      ensures SD.CopyOfRange(b[..], offset, Wrap32(offset + len)).Success? ==>
        r == Pass && |file.buffers| == |old(file.buffers)| + 1 &&
        file.buffers[..|old(file.buffers)|] == old(file.buffers) && fresh(file.buffers[|old(file.buffers)|]) &&
        file.buffers[|old(file.buffers)|][..] == SD.CopyOfRange(b[..], offset, Wrap32(offset + len)).value &&
        dir.segments == old(dir.segments)[name := SD.CopyOfRange(b[..], offset, Wrap32(offset + len)).value]
    {
      var copied := SD.CopyOfRange(b[..], offset, Wrap32(offset + len));
      if copied.Failure? {
        return Fail(CopyFailed(copied.error));
      }
      var bytes := copied.value;
      var write := new byte[|bytes|](i requires 0 <= i < |bytes| => bytes[i]);
      file.buffers := file.buffers + [write];
      dir.segments := dir.segments[name := bytes];
      r := Pass;
    }

    /** `length`: the file's `getLength`, its number of buffers. */
    method Length() returns (r: nat)
      ensures r == |file.buffers|
    {
      r := file.GetLength();
    }
  }

  /** A file written as a sequence of chunks reports as its length the
      number of chunks, not the number of bytes; every chunk is kept, in
      order, as one buffer. */
  method WriteChunks(dir: HBaseDirectory, name: string, now: long, chunks: seq<seq<byte>>) returns (length: nat)
    requires dir.isOpen
    requires forall c :: c in chunks ==> |c| < 0x8000_0000
    modifies dir
    ensures name in dir.files && length == |dir.files[name].buffers| == |chunks|
    ensures forall i :: 0 <= i < |chunks| ==> dir.files[name].buffers[i][..] == chunks[i]
  {
    var created := dir.CreateOutput(name, now);
    var output := created.value;
    var i := 0;
    while i < |chunks|
      invariant 0 <= i <= |chunks|
      invariant dir.isOpen && name in dir.files && dir.files[name] == output.file && output.dir == dir
      invariant |output.file.buffers| == i
      invariant forall k :: 0 <= k < i ==> output.file.buffers[k][..] == chunks[k]
      modifies dir, output.file
    {
      var chunk := chunks[i];
      var b := new byte[|chunk|](k requires 0 <= k < |chunk| => chunk[k]);
      var _ := output.FlushBuffer(b, 0, |chunk|);
      i := i + 1;
    }
    var reported := dir.FileLength(name);
    length := reported.value;
  }
}
