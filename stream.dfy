/**
 * The PSR-7 stream (src/Http/Message/Stream.php): a wrapper around a PHP
 * stream resource that caches three capability flags and a size. The
 * resource itself is modelled as an object holding its bytes, a cursor, an
 * open flag and the metadata PHP reports for it.
 */
module Streams {
  import opened Wrappers

  /** The `'read'` half of the class's mode table: modes it takes as readable. */
  const ReadModes: set<string> := {
    "r", "w+", "r+", "x+", "c+", "rb", "w+b", "r+b", "x+b",
    "c+b", "rt", "w+t", "r+t", "x+t", "c+t", "a+"}

  /** The `'write'` half of the class's mode table: modes it takes as writable. */
  const WriteModes: set<string> := {
    "w", "w+", "rw", "r+", "x+", "c+", "wb", "w+b", "r+b",
    "x+b", "c+b", "w+t", "r+t", "x+t", "c+t", "a", "a+"}

  /** How `fopen` reads a mode: 'r' opens for reading, and a '+' anywhere adds the other direction. */
  predicate FopenReads(mode: string) {
    mode != [] && (mode[0] == 'r' || '+' in mode)
  }

  /** 'w', 'a', 'x' and 'c' open for writing, and a '+' anywhere adds the other direction. */
  predicate FopenWrites(mode: string) {
    mode != [] && (mode[0] in {'w', 'a', 'x', 'c'} || '+' in mode)
  }

  /**
   * The table is not the `fopen` rule: "rw" opens read-only yet is listed as
   * writable, plain "x", "c" and "ab" open for writing yet are not listed,
   * and "a+b" opens for reading yet is not listed as readable.
   */
  lemma ModeTableDisagreesWithFopen()
    ensures "rw" in WriteModes && !FopenWrites("rw")
    ensures "x" !in WriteModes && FopenWrites("x")
    ensures "c" !in WriteModes && FopenWrites("c")
    ensures "ab" !in WriteModes && FopenWrites("ab")
    ensures "a+b" !in ReadModes && FopenReads("a+b")
  {
    assert "rw"[0] == 'r' && "rw" != "w+";
    assert '+' !in "rw";
    assert "x"[0] == 'x';
    assert "c"[0] == 'c';
    assert "ab"[0] == 'a';
    assert "a+b"[1] == '+';
  }

  /** Every mode the table lists as readable really opens for reading. */
  lemma ReadModesRead(mode: string)
    requires mode in ReadModes
    ensures FopenReads(mode)
  {
    assert mode[0] == 'r' || mode[1] == '+';
  }

  datatype Whence = SeekSet | SeekCur | SeekEnd

  /** Modes whose writes always go to the end of the bytes, wherever the cursor is. */
  predicate Appends(mode: string) {
    mode != [] && mode[0] == 'a'
  }

  /**
   * An open file handle as PHP's stream layer presents it. `eof` is the
   * stream's end-of-file flag: a read that runs out of bytes sets it, and a
   * successful seek clears it.
   */
  class Resource {
    var data: string
    var pos: nat
    var open: bool
    var eof: bool
    const mode: string
    const seekable: bool
    const uri: string

    ghost predicate Valid()
      reads this
    {
      pos <= |data|
    }

    constructor (data: string, mode: string, seekable: bool, uri: string)
      ensures Valid() && this.data == data && pos == 0 && open && !eof
      ensures this.mode == mode && this.seekable == seekable && this.uri == uri
    {
      this.data := data;
      this.pos := 0;
      this.open := true;
      this.eof := false;
      this.mode := mode;
      this.seekable := seekable;
      this.uri := uri;
    }
  }

  /** Bytes `s` written over `d` from position `p`, extending `d` when they run past its end. */
  function Overwrite(d: string, p: nat, s: string): (r: string)
    requires p <= |d|
    ensures |r| == if p + |s| <= |d| then |d| else p + |s|
    ensures r[..p] == d[..p] && r[p..p + |s|] == s
    ensures p + |s| <= |d| ==> r[p + |s|..] == d[p + |s|..]
  {
    if p + |s| <= |d| then d[..p] + s + d[p + |s|..] else d[..p] + s
  }

  /** The position `fseek` aims at. */
  function SeekTarget(offset: int, whence: Whence, pos: nat, size: nat): int {
    match whence
    case SeekSet => offset
    case SeekCur => pos + offset
    case SeekEnd => size + offset
  }

  /** What `getMetadata` answers. */
  datatype Metadata =
    | NoMetadata                                   // `[]`: no resource, no key
    | NullValue                                    // `null`
    | All(mode: string, seekable: bool, uri: string, eof: bool)
    | Text(text: string)
    | Flag(flag: bool)

  class Stream {
    var stream: Resource?
    var isReadable: bool
    var isWritable: bool
    var isSeekable: bool
    var size: Option<int>
    var uri: string

    /**
     * The cached size is never filled in (see GetSize), and a stream without
     * a resource reports no capability.
     */
    ghost predicate Valid()
      reads this, stream
    {
      && size.None?
      && (stream == null ==> !isReadable && !isWritable && !isSeekable)
      && (stream != null ==> stream.Valid())
    }

    /** `is_resource($this->stream)`: false once detached and once closed. */
    predicate HasResource()
      reads this, stream
    {
      stream != null && stream.open
    }

    /** The constructor once `is_resource` has held: the flags come from the resource's metadata. */
    constructor Wrap(res: Resource)
      requires res.Valid() && res.open
      ensures Valid() && stream == res && size.None? && uri == res.uri
      ensures isSeekable == res.seekable
      ensures isReadable == (res.mode in ReadModes) && isWritable == (res.mode in WriteModes)
      ensures GetMetadata("seekable") == Flag(isSeekable) && GetMetadata("mode") == Text(res.mode)
    {
      stream := res;
      isSeekable := res.seekable;
      isReadable := res.mode in ReadModes;
      isWritable := res.mode in WriteModes;
      size := None;
      uri := res.uri;
    }

    /** `new Stream($stream)`: anything but an open resource is refused. */
    static method Open(res: Resource?) returns (r: Result<Stream>)
      requires res != null ==> res.Valid()
      ensures r.Err? <==> res == null || !res.open
      ensures r.Err? ==> r.error == NotAResource
      ensures r.Ok? ==> fresh(r.value) && r.value.Valid() && r.value.stream == res
                        && r.value.isReadable == (res.mode in ReadModes)
                        && r.value.isWritable == (res.mode in WriteModes)
                        && r.value.isSeekable == res.seekable
    {
      if res == null || !res.open {
        return Err(NotAResource);
      }
      var s := new Stream.Wrap(res);
      return Ok(s);
    }

    /**
     * `detach`: hands the resource out and forgets it, clearing every flag. A
     * stream without an open resource answers null and stays as it is.
     */
    method Detach() returns (r: Resource?)
      requires Valid()
      modifies this
      ensures Valid()
      ensures old(HasResource()) ==> r == old(stream) && stream == null && size.None?
                                     && !isReadable && !isWritable && !isSeekable && uri == old(uri)
      ensures !old(HasResource()) ==> r == null && unchanged(this)
    {
      if !HasResource() {
        return null;
      }
      r := stream;
      stream := null;
      size := None;
      isReadable := false;
      isWritable := false;
      isSeekable := false;
    }

    /**
     * `close`: `fclose`, then `detach`. Once closed the resource is no longer a
     * resource to `is_resource`, so `detach` does nothing: the stream keeps its
     * (closed) resource and every flag it had.
     */
    method Close()
      requires Valid()
      modifies this, stream
      ensures Valid() && unchanged(this)
      ensures stream != null ==> !stream.open && stream.data == old(stream.data) && stream.pos == old(stream.pos)
      ensures !HasResource()
    {
      if HasResource() {
        stream.open := false;
      }
      var detached := Detach();
    }

    /** `getSize` as written: a set size is returned, and otherwise an open resource answers null. */
    function GetSize(): (r: Option<int>)
      reads this, stream
      ensures size.Some? ==> r == size
      ensures HasResource() ==> r == size
    {
      if size.Some? then size
      else if HasResource() then None
      else None  // `fstat` on no resource fails, so no size is cached
    }

    /** The size test is inverted, so no size is ever reported. */
    lemma GetSizeIsNull()
      requires Valid()
      ensures GetSize().None?
    {
    }

    /**
     * `getSize` as its documentation describes it: with an open resource and
     * no cached size, `fstat` reports the number of bytes.
     */
    function GetSizeChecked(): (r: Option<int>)
      reads this, stream
      ensures size.Some? ==> r == size
      ensures size.None? && HasResource() ==> r == Some(|stream.data|)
      ensures size.None? && !HasResource() ==> r.None?
    {
      if size.Some? then size
      else if HasResource() then Some(|stream.data|)
      else None
    }

    /** `tell`: the cursor, or an error when `ftell` has no open resource to ask. */
    function Tell(): (r: Result<nat>)
      reads this, stream
      ensures r.Ok? <==> HasResource()
      ensures r.Ok? ==> r.value == stream.pos
      ensures r.Err? ==> r.error == PositionUnknown
    {
      if HasResource() then Ok(stream.pos) else Err(PositionUnknown)
    }

    /** `eof`: no resource, or the resource's end-of-file flag (`feof`). */
    function Eof(): (r: bool)
      reads this, stream
      ensures !HasResource() ==> r
      ensures HasResource() ==> r == stream.eof
    {
      !HasResource() || stream.eof
    }

    /**
     * `seek`: no resource and a non-seekable stream throw; so does `fseek`
     * when the target lies outside the bytes, and the cursor then stays put.
     */
    method Seek(offset: int, whence: Whence) returns (r: Outcome)
      requires Valid()
      modifies stream
      ensures Valid() && unchanged(this)
      ensures stream != null ==> stream.data == old(stream.data) && stream.open == old(stream.open)
      ensures !old(HasResource()) ==> r == Fail(NoResource) && (stream != null ==> unchanged(stream))
      ensures old(HasResource()) && !isSeekable ==> r == Fail(NotSeekable) && unchanged(stream)
      ensures old(HasResource()) && isSeekable ==>
                var t := SeekTarget(offset, whence, old(stream.pos), |stream.data|);
                if 0 <= t <= |stream.data| then r == Done && stream.pos == t && !stream.eof
                else r == Fail(SeekFailed) && stream.pos == old(stream.pos) && stream.eof == old(stream.eof)
    {
      if !HasResource() {
        return Fail(NoResource);
      }
      if !isSeekable {
        return Fail(NotSeekable);
      }
      var t := SeekTarget(offset, whence, stream.pos, |stream.data|);
      if t < 0 || t > |stream.data| {
        return Fail(SeekFailed);
      }
      stream.pos := t;
      stream.eof := false;
      return Done;
    }

    /** `rewind` is `seek(0)`. */
    method Rewind() returns (r: Outcome)
      requires Valid()
      modifies stream
      ensures Valid() && unchanged(this)
      ensures stream != null ==> stream.data == old(stream.data) && stream.open == old(stream.open)
      ensures r == (if !old(HasResource()) then Fail(NoResource) else if !isSeekable then Fail(NotSeekable) else Done)
      ensures r.Done? ==> stream.pos == 0 && !stream.eof
      ensures r.Fail? && stream != null ==> stream.pos == old(stream.pos) && stream.eof == old(stream.eof)
    {
      r := Seek(0, SeekSet);
    }

    /**
     * `write`: no resource and a non-writable stream throw; otherwise the
     * cached size is dropped and `fwrite` runs. It puts the bytes over the
     * resource's bytes at the cursor, or, in an append mode, after the last
     * byte; the cursor ends after them. A resource `fopen` did not open for
     * writing refuses them.
     */
    method Write(s: string) returns (r: Result<nat>)
      requires Valid()
      modifies this, stream
      ensures Valid()
      ensures stream == old(stream) && isReadable == old(isReadable) && isWritable == old(isWritable)
              && isSeekable == old(isSeekable) && uri == old(uri)
      ensures !old(HasResource()) ==> r == Err(NoResource) && (stream != null ==> unchanged(stream))
      ensures old(HasResource()) && !isWritable ==> r == Err(NotWritable) && unchanged(stream)
      ensures old(HasResource()) && isWritable && !FopenWrites(stream.mode) ==>
                r == Err(WriteFailed) && unchanged(stream)
      ensures old(HasResource()) && isWritable && FopenWrites(stream.mode) && !Appends(stream.mode) ==>
                && r == Ok(|s|)
                && stream.data == Overwrite(old(stream.data), old(stream.pos), s)
                && stream.pos == old(stream.pos) + |s| && stream.open && stream.eof == old(stream.eof)
      ensures old(HasResource()) && isWritable && Appends(stream.mode) ==>
                && r == Ok(|s|)
                && stream.data == old(stream.data) + s
                && stream.pos == |stream.data| && stream.open && stream.eof == old(stream.eof)
    {
      if !HasResource() {
        return Err(NoResource);
      }
      if !isWritable {
        return Err(NotWritable);
      }
      size := None;
      if !FopenWrites(stream.mode) {
        return Err(WriteFailed);
      }
      if Appends(stream.mode) {
        stream.data := stream.data + s;
        stream.pos := |stream.data|;
      } else {
        stream.data := Overwrite(stream.data, stream.pos, s);
        stream.pos := stream.pos + |s|;
      }
      return Ok(|s|);
    }

    /** What `fread` hands back: up to `length` bytes from the cursor, none from a write-only resource. */
    static function ReadSpan(data: string, pos: nat, length: int, mode: string): (r: string)
      requires pos <= |data|
      ensures |r| <= |data| - pos && (length > 0 ==> |r| <= length)
      ensures r == data[pos..pos + |r|]
      ensures FopenReads(mode) && length > 0 ==> |r| == if pos + length <= |data| then length else |data| - pos
      ensures !FopenReads(mode) || length <= 0 ==> r == ""
    {
      if !FopenReads(mode) || length <= 0 then ""
      else if pos + length <= |data| then data[pos..pos + length]
      else data[pos..]
    }

    /**
     * `read`: no resource and a non-readable stream throw; otherwise the
     * bytes `fread` returns. A read that asks for more bytes than remain sets
     * the end-of-file flag; one that asks for exactly the rest does not.
     */
    method Read(length: int) returns (r: Result<string>)
      requires Valid()
      modifies stream
      ensures Valid() && unchanged(this)
      ensures stream != null ==> stream.data == old(stream.data) && stream.open == old(stream.open)
      ensures !old(HasResource()) ==> r == Err(NoResource) && (stream != null ==> unchanged(stream))
      ensures old(HasResource()) && !isReadable ==> r == Err(NotReadable) && unchanged(stream)
      ensures old(HasResource()) && isReadable ==>
                && r == Ok(ReadSpan(stream.data, old(stream.pos), length, stream.mode))
                && stream.pos == old(stream.pos) + |r.value|
                && stream.eof == (old(stream.eof) || (FopenReads(stream.mode) && length > 0
                                                      && old(stream.pos) + length > |stream.data|))
    {
      if !HasResource() {
        return Err(NoResource);
      }
      if !isReadable {
        return Err(NotReadable);
      }
      var bytes := ReadSpan(stream.data, stream.pos, length, stream.mode);
      if FopenReads(stream.mode) && length > 0 && stream.pos + length > |stream.data| {
        stream.eof := true;
      }
      stream.pos := stream.pos + |bytes|;
      return Ok(bytes);
    }

    /** `stream_get_contents` from the cursor: the rest of the bytes, leaving the cursor at the end. */
    method ReadToEnd() returns (contents: string)
      requires Valid() && HasResource()
      modifies stream
      ensures Valid() && unchanged(this)
      ensures stream.data == old(stream.data) && stream.open == old(stream.open)
      ensures FopenReads(stream.mode) ==>
                contents == old(stream.data[stream.pos..]) && stream.pos == |stream.data| && stream.eof
      ensures !FopenReads(stream.mode) ==> contents == "" && stream.pos == old(stream.pos) && stream.eof == old(stream.eof)
    {
      if !FopenReads(stream.mode) {
        return "";
      }
      contents := stream.data[stream.pos..];
      stream.pos := |stream.data|;
      stream.eof := true;
    }

    /**
     * `getContents`: rewinds and returns every byte. It checks that a resource
     * exists but, unlike `read`, not the readable flag.
     */
    method GetContents() returns (r: Result<string>)
      requires Valid()
      modifies stream
      ensures Valid() && unchanged(this)
      ensures stream != null ==> stream.data == old(stream.data) && stream.open == old(stream.open)
      ensures !old(HasResource()) ==> r == Err(NoResource)
      ensures old(HasResource()) && !isSeekable ==> r == Err(NotSeekable)
      ensures old(HasResource()) && isSeekable ==>
                r == Ok(if FopenReads(stream.mode) then stream.data else "")
    {
      if !HasResource() {
        return Err(NoResource);
      }
      var rewound := Rewind();
      if rewound.Fail? {
        return Err(rewound.error);
      }
      var contents := ReadToEnd();
      return Ok(contents);
    }

    /** `__toString`: every byte after a rewind, and "" whenever that throws. */
    method ToString() returns (r: string)
      requires Valid()
      modifies stream
      ensures Valid() && unchanged(this)
      ensures stream != null ==> stream.data == old(stream.data) && stream.open == old(stream.open)
      ensures r == if old(HasResource()) && isSeekable && FopenReads(stream.mode) then stream.data else ""
    {
      var rewound := Seek(0, SeekSet);
      if rewound.Fail? {
        return "";
      }
      r := ReadToEnd();
    }

    /**
     * `getMetadata($key)`: without a resource, `[]` when no key is given and
     * null otherwise; with one, all of it, or the value under the key, and
     * null for a key the metadata does not hold.
     */
    function GetMetadata(key: string): (r: Metadata)
      reads this, stream
      ensures !HasResource() ==> r == (if key == "" || key == "0" then NoMetadata else NullValue)
      ensures HasResource() && (key == "" || key == "0") ==>
                r == All(stream.mode, stream.seekable, stream.uri, stream.eof)
      ensures HasResource() && key == "mode" ==> r == Text(stream.mode)
      ensures HasResource() && key == "seekable" ==> r == Flag(stream.seekable)
      ensures HasResource() && key == "uri" ==> r == Text(stream.uri)
      ensures HasResource() && key == "eof" ==> r == Flag(Eof())
      ensures HasResource() && key !in {"", "0", "mode", "seekable", "uri", "eof"} ==> r == NullValue
    {
      if !HasResource() then (if key == "" || key == "0" then NoMetadata else NullValue)
      else if key == "" || key == "0" then All(stream.mode, stream.seekable, stream.uri, stream.eof)
      else if key == "mode" then Text(stream.mode)
      else if key == "seekable" then Flag(stream.seekable)
      else if key == "uri" then Text(stream.uri)
      else if key == "eof" then Flag(stream.eof)
      else NullValue
    }

    function IsReadable(): bool reads this { isReadable }
    function IsWritable(): bool reads this { isWritable }
    function IsSeekable(): bool reads this { isSeekable }
  }
}
