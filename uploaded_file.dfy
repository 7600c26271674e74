/**
 * The uploaded file (src/Message/UploadedFile.php): the client's name, media
 * type, size and error code, validated once by the constructor, and a
 * moved flag that guards getStream.
 */
module UploadedFiles {
  import opened Wrappers
  import opened PhpString
  import opened Streams

  /** A '/' or a '\' somewhere in the name. */
  predicate HasPathSeparator(name: string) {
    exists i :: 0 <= i < |name| && (name[i] == '/' || name[i] == '\\')
  }

  /**
   * What `preg_match` answers for the filename check as written: the
   * single-quoted literal leaves the pattern `[/\]+`, whose class the escaped
   * ']' never closes, so the pattern does not compile and the call answers
   * false (None here) for every name.
   */
  function PregMatchAsWritten(name: string): Option<int> {
    None
  }

  /** `setClientFilename` as written: it rejects a name only when the match count is above zero. */
  predicate RejectsAsWritten(name: string) {
    var m := PregMatchAsWritten(name);
    m.Some? && m.value > 0
  }

  /** The check the exception message describes: a name holding '/' or '\' is refused. */
  predicate RejectsName(name: string) {
    HasPathSeparator(name)
  }

  /** "a/b" passes the check as written although it holds the very character the check names. */
  lemma SeparatorSlipsThrough()
    ensures !RejectsAsWritten("a/b") && RejectsName("a/b")
  {
    assert "a/b"[1] == '/';
  }

  /** `empty($x) ? null : (string) $x`, as both client setters store their argument. */
  function NullIfEmpty(s: string): (r: Option<string>)
    ensures r.None? <==> IsEmpty(s)
    ensures r.Some? ==> r.value == s
  {
    if IsEmpty(s) then None else Some(s)
  }

  class UploadedFile {
    var isMoved: bool
    var clientFilename: Option<string>
    var clientMediaType: Option<string>
    var size: int
    var error: int
    var stream: Stream

    /** The fields once every setter has accepted its argument. */
    constructor (stream: Stream, name: string, size: int, mediaType: string, errorCode: int)
      requires size >= 0 && !RejectsName(name)
      ensures !isMoved && this.stream == stream && this.size == size && error == errorCode
      ensures clientFilename == NullIfEmpty(name) && clientMediaType == NullIfEmpty(mediaType)
    {
      this.isMoved := false;
      this.stream := stream;
      this.size := size;
      this.clientMediaType := NullIfEmpty(mediaType);
      this.clientFilename := NullIfEmpty(name);
      this.error := errorCode;
    }

    /**
     * `new UploadedFile(...)`: setSize throws on a negative size before
     * setClientFilename looks at the name; a name with a path separator is
     * refused (the corrected check, see RejectsAsWritten).
     */
    static method Create(stream: Stream, name: string, size: int, mediaType: string, errorCode: int)
      returns (r: Result<UploadedFile>)
      ensures r.Err? <==> size < 0 || RejectsName(name)
      ensures size < 0 ==> r == Err(NegativeSize)
      ensures size >= 0 && RejectsName(name) ==> r == Err(InvalidFilename)
      ensures r.Ok? ==> fresh(r.value) && !r.value.isMoved && r.value.stream == stream
                        && r.value.size == size && r.value.error == errorCode
                        && r.value.clientFilename == NullIfEmpty(name)
                        && r.value.clientMediaType == NullIfEmpty(mediaType)
    {
      if size < 0 {
        return Err(NegativeSize);
      }
      if RejectsName(name) {
        return Err(InvalidFilename);
      }
      var f := new UploadedFile(stream, name, size, mediaType, errorCode);
      return Ok(f);
    }

    /**
     * `getStream`: refused once moved; otherwise a new, empty, readable,
     * writable and seekable `php://temp` stream, never the one the file was
     * built with.
     */
    method GetStream() returns (r: Result<Stream>)
      ensures isMoved ==> r == Err(AlreadyMoved)
      ensures !isMoved ==> r.Ok? && fresh(r.value) && fresh(r.value.stream) && r.value != stream
      ensures r.Ok? ==> r.value.Valid() && r.value.HasResource() && r.value.stream.data == ""
                        && r.value.IsReadable() && r.value.IsWritable() && r.value.IsSeekable()
    {
      if isMoved {
        return Err(AlreadyMoved);
      }
      var res := new Resource("", "r+", true, "php://temp");
      var s := new Stream.Wrap(res);
      var _ := s.Write("");
      return Ok(s);
    }

    /** `moveTo` has an empty body: nothing moves and the file keeps answering getStream. */
    method MoveTo(targetPath: string)
      ensures unchanged(this)
    {
    }

    /**
     * `moveTo` as its documentation describes it: the first call moves the
     * file and marks it moved; any later call fails. Where the file goes is
     * not modelled.
     */
    method MoveToChecked(targetPath: string) returns (r: Outcome)
      modifies this
      ensures old(isMoved) ==> r == Fail(AlreadyMoved)
      ensures !old(isMoved) ==> r == Done
      ensures isMoved
      ensures clientFilename == old(clientFilename) && clientMediaType == old(clientMediaType)
              && size == old(size) && error == old(error) && stream == old(stream)
    {
      if isMoved {
        return Fail(AlreadyMoved);
      }
      isMoved := true;
      return Done;
    }

    function GetSize(): int reads this { size }
    function GetError(): int reads this { error }
    function GetClientFilename(): Option<string> reads this { clientFilename }
    function GetClientMediaType(): Option<string> reads this { clientMediaType }
  }

  /** Since moveTo changes nothing, a file answers getStream after a move as before it. */
  method MoveThenGetStream(f: UploadedFile, targetPath: string) returns (r: Result<Stream>)
    requires !f.isMoved
    ensures r.Ok? && fresh(r.value) && r.value != f.stream
  {
    f.MoveTo(targetPath);
    r := f.GetStream();
  }

  /** With the documented moveTo, a moved file refuses getStream and a second move. */
  method MoveCheckedThenGetStream(f: UploadedFile, targetPath: string)
    returns (first: Outcome, r: Result<Stream>, second: Outcome)
    requires !f.isMoved
    modifies f
    ensures first == Done && r == Err(AlreadyMoved) && second == Fail(AlreadyMoved)
  {
    first := f.MoveToChecked(targetPath);
    r := f.GetStream();
    second := f.MoveToChecked(targetPath);
  }
}
