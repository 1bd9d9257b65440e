/**
 * What `sendfile_filename` (sendfile-fcgi.c:138-164) and `fcgi_status`
 * (:114-136) write to the FastCGI output stream.
 *
 * `stat` and `access` are an oracle (`FileSystem`). `Classify` is the
 * decision the C code takes from the path and the oracle, `Render` the bytes
 * it then writes through `fcgi_header`/`fcgi_newline` (:96-112). The reader
 * `ParseBlock` takes a header block apart again; `RenderParses` proves that
 * every response is one well-formed block with the expected fields.
 */
module Response {
  import opened Wrappers
  import opened CStrings

  // ---------------------------------------------------------------------------
  // The file system oracle
  // ---------------------------------------------------------------------------

  /** The outcome of `stat(path)`: success telling whether the file is a block device, or its `errno`. */
  datatype Stat = Found(blockDevice: bool) | EAccess | ENoEnt | OtherError

  /** `stat` and `access(path, R_OK)` for every path. */
  datatype FileSystem = FileSystem(stat: string -> Stat, readable: string -> bool)

  // ---------------------------------------------------------------------------
  // Status codes (:18-23) and their blocks (:114-136)
  // ---------------------------------------------------------------------------

  datatype Status = BadRequest | Forbidden | NotFound | InternalServerError
  {
    /** The value of the C enumerator. */
    function Code(): nat
    {
      match this
      case BadRequest => 400
      case Forbidden => 403
      case NotFound => 404
      case InternalServerError => 500
    }

    /** The reason phrase `fcgi_status` picks in its switch. */
    function Reason(): (r: string)
      ensures r != [] && '\r' !in r && '\n' !in r
    {
      match this
      case BadRequest => "Bad Request"
      case Forbidden => "Forbidden"
      case NotFound => "Not Found"
      case InternalServerError => "Internal Server Error"
    }
  }

  const CRLF: string := "\r\n"

  /** `fcgi_header(ctx, key, "%s", value)`: `key: value` and a line end. */
  function Header(key: string, value: string): string
  {
    key + ": " + value + CRLF
  }

  predicate IsDigit(c: char)
  {
    '0' <= c <= '9'
  }

  /** The number a string of decimal digits denotes. */
  function DigitsValue(d: string): nat
    requires forall i :: 0 <= i < |d| ==> IsDigit(d[i])
  {
    if d == [] then 0
    else
      assert IsDigit(d[|d| - 1]);
      10 * DigitsValue(d[..|d| - 1]) + (d[|d| - 1] as int - '0' as int)
  }

  /** `%u`: the decimal digits of `n`, without leading zeros. */
  function Decimal(n: nat): (d: string)
    ensures d != [] && (d[0] == '0' ==> d == "0")
    ensures forall i :: 0 <= i < |d| ==> IsDigit(d[i])
    ensures DigitsValue(d) == n
  {
    var last := [('0' as int + n % 10) as char];
    if n < 10 then last
    else
      var d := Decimal(n / 10) + last;
      assert d[..|d| - 1] == Decimal(n / 10);
      d
  }

  lemma DigitsHaveNoCR(d: string)
    requires forall i :: 0 <= i < |d| ==> IsDigit(d[i])
    ensures '\r' !in d
  {
    forall i | 0 <= i < |d| ensures d[i] != '\r' {
      assert IsDigit(d[i]);
    }
  }

  /** The block `fcgi_status` writes: a `Status` header and the empty line. */
  function StatusBlock(s: Status): string
  {
    Header("Status", Decimal(s.Code()) + " " + s.Reason()) + CRLF
  }

  // ---------------------------------------------------------------------------
  // sendfile_filename
  // ---------------------------------------------------------------------------

  /** Where the base name starts: just past the last '/', or 0 when there is none. */
  function BaseStart(p: string): (i: nat)
    ensures i <= |p|
    ensures forall j :: i <= j < |p| ==> p[j] != '/'
    ensures 0 < i ==> p[i - 1] == '/'
  {
    if p == [] then 0
    else if p[|p| - 1] == '/' then |p|
    else BaseStart(p[..|p| - 1])
  }

  /** GNU `basename`: everything after the last '/', empty when the path ends in '/'. */
  function Basename(p: string): string
  {
    p[BaseStart(p)..]
  }

  /**
   * The base name holds no '/', ends the path, and is either the whole path
   * or preceded by a '/'.
   */
  lemma BasenameIsLastSegment(p: string)
    ensures var b := Basename(p);
            && '/' !in b
            && |b| <= |p| && p == p[..|p| - |b|] + b
            && (|b| < |p| ==> p[|p| - |b| - 1] == '/')
  {
    var b := Basename(p);
    var i := BaseStart(p);
    assert forall j :: 0 <= j < |b| ==> b[j] == p[i + j];
    assert p == p[..i] + p[i..];
  }

  /** What `sendfile_filename` decides: send the file, or answer with an error status. */
  datatype Verdict = Deliver(path: string, blockDevice: bool) | Refuse(status: Status)

  /** The decisions of :143-156, in the order the C code takes them. */
  function Classify(path: string, fs: FileSystem): Verdict
  {
    if path == [] || path[0] != '/' then Refuse(BadRequest)
    else
      match fs.stat(path)
      case EAccess => Refuse(Forbidden)
      case ENoEnt => Refuse(NotFound)
      case OtherError => Refuse(InternalServerError)
      case Found(block) =>
        if !fs.readable(path) then Refuse(Forbidden)
        else Deliver(path, block)
  }

  /** The file name offered to the client: the base name, with ".img" appended for a block device. */
  function DownloadName(path: string, blockDevice: bool): string
  {
    Basename(path) + (if blockDevice then ".img" else "")
  }

  /** The bytes written for a verdict (:144-162). */
  function Render(v: Verdict): string
  {
    match v
    case Refuse(s) => StatusBlock(s)
    case Deliver(path, block) =>
      Header("Content-type", "application/octet-stream")
      + (Header("Content-Disposition", "attachment;filename=\"" + DownloadName(path, block) + "\"")
         + (Header("X-SendFile", path) + CRLF))
  }

  /** `sendfile_filename(ctx, path)`: always returns true, so the model returns only what it writes. */
  function SendfileFilename(path: string, fs: FileSystem): string
  {
    Render(Classify(path, fs))
  }

  // ---------------------------------------------------------------------------
  // Reading a header block back
  // ---------------------------------------------------------------------------

  datatype Field = Field(key: string, value: string)

  /** The first line of `text` and what follows its CRLF; None when there is no complete line. */
  function Line(text: string): (r: Option<(string, string)>)
    ensures r.Some? ==> text == r.value.0 + CRLF + r.value.1 && '\r' !in r.value.0
  {
    var i := Find(text, '\r');
    if i + 1 < |text| && text[i + 1] == '\n' then
      assert text == text[..i] + CRLF + text[i + 2..];
      Some((text[..i], text[i + 2..]))
    else None
  }

  /** A header line `key: value` with a non-empty key that holds no ':'. */
  function ParseField(line: string): (r: Option<Field>)
    ensures r.Some? ==> line == r.value.key + ": " + r.value.value && ':' !in r.value.key && r.value.key != []
  {
    var i := Find(line, ':');
    if 0 < i && i + 1 < |line| && line[i + 1] == ' ' then
      assert line == line[..i] + ": " + line[i + 2..];
      Some(Field(line[..i], line[i + 2..]))
    else None
  }

  /** A whole response: header lines up to the empty line, which must end the text. */
  function ParseBlock(text: string): Option<seq<Field>>
    decreases |text|
  {
    match Line(text)
    case None => None
    case Some((line, rest)) =>
      if line == [] then (if rest == [] then Some([]) else None)
      else
        match ParseField(line)
        case None => None
        case Some(f) =>
          match ParseBlock(rest)
          case None => None
          case Some(fs) => Some([f] + fs)
  }

  /** A header the reader accepts: its key is non-empty and holds neither ':' nor CR, its value holds no CR. */
  predicate WellFormed(key: string, value: string)
  {
    key != [] && ':' !in key && '\r' !in key && '\r' !in value
  }

  lemma LineOf(line: string, rest: string)
    requires '\r' !in line
    ensures Line(line + CRLF + rest) == Some((line, rest))
  {
    var text := line + CRLF + rest;
    assert text == line + (CRLF + rest);
    FindPrefix(line, CRLF + rest, '\r');
    assert Find(CRLF + rest, '\r') == 0;
    assert text[..|line|] == line && text[|line| + 2..] == rest;
  }

  lemma FieldOf(key: string, value: string)
    requires key != [] && ':' !in key
    ensures ParseField(key + ": " + value) == Some(Field(key, value))
  {
    var line := key + ": " + value;
    assert line == key + (": " + value);
    FindPrefix(key, ": " + value, ':');
    assert Find(": " + value, ':') == 0;
    assert line[..|key|] == key && line[|key| + 2..] == value;
  }

  lemma EmptyLine()
    ensures ParseBlock(CRLF) == Some([])
  {
    assert CRLF == [] + CRLF + [];
    LineOf([], []);
  }

  /**
   * One header line in front of a block adds its field in front of the block's
   * fields, and the whole reads as a block exactly when the rest does.
   */
  lemma ParseHeader(key: string, value: string, rest: string)
    requires WellFormed(key, value)
    ensures ParseBlock(Header(key, value) + rest) ==
              match ParseBlock(rest)
              case None => None
              case Some(fields) => Some([Field(key, value)] + fields)
  {
    var line := key + ": " + value;
    assert Header(key, value) + rest == line + CRLF + rest;
    assert '\r' !in line;
    LineOf(line, rest);
    FieldOf(key, value);
  }

  /** Every status block is one well-formed block with the single field `Status: <code> <reason>`. */
  lemma StatusBlockParses(s: Status)
    ensures ParseBlock(StatusBlock(s)) == Some([Field("Status", Decimal(s.Code()) + " " + s.Reason())])
  {
    var value := Decimal(s.Code()) + " " + s.Reason();
    DigitsHaveNoCR(Decimal(s.Code()));
    assert WellFormed("Status", value);
    EmptyLine();
    ParseHeader("Status", value, CRLF);
    assert [Field("Status", value)] + [] == [Field("Status", value)];
    assert StatusBlock(s) == Header("Status", value) + CRLF;
  }

  /**
   * A delivery is one well-formed block with the three fields of :159-161, as
   * long as the path holds no CR (a CR in the path would end the X-SendFile
   * line early).
   */
  lemma DeliveryParses(path: string, block: bool)
    requires '\r' !in path
    ensures ParseBlock(Render(Deliver(path, block))) == Some([
              Field("Content-type", "application/octet-stream"),
              Field("Content-Disposition", "attachment;filename=\"" + DownloadName(path, block) + "\""),
              Field("X-SendFile", path)])
  {
    var disposition := "attachment;filename=\"" + DownloadName(path, block) + "\"";
    ContentTypeWellFormed();
    DispositionWellFormed(path, block);
    SendFileWellFormed(path);
    var tail := Header("X-SendFile", path) + CRLF;
    var middle := Header("Content-Disposition", disposition) + tail;
    var f1 := Field("Content-type", "application/octet-stream");
    var f2 := Field("Content-Disposition", disposition);
    var f3 := Field("X-SendFile", path);
    EmptyLine();
    ParseHeader("X-SendFile", path, CRLF);
    ParseHeader("Content-Disposition", disposition, tail);
    ParseHeader("Content-type", "application/octet-stream", middle);
    assert [f1] + ([f2] + ([f3] + [])) == [f1, f2, f3];
    assert Render(Deliver(path, block)) == Header("Content-type", "application/octet-stream") + middle;
  }

  lemma ContentTypeWellFormed()
    ensures WellFormed("Content-type", "application/octet-stream")
  {
  }

  lemma DispositionWellFormed(path: string, block: bool)
    requires '\r' !in path
    ensures WellFormed("Content-Disposition", "attachment;filename=\"" + DownloadName(path, block) + "\"")
  {
    var b := Basename(path);
    assert forall j :: 0 <= j < |b| ==> b[j] == path[BaseStart(path) + j];
  }

  lemma SendFileWellFormed(path: string)
    requires '\r' !in path
    ensures WellFormed("X-SendFile", path)
  {
  }

  /** Every response `sendfile_filename` writes is exactly one header block. */
  lemma RenderParses(path: string, fs: FileSystem)
    requires '\r' !in path
    ensures ParseBlock(SendfileFilename(path, fs)).Some?
  {
    match Classify(path, fs)
    case Refuse(s) => StatusBlockParses(s);
    case Deliver(p, block) => DeliveryParses(p, block);
  }

  // ---------------------------------------------------------------------------
  // What sendfile_filename decides
  // ---------------------------------------------------------------------------

  /** The file is sent exactly when the path is absolute, `stat` succeeds and `access` grants reading. */
  lemma ClassifyDelivers(path: string, fs: FileSystem)
    ensures Classify(path, fs).Deliver? <==>
              path != [] && path[0] == '/' && fs.stat(path).Found? && fs.readable(path)
    ensures Classify(path, fs).Deliver? ==>
              Classify(path, fs) == Deliver(path, fs.stat(path).blockDevice)
  {
  }

  /** Which error answers which failure (:143-156). */
  lemma ClassifyRefuses(path: string, fs: FileSystem)
    ensures (path == [] || path[0] != '/') ==> Classify(path, fs) == Refuse(BadRequest)
    ensures path != [] && path[0] == '/' ==>
              (Classify(path, fs) == Refuse(Forbidden) <==>
                 fs.stat(path) == EAccess || (fs.stat(path).Found? && !fs.readable(path)))
    ensures path != [] && path[0] == '/' ==>
              (Classify(path, fs) == Refuse(NotFound) <==> fs.stat(path) == ENoEnt)
    ensures path != [] && path[0] == '/' ==>
              (Classify(path, fs) == Refuse(InternalServerError) <==> fs.stat(path) == OtherError)
  {
  }

  /** The four error blocks, byte for byte. */
  lemma BadRequestBlock()
    ensures StatusBlock(BadRequest) == "Status: 400 Bad Request\r\n\r\n"
  {
    StatusBlockText(BadRequest);
    StatusCodes();
    assert "Status: " + "400" + " " + "Bad Request" + "\r\n\r\n" == "Status: 400 Bad Request\r\n\r\n";
  }

  /** Every error block is `Status: <code> <reason>` followed by two line ends. */
  lemma StatusBlockText(s: Status)
    ensures StatusBlock(s) == "Status: " + Decimal(s.Code()) + " " + s.Reason() + "\r\n\r\n"
  {
  }

  /** `%u` prints the four codes as their three digits. */
  lemma StatusCodes()
    ensures Decimal(BadRequest.Code()) == "400" && Decimal(Forbidden.Code()) == "403"
    ensures Decimal(NotFound.Code()) == "404" && Decimal(InternalServerError.Code()) == "500"
  {
    assert Decimal(400) == "400";
    assert Decimal(403) == "403";
    assert Decimal(404) == "404";
    assert Decimal(500) == "500";
  }
}
