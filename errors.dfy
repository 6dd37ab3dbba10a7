/**
 * The application's error type `MibigError` (errors.rs): its display text,
 * its `source()` and the HTTP response it turns into.
 */
module Errors {
  import opened Wrappers

  /** The wrapped library errors, each seen through its display text. */
  datatype IoError = IoError(message: string)
  datatype BcryptError = BcryptError(message: string)
  datatype DieselError = DieselError(message: string)

  datatype MibigError =
    | NotImplemented
    | Io(io: IoError)
    | InvalidTaxID(taxId: string)
    | Password(bcrypt: BcryptError)
    | DatabaseError(diesel: DieselError)
    | Unauthorised

  /** What `source()` can point at: the wrapped library error. */
  datatype Cause = IoCause(IoError) | BcryptCause(BcryptError) | DieselCause(DieselError)

  /** `From<io::Error>`. */
  function FromIo(e: IoError): (r: MibigError)
    ensures Source(r) == Some(IoCause(e))
    ensures Display(r) == "IO error: " + e.message
  {
    Io(e)
  }

  /** `From<bcrypt::BcryptError>`. */
  function FromBcrypt(e: BcryptError): (r: MibigError)
    ensures Source(r) == Some(BcryptCause(e))
    ensures Display(r) == "Password error: " + e.message
  {
    Password(e)
  }

  /** `From<diesel::result::Error>`. */
  function FromDiesel(e: DieselError): (r: MibigError)
    ensures Source(r) == Some(DieselCause(e))
    ensures Display(r) == "Database error: " + e.message
  {
    DatabaseError(e)
  }

  /** The text an error carries: the wrapped error's message, or the tax id. */
  function Payload(e: MibigError): Option<string> {
    match e
    case Io(err) => Some(err.message)
    case InvalidTaxID(id) => Some(id)
    case Password(err) => Some(err.message)
    case DatabaseError(err) => Some(err.message)
    case NotImplemented | Unauthorised => None
  }

  /** `Display::fmt`: a variant that carries a text shows it verbatim at the
      end, after its own label and ": "; the other two show a fixed phrase. */
  function Display(e: MibigError): (s: string)
    ensures Payload(e).Some? ==>
              var p := Payload(e).value;
              |p| + 2 < |s| && s[|s| - |p|..] == p && s[|s| - |p| - 2..|s| - |p|] == ": "
    ensures e.Io? ==> s == "IO error: " + e.io.message
    ensures e.InvalidTaxID? ==> s == "Invalid TaxID: " + e.taxId
    ensures e.Password? ==> s == "Password error: " + e.bcrypt.message
    ensures e.DatabaseError? ==> s == "Database error: " + e.diesel.message
    ensures e.NotImplemented? ==> s == "Not implemented"
    ensures e.Unauthorised? ==> s == "Unauthorised"
  {
    match e
    case Io(err) => "IO error: " + err.message
    case NotImplemented => "Not implemented"
    case InvalidTaxID(id) => "Invalid TaxID: " + id
    case Password(err) => "Password error: " + err.message
    case DatabaseError(err) => "Database error: " + err.message
    case Unauthorised => "Unauthorised"
  }

  /** `Error::source`: present exactly for the three wrapping variants. */
  function Source(e: MibigError): (r: Option<Cause>)
    ensures r.None? <==> e.NotImplemented? || e.InvalidTaxID? || e.Unauthorised?
  {
    match e
    case Io(err) => Some(IoCause(err))
    case Password(err) => Some(BcryptCause(err))
    case DatabaseError(err) => Some(DieselCause(err))
    case NotImplemented => None
    case InvalidTaxID(_) => None
    case Unauthorised => None
  }

  /** Which variant an error is; the display text determines it. */
  datatype Kind = KNotImplemented | KIo | KInvalidTaxID | KPassword | KDatabaseError | KUnauthorised

  function KindOf(e: MibigError): Kind {
    match e
    case NotImplemented => KNotImplemented
    case Io(_) => KIo
    case InvalidTaxID(_) => KInvalidTaxID
    case Password(_) => KPassword
    case DatabaseError(_) => KDatabaseError
    case Unauthorised => KUnauthorised
  }

  /** Errors of different variants never display alike. */
  lemma DisplayDeterminesKind(a: MibigError, b: MibigError)
    requires Display(a) == Display(b)
    ensures KindOf(a) == KindOf(b)
  {
    var d := Display(a);
    assert d[0] == Display(b)[0];
    if a.Io? || a.InvalidTaxID? {
      assert d[1] == Display(b)[1];
    }
    if a.NotImplemented? {
      assert |d| == 15 && d[..1] == "N";
    }
  }

  /** UTF-8 width of one character: what Rust's `String::len` counts. */
  function Utf8Width(c: char): nat {
    if c as int < 0x80 then 1
    else if c as int < 0x800 then 2
    else if c as int < 0x10000 then 3
    else 4
  }

  /** `String::len`: the length in bytes of the UTF-8 encoding. */
  function Utf8Len(s: string): nat {
    if s == [] then 0 else Utf8Width(s[0]) + Utf8Len(s[1..])
  }

  /** The byte length is at least the character count, and equal to it
      exactly when the text is ASCII. */
  lemma {:induction false} Utf8LenBounds(s: string)
    ensures Utf8Len(s) >= |s|
    ensures Utf8Len(s) == |s| <==> forall i :: 0 <= i < |s| ==> s[i] as int < 0x80
  {
    if s != [] {
      Utf8LenBounds(s[1..]);
      assert forall i :: 1 <= i < |s| ==> s[i] == s[1..][i - 1];
    }
  }

  datatype Status = InternalServerError | Unauthorized {
    function Code(): int {
      match this
      case InternalServerError => 500
      case Unauthorized => 401
    }
  }

  /** A plain-text response with a sized body. */
  datatype Response = Response(status: Status, contentType: string, size: nat, body: string)

  /** `ContentType::Plain` as Rocket sends it. */
  const PlainText: string := "text/plain; charset=utf-8"

  const ServerErrorPrefix: string := "Server error: "

  /**
   * `Responder::respond_to`. Server-side failures (database, tax id, I/O,
   * not implemented) give 500 with the display text behind "Server error: ";
   * authentication failures give 401 with the bare display text. It never
   * fails, and the declared size is the body's length in bytes.
   */
  function RespondTo(e: MibigError): (r: Result<Response, Status>)
    ensures r.Ok?
    ensures r.value.status.Code() == 500 <==>
              e.DatabaseError? || e.InvalidTaxID? || e.Io? || e.NotImplemented?
    ensures r.value.status.Code() == 401 <==> e.Password? || e.Unauthorised?
    ensures r.value.body ==
              if r.value.status.Code() == 500 then ServerErrorPrefix + Display(e) else Display(e)
    ensures r.value.size == Utf8Len(r.value.body)
    ensures r.value.contentType == PlainText
  {
    match e
    case DatabaseError(_) | InvalidTaxID(_) | Io(_) | NotImplemented =>
      var body := ServerErrorPrefix + Display(e);
      Ok(Response(InternalServerError, PlainText, Utf8Len(body), body))
    case Password(_) | Unauthorised =>
      var body := Display(e);
      Ok(Response(Unauthorized, PlainText, Utf8Len(body), body))
  }

  /** The status can be read off the body: only 500 bodies carry the
      "Server error: " prefix. */
  lemma StatusReadableFromBody(e: MibigError)
    ensures var resp := RespondTo(e).value;
            resp.status.Code() == 500 <==>
              |resp.body| >= |ServerErrorPrefix| && resp.body[..|ServerErrorPrefix|] == ServerErrorPrefix
  {
    var body := RespondTo(e).value.body;
    if e.Password? || e.Unauthorised? {
      assert body[0] != 'S';
    }
  }

  /** The declared size counts bytes: it is never below the character count
      of the body, and equals it exactly when the body is ASCII. */
  lemma ResponseSizeCountsBytes(e: MibigError)
    ensures var resp := RespondTo(e).value;
            && resp.size >= |resp.body|
            && (resp.size == |resp.body| <==> forall i :: 0 <= i < |resp.body| ==> resp.body[i] as int < 0x80)
  {
    Utf8LenBounds(RespondTo(e).value.body);
  }
}
