/**
 * The application error of the back end (`src-tauri/src/error.rs`): three
 * kinds of error carrying a message, their display text, and the conversions
 * from database errors and plain messages.
 */
module AppErrors {
  import opened Wrappers
  import opened Strings

  datatype AppError = NotFound(msg: string) | Database(msg: string) | Internal(msg: string)

  /** The prefix `Display` puts before the message of each kind. */
  function Prefix(e: AppError): string {
    match e
    case NotFound(_) => "Not found: "
    case Database(_) => "Database error: "
    case Internal(_) => "Internal error: "
  }

  /** `e.to_string()`: the prefix of its kind followed by its message. */
  function Display(e: AppError): string {
    Prefix(e) + e.msg
  }

  /** Reads a displayed error back; `None` for a text no error displays as. */
  function Parse(s: string): (r: Option<AppError>)
    ensures r.Some? ==> Display(r.value) == s
  {
    if StartsWith(s, "Not found: ") then
      assert s == "Not found: " + s[11..];
      Some(NotFound(s[11..]))
    else if StartsWith(s, "Database error: ") then
      assert s == "Database error: " + s[16..];
      Some(Database(s[16..]))
    else if StartsWith(s, "Internal error: ") then
      assert s == "Internal error: " + s[16..];
      Some(Internal(s[16..]))
    else None
  }

  /** The displayed text determines the error: kind and message. */
  lemma ParseDisplay(e: AppError)
    ensures Parse(Display(e)) == Some(e)
  {
    var s := Display(e);
    assert s[..|Prefix(e)|] == Prefix(e);
    assert s[|Prefix(e)|..] == e.msg;
    match e
    case NotFound(_) =>
    case Database(_) =>
      assert s[0] == 'D';
    case Internal(_) =>
      assert s[0] == 'I';
  }

  /** Two errors that display alike are the same error. */
  lemma DisplayInjective(a: AppError, b: AppError)
    requires Display(a) == Display(b)
    ensures a == b
  {
    ParseDisplay(a);
    ParseDisplay(b);
  }

  /** The database errors the repositories can meet. */
  datatype DbErr =
    | RecordNotFound(what: string)      // raised explicitly with `ok_or_else`
    | UniqueViolation(constraint: string) // an insert breaking a `UNIQUE` or primary key

  /**
   * An abstraction of a database error's `to_string()`: the kind and the
   * detail. For a unique violation the real text also carries the prefix
   * and the SQLite error code of the wrapped sqlx error.
   */
  function DbErrText(e: DbErr): string {
    match e
    case RecordNotFound(what) => "RecordNotFound Error: " + what
    case UniqueViolation(c) => "Execution Error: UNIQUE constraint failed: " + c
  }

  /** `From<DbErr>`: a database error becomes `Database` with the error's text. */
  function FromDbErr(e: DbErr): AppError {
    Database(DbErrText(e))
  }

  /** `From<String>`, `From<&str>` and `From<io::Error>`: the message becomes `Internal`. */
  function FromMessage(m: string): AppError {
    Internal(m)
  }

  /** The conversions keep the message text and choose the kind by the source of the error. */
  lemma ConversionsKeepText(e: DbErr, m: string)
    ensures Parse(Display(FromDbErr(e))) == Some(Database(DbErrText(e)))
    ensures Parse(Display(FromMessage(m))) == Some(Internal(m))
    ensures Display(FromDbErr(e)) == "Database error: " + DbErrText(e)
    ensures Display(FromMessage(m)) == "Internal error: " + m
  {
    ParseDisplay(FromDbErr(e));
    ParseDisplay(FromMessage(m));
  }

  /**
   * The `match` every command handler ends with: a success is passed on, an
   * error becomes its displayed text, from which the error can be read back.
   */
  function ToCommandResult<T>(r: Result<T, AppError>): (c: Result<T, string>)
    ensures r.Ok? ==> c == Ok(r.value)
    ensures r.Err? ==> c.Err? && Parse(c.error) == Some(r.error)
  {
    match r
    case Ok(v) => Ok(v)
    case Err(e) =>
      ParseDisplay(e);
      Err(Display(e))
  }
}
