/** Values shared by every part of the book-tracker model: optional values,
    service results, the two permission levels, HTTP status codes, the time
    unit and bytes. */
module Common {

  datatype Option<T> = None | Some(value: T)

  /** What a Go service function returns: a value, or an `error` whose text
      the handlers pass on. */
  datatype Result<T> = Ok(value: T) | Err(message: string)

  /** The permission levels; the permissions table admits only these two. */
  datatype PermType = View | Edit

  function PermTypeName(t: PermType): string
  {
    match t
    case View => "VIEW"
    case Edit => "EDIT"
  }

  /** Request binding `oneof=VIEW EDIT`: exactly the two names are accepted,
      and parsing a name gives back the level it names. */
  function ParsePermType(s: string): (r: Option<PermType>)
    ensures r.Some? <==> s == "VIEW" || s == "EDIT"
    ensures r.Some? ==> PermTypeName(r.value) == s
    ensures forall t :: s == PermTypeName(t) ==> r == Some(t)
  {
    if s == "VIEW" then Some(View)
    else if s == "EDIT" then Some(Edit)
    else None
  }

  // Time is an integer count of milliseconds, always supplied by the caller.
  const SecondMs: int := 1000
  const MinuteMs: int := 60 * SecondMs
  const HourMs: int := 60 * MinuteMs
  const DayMs: int := 24 * HourMs

  // HTTP status codes the handlers answer with.
  const StatusOK: int := 200
  const StatusCreated: int := 201
  const StatusNoContent: int := 204
  const StatusBadRequest: int := 400
  const StatusUnauthorized: int := 401
  const StatusForbidden: int := 403
  const StatusNotFound: int := 404
  const StatusInternalServerError: int := 500

  type Byte = b: int | 0 <= b < 256
}
